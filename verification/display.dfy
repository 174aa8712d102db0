/** The display-value filters of `Rules`: which objects carry displayable geometry, either
    directly or through the definition of an instance. */
module DisplayRules {
  import opened Text
  import opened PyValues

  /** `getattr(obj, key, None)`: a member of a `Base` object; dictionaries and primitives
      have no such attributes. */
  function Attr(obj: Value, key: string): (r: Value)
    ensures r != Null ==> obj.Rec? && !obj.isDict && Get(obj.members, key) == Some(r)
  {
    if obj.Rec? && !obj.isDict && Get(obj.members, key).Some? then Get(obj.members, key).value else Null
  }

  predicate IsBase(v: Value) {
    v.Rec? && !v.isDict
  }

  /** The `Base` objects of a sequence, in order. */
  function BaseItems(xs: seq<Value>): (r: seq<Value>)
    ensures |r| <= |xs|
    ensures forall k :: 0 <= k < |r| ==> IsBase(r[k]) && r[k] in xs
  {
    if xs == [] then []
    else if IsBase(xs[0]) then [xs[0]] + BaseItems(xs[1..])
    else BaseItems(xs[1..])
  }

  /** What iterating a value yields, as far as `Base` objects go: a list its items, text its
      characters and a dictionary its keys (neither of which are `Base` objects); anything
      else raises TypeError. */
  function BaseObjectsIn(v: Value): Result<seq<Value>> {
    match v
    case List(xs) => Ok(BaseItems(xs))
    case Str(_) => Ok([])
    case Rec(_, isDict, _) =>
      if isDict then Ok([]) else Err(TypeError("'Base' object is not iterable"))
    case _ => Err(TypeError("object is not iterable"))
  }

  /** `try_get_display_value`: "displayValue" when truthy, else "@displayValue"; `None` when
      there is none or it holds no `Base` object, otherwise its `Base` objects in order. */
  function TryGetDisplayValue(obj: Value): Result<Option<seq<Value>>> {
    var first := Attr(obj, "displayValue");
    var raw := if PyTruthy(first) then first else Attr(obj, "@displayValue");
    if raw.Null? then Ok(Nothing)
    else
      var xs :- BaseObjectsIn(raw);
      if xs == [] then Ok(Nothing) else Ok(Some(xs))
  }

  /** A display value, once found, is a non-empty list of `Base` objects drawn from the
      object's display list, which an object without either attribute does not have. */
  lemma DisplayValueShape(obj: Value)
    ensures TryGetDisplayValue(obj).Ok? && TryGetDisplayValue(obj).value.Some? ==>
              var xs := TryGetDisplayValue(obj).value.value;
              xs != [] && (forall k :: 0 <= k < |xs| ==> IsBase(xs[k]))
    ensures Attr(obj, "displayValue") == Null && Attr(obj, "@displayValue") == Null ==>
              TryGetDisplayValue(obj) == Ok(Nothing)
    ensures !IsBase(obj) ==> TryGetDisplayValue(obj) == Ok(Nothing)
  {
  }

  /** A display list keeps exactly its `Base` items, in order. */
  lemma {:induction false} BaseItemsFilter(xs: seq<Value>, k: nat)
    requires k < |xs| && IsBase(xs[k])
    ensures xs[k] in BaseItems(xs)
  {
    if k > 0 {
      BaseItemsFilter(xs[1..], k - 1);
    }
  }

  /** The displayable test of one object: its own display value and identifier. */
  predicate DirectlyDisplayable(r: Result<Option<seq<Value>>>, obj: Value) {
    r.Ok? && r.value.Some? && Attr(obj, "id") != Null
  }

  /** `is_displayable_object`: displayable with its own identifier, or through a truthy
      definition that is. Errors from reading a display value propagate. */
  function IsDisplayableObject(obj: Value): Result<bool> {
    var own :- TryGetDisplayValue(obj);
    if own.Some? && Attr(obj, "id") != Null then Ok(true)
    else
      var definition := Attr(obj, "definition");
      if !PyTruthy(definition) then Ok(false)
      else
        var defs :- TryGetDisplayValue(definition);
        Ok(defs.Some? && Attr(definition, "id") != Null)
  }

  /** An object is displayable exactly when it, or its truthy definition, has a display
      value and an identifier. */
  lemma DisplayableMeaning(obj: Value)
    requires IsDisplayableObject(obj).Ok?
    ensures IsDisplayableObject(obj).value <==>
              DirectlyDisplayable(TryGetDisplayValue(obj), obj)
              || (PyTruthy(Attr(obj, "definition"))
                  && DirectlyDisplayable(TryGetDisplayValue(Attr(obj, "definition")), Attr(obj, "definition")))
  {
  }

  /** `get_displayable_objects`: the displayable objects whose identifier is truthy, in
      order; the first error raised stops the filter. */
  function GetDisplayableObjects(objs: seq<Value>): Result<seq<Value>> {
    if objs == [] then Ok([])
    else
      var keep :- IsDisplayableObject(objs[0]);
      var rest :- GetDisplayableObjects(objs[1..]);
      Ok(if keep && PyTruthy(Attr(objs[0], "id")) then [objs[0]] + rest else rest)
  }

  predicate Kept(o: Value) {
    IsDisplayableObject(o) == Ok(true) && PyTruthy(Attr(o, "id"))
  }

  /** The result holds exactly the input objects that are displayable with a truthy
      identifier, each once per occurrence and in input order: it is a subsequence, no
      longer than the input, and nothing kept is dropped. */
  lemma {:induction false} DisplayableObjectsFilter(objs: seq<Value>)
    requires GetDisplayableObjects(objs).Ok?
    ensures var r := GetDisplayableObjects(objs).value;
      |r| <= |objs|
      && (forall k :: 0 <= k < |r| ==> r[k] in objs && Kept(r[k]))
      && (forall k :: 0 <= k < |objs| && Kept(objs[k]) ==> objs[k] in r)
  {
    if objs != [] {
      DisplayableObjectsFilter(objs[1..]);
      var r := GetDisplayableObjects(objs).value;
      var rest := GetDisplayableObjects(objs[1..]).value;
      forall k | 0 <= k < |objs| && Kept(objs[k])
        ensures objs[k] in r
      {
        if k > 0 {
          assert objs[k] == objs[1..][k - 1];
        }
      }
      forall k | 0 <= k < |r|
        ensures r[k] in objs && Kept(r[k])
      {
        if Kept(objs[0]) {
          if k > 0 {
            assert r[k] == rest[k - 1];
          }
        } else {
          assert r[k] == rest[k];
        }
      }
    }
  }

  /** The filter raises exactly when some object's display test raises. */
  lemma {:induction false} DisplayableObjectsErrors(objs: seq<Value>)
    ensures GetDisplayableObjects(objs).Err? <==>
              exists k :: 0 <= k < |objs| && IsDisplayableObject(objs[k]).Err?
  {
    if objs != [] {
      DisplayableObjectsErrors(objs[1..]);
      if GetDisplayableObjects(objs[1..]).Err? {
        var k :| 0 <= k < |objs[1..]| && IsDisplayableObject(objs[1..][k]).Err?;
        assert IsDisplayableObject(objs[k + 1]).Err?;
      }
      if exists k :: 0 <= k < |objs| && IsDisplayableObject(objs[k]).Err? {
        var k :| 0 <= k < |objs| && IsDisplayableObject(objs[k]).Err?;
        if k > 0 {
          assert objs[1..][k - 1] == objs[k];
        }
      }
    }
  }
}
