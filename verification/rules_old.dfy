/** The superseded parameter searcher and the predicates built on it: name matching in three
    modes, a dotted-path search that may skip wrapper dicts, a search for the last segment
    anywhere below, and the lookup that tries a direct member, then the v3 and v2 parameter
    trees. Nothing else in the engine uses this module. */
module LegacyRules {
  import opened Text
  import opened PyValues
  import PropertyRules

  type Lookup = PropertyRules.Lookup

  /** `PropertyMatchMode` */
  datatype MatchMode = Strict | Fuzzy | Mixed

  // ===========================================================================
  // Name matching and value extraction

  /** `matches_name`: equal ignoring case, the target inside the key ignoring case, or either. */
  predicate MatchesName(key: string, target: string, mode: MatchMode) {
    match mode
    case Strict => Lower(key) == Lower(target)
    case Fuzzy => Contains(Lower(key), Lower(target))
    case Mixed => Lower(key) == Lower(target) || Contains(Lower(key), Lower(target))
  }

  /** `needle in hay` holds exactly when the needle starts at some position of the hay. */
  lemma {:induction false} ContainsAt(hay: string, needle: string)
    ensures Contains(hay, needle) <==> exists i :: 0 <= i <= |hay| && needle <= hay[i..]
    decreases |hay|
  {
    if |hay| > 0 {
      ContainsAt(hay[1..], needle);
    }
    if Contains(hay, needle) {
      if needle <= hay {
        assert hay[0..] == hay;
      } else {
        var i :| 0 <= i <= |hay[1..]| && needle <= hay[1..][i..];
        assert hay[1..][i..] == hay[i + 1..];
      }
    }
    if exists i :: 0 <= i <= |hay| && needle <= hay[i..] {
      var i :| 0 <= i <= |hay| && needle <= hay[i..];
      if i == 0 {
        assert hay[i..] == hay;
      } else {
        assert hay[1..][i - 1..] == hay[i..];
        assert Contains(hay[1..], needle);
      }
    }
  }

  /** STRICT is case-insensitive equality, FUZZY finds the lower-case target at some position
      of the lower-case key; every STRICT match is a FUZZY match, so MIXED matches exactly what
      FUZZY matches. */
  lemma MatchesNameModes(key: string, target: string)
    ensures MatchesName(key, target, Strict) <==> Lower(key) == Lower(target)
    ensures MatchesName(key, target, Fuzzy) <==>
              exists i :: 0 <= i <= |Lower(key)| && Lower(target) <= Lower(key)[i..]
    ensures MatchesName(key, target, Strict) ==> MatchesName(key, target, Fuzzy)
    ensures MatchesName(key, target, Mixed) <==> MatchesName(key, target, Fuzzy)
  {
    ContainsAt(Lower(key), Lower(target));
    ContainsSelf(Lower(key));
  }

  /** `try_get_value`: the `value` member of a dict or `Base` object, otherwise the object. */
  function TryGetValue(obj: Value): Value {
    if obj.Rec? && Get(obj.members, "value").Some? then Get(obj.members, "value").value else obj
  }

  /** The current `get_obj_value` is this extraction followed by the Yes/No conversion. */
  lemma TryGetValueThenConvert(obj: Value)
    ensures PropertyRules.GetObjValue(obj, false) == PropertyRules.ConvertRevitBoolean(TryGetValue(obj))
    ensures TryGetValue(obj) == obj || (obj.Rec? && exists k :: 0 <= k < |obj.members| && obj.members[k] == ("value", TryGetValue(obj)))
  {
  }

  /** `get_item(obj, key)`: the member of a dict or `Base` object, or `None`. */
  function GetItem(obj: Value, key: string): Value {
    if obj.Rec? && Get(obj.members, key).Some? then Get(obj.members, key).value else Null
  }

  /** `has_item(obj, key)` */
  predicate HasItem(obj: Value, key: string) {
    obj.Rec? && Get(obj.members, key).Some?
  }

  predicate IsDict(v: Value) {
    v.Rec? && v.isDict
  }

  // ===========================================================================
  // Path search

  /** `try_match_path`: only dicts are navigated; with no segment left the dict's value is the
      hit; otherwise each item in order is tried first as the match of the current segment,
      then, when it is a dict, as a level skipped without consuming a segment. */
  function TryMatchPath(current: Value, parts: seq<string>, mode: MatchMode): Lookup
    decreases current, 1
  {
    if !IsDict(current) then PropertyRules.NotFound
    else if parts == [] then PropertyRules.Found(TryGetValue(current))
    else TryMatchPathFrom(current, parts, mode, 0)
  }

  /** The loop of `try_match_path` from item `k` on. */
  function TryMatchPathFrom(current: Value, parts: seq<string>, mode: MatchMode, k: nat): Lookup
    requires IsDict(current) && parts != [] && k <= |current.members|
    decreases current, 0, |current.members| - k
  {
    if k == |current.members| then PropertyRules.NotFound
    else
      var item := current.members[k].1;
      var consumed := if MatchesName(current.members[k].0, parts[0], mode) then TryMatchPath(item, parts[1..], mode)
                      else PropertyRules.NotFound;
      if consumed.Found? then consumed
      else
        var skipped := if IsDict(item) then TryMatchPath(item, parts, mode) else PropertyRules.NotFound;
        if skipped.Found? then skipped else TryMatchPathFrom(current, parts, mode, k + 1)
  }

  /** A way down from `current` through dicts to a dict where every segment has been matched,
      in order, each by the key of the item taken for it, any other item taken being a level
      skipped; `v` is the value extracted at the end. */
  predicate PathTo(current: Value, parts: seq<string>, mode: MatchMode, v: Value)
    decreases current, 1
  {
    IsDict(current)
    && if parts == [] then v == TryGetValue(current)
       else exists k :: 0 <= k < |current.members| && StepTo(current, k, parts, mode, v)
  }

  /** Item `k` of `current` continues a way down: it matches the segment and the rest follows
      from it, or the whole path follows from it. */
  predicate StepTo(current: Value, k: nat, parts: seq<string>, mode: MatchMode, v: Value)
    requires current.Rec? && k < |current.members| && parts != []
    decreases current, 0
  {
    (MatchesName(current.members[k].0, parts[0], mode) && PathTo(current.members[k].1, parts[1..], mode, v))
    || PathTo(current.members[k].1, parts, mode, v)
  }

  /** Whatever the path search returns lies at the end of a way down. */
  lemma {:induction false} TryMatchPathSound(current: Value, parts: seq<string>, mode: MatchMode)
    ensures TryMatchPath(current, parts, mode).Found? ==>
              PathTo(current, parts, mode, TryMatchPath(current, parts, mode).value)
    decreases current, 1
  {
    if IsDict(current) && parts != [] {
      TryMatchPathFromSound(current, parts, mode, 0);
    }
  }

  lemma {:induction false} TryMatchPathFromSound(current: Value, parts: seq<string>, mode: MatchMode, k: nat)
    requires IsDict(current) && parts != [] && k <= |current.members|
    ensures var r := TryMatchPathFrom(current, parts, mode, k);
      r.Found? ==> exists j :: k <= j < |current.members| && StepTo(current, j, parts, mode, r.value)
    decreases current, 0, |current.members| - k
  {
    if k < |current.members| {
      var item := current.members[k].1;
      var r := TryMatchPathFrom(current, parts, mode, k);
      if MatchesName(current.members[k].0, parts[0], mode) && TryMatchPath(item, parts[1..], mode).Found? {
        TryMatchPathSound(item, parts[1..], mode);
        assert StepTo(current, k, parts, mode, r.value);
      } else if IsDict(item) && TryMatchPath(item, parts, mode).Found? {
        TryMatchPathSound(item, parts, mode);
        assert StepTo(current, k, parts, mode, r.value);
      } else {
        TryMatchPathFromSound(current, parts, mode, k + 1);
      }
    }
  }

  /** Whenever a way down exists the path search finds something (the first way in item
      order, which may end elsewhere). */
  lemma {:induction false} TryMatchPathComplete(current: Value, parts: seq<string>, mode: MatchMode, v: Value)
    requires PathTo(current, parts, mode, v)
    ensures TryMatchPath(current, parts, mode).Found?
    decreases current, 1
  {
    if parts != [] {
      var k :| 0 <= k < |current.members| && StepTo(current, k, parts, mode, v);
      TryMatchPathFromComplete(current, parts, mode, 0, k, v);
    }
  }

  lemma {:induction false} TryMatchPathFromComplete(current: Value, parts: seq<string>, mode: MatchMode, j: nat, k: nat, v: Value)
    requires IsDict(current) && parts != [] && j <= k < |current.members|
    requires StepTo(current, k, parts, mode, v)
    ensures TryMatchPathFrom(current, parts, mode, j).Found?
    decreases current, 0, k - j
  {
    var item := current.members[j].1;
    var consumed := if MatchesName(current.members[j].0, parts[0], mode) then TryMatchPath(item, parts[1..], mode)
                    else PropertyRules.NotFound;
    var skipped := if IsDict(item) then TryMatchPath(item, parts, mode) else PropertyRules.NotFound;
    if j == k {
      if MatchesName(current.members[k].0, parts[0], mode) && PathTo(item, parts[1..], mode, v) {
        TryMatchPathComplete(item, parts[1..], mode, v);
      } else {
        TryMatchPathComplete(item, parts, mode, v);
      }
    } else if !consumed.Found? && !skipped.Found? {
      TryMatchPathFromComplete(current, parts, mode, j + 1, k, v);
    }
  }

  // ===========================================================================
  // Search for one name anywhere below

  /** Whether `recursive_search` looks at member `k`: every dict item, and every `Base`
      member whose name does not start with "_". */
  predicate Searched(data: Value, k: nat)
    requires data.Rec? && k < |data.members|
  {
    PropertyRules.IsSearchedMember(data.isDict, data.members[k].0)
  }

  predicate NameHit(data: Value, k: nat, target: string, mode: MatchMode)
    requires data.Rec? && k < |data.members|
  {
    Searched(data, k) && MatchesName(data.members[k].0, target, mode)
  }

  /** The first searched member at or after `k` whose name matches the target. */
  function FirstNameHit(data: Value, target: string, mode: MatchMode, k: nat): (r: Option<nat>)
    requires data.Rec? && k <= |data.members|
    ensures r.Some? ==> k <= r.value < |data.members| && NameHit(data, r.value, target, mode)
                        && forall j :: k <= j < r.value ==> !NameHit(data, j, target, mode)
    ensures r.Nothing? ==> forall j :: k <= j < |data.members| ==> !NameHit(data, j, target, mode)
    decreases |data.members| - k
  {
    if k == |data.members| then Nothing
    else if NameHit(data, k, target, mode) then Some(k)
    else FirstNameHit(data, target, mode, k + 1)
  }

  /** `recursive_search`: the value of the first matching member of this level, otherwise the
      first hit below, trying the dict and `Base` members in order. */
  function RecursiveSearch(data: Value, target: string, mode: MatchMode): Lookup
    decreases data, 1
  {
    if !data.Rec? then PropertyRules.NotFound
    else match FirstNameHit(data, target, mode, 0)
      case Some(k) => PropertyRules.Found(TryGetValue(data.members[k].1))
      case Nothing => SearchBelow(data, target, mode, 0)
  }

  /** The second loop of `recursive_search`, from member `k` on. */
  function SearchBelow(data: Value, target: string, mode: MatchMode, k: nat): Lookup
    requires data.Rec? && k <= |data.members|
    decreases data, 0, |data.members| - k
  {
    if k == |data.members| then PropertyRules.NotFound
    else
      var sub := if Searched(data, k) && data.members[k].1.Rec? then RecursiveSearch(data.members[k].1, target, mode)
                 else PropertyRules.NotFound;
      if sub.Found? then sub else SearchBelow(data, target, mode, k + 1)
  }

  /** Some container at or below `data`, reached through searched members, has a searched
      member whose name matches, and `v` is that member's extracted value. */
  predicate Yields(data: Value, target: string, mode: MatchMode, v: Value)
    decreases data, 1
  {
    data.Rec?
    && exists k :: 0 <= k < |data.members| && YieldsAt(data, k, target, mode, v)
  }

  predicate YieldsAt(data: Value, k: nat, target: string, mode: MatchMode, v: Value)
    requires data.Rec? && k < |data.members|
    decreases data, 0
  {
    Searched(data, k)
    && ((MatchesName(data.members[k].0, target, mode) && v == TryGetValue(data.members[k].1))
        || Yields(data.members[k].1, target, mode, v))
  }

  /** A match on a level wins over any match below it: the first matching member of the
      level gives the result. */
  lemma LevelBeforeDescent(data: Value, target: string, mode: MatchMode, k: nat)
    requires data.Rec? && k < |data.members| && NameHit(data, k, target, mode)
    requires forall j :: 0 <= j < k ==> !NameHit(data, j, target, mode)
    ensures RecursiveSearch(data, target, mode) == PropertyRules.Found(TryGetValue(data.members[k].1))
  {
    var r := FirstNameHit(data, target, mode, 0);
    assert r.Some? && r.value == k;
  }

  /** Whatever the search returns is the value of a matching member somewhere below. */
  lemma {:induction false} RecursiveSearchSound(data: Value, target: string, mode: MatchMode)
    ensures var r := RecursiveSearch(data, target, mode);
      r.Found? ==> Yields(data, target, mode, r.value)
    decreases data, 1
  {
    if data.Rec? {
      var r := RecursiveSearch(data, target, mode);
      match FirstNameHit(data, target, mode, 0)
      case Some(k) =>
        assert YieldsAt(data, k, target, mode, r.value);
      case Nothing =>
        SearchBelowSound(data, target, mode, 0);
    }
  }

  lemma {:induction false} SearchBelowSound(data: Value, target: string, mode: MatchMode, k: nat)
    requires data.Rec? && k <= |data.members|
    ensures var r := SearchBelow(data, target, mode, k);
      r.Found? ==> exists j :: k <= j < |data.members| && YieldsAt(data, j, target, mode, r.value)
    decreases data, 0, |data.members| - k
  {
    if k < |data.members| {
      var r := SearchBelow(data, target, mode, k);
      var child := data.members[k].1;
      if Searched(data, k) && child.Rec? && RecursiveSearch(child, target, mode).Found? {
        RecursiveSearchSound(child, target, mode);
        assert YieldsAt(data, k, target, mode, r.value);
      } else {
        SearchBelowSound(data, target, mode, k + 1);
      }
    }
  }

  /** Whenever a matching member exists somewhere below, the search finds something. */
  lemma {:induction false} RecursiveSearchComplete(data: Value, target: string, mode: MatchMode, v: Value)
    requires Yields(data, target, mode, v)
    ensures RecursiveSearch(data, target, mode).Found?
    decreases data, 1
  {
    var k :| 0 <= k < |data.members| && YieldsAt(data, k, target, mode, v);
    if FirstNameHit(data, target, mode, 0).Nothing? {
      assert !NameHit(data, k, target, mode);
      SearchBelowComplete(data, target, mode, 0, k, v);
    }
  }

  lemma {:induction false} SearchBelowComplete(data: Value, target: string, mode: MatchMode, j: nat, k: nat, v: Value)
    requires data.Rec? && j <= k < |data.members|
    requires Searched(data, k) && Yields(data.members[k].1, target, mode, v)
    ensures SearchBelow(data, target, mode, j).Found?
    decreases data, 0, k - j
  {
    var child := data.members[j].1;
    if j == k {
      RecursiveSearchComplete(child, target, mode, v);
    } else if !(Searched(data, j) && child.Rec? && RecursiveSearch(child, target, mode).Found?) {
      SearchBelowComplete(data, target, mode, j + 1, k, v);
    }
  }

  // ===========================================================================
  // Parameter search and lookup

  /** The segment `search_name.split(".")[-1]`. */
  function LastSegment(name: string): string {
    var parts := Split(name, '.');
    parts[|parts| - 1]
  }

  /** `search_parameters`: a dotted name is first followed as a path; when that finds nothing,
      or the name has no dot, its last segment is searched for anywhere. */
  function SearchParameters(params: Value, name: string, mode: MatchMode): (r: Lookup)
    ensures r.NotFound? ==> RecursiveSearch(params, LastSegment(name), mode).NotFound?
    ensures '.' in name && TryMatchPath(params, Split(name, '.'), mode).Found? ==> r == TryMatchPath(params, Split(name, '.'), mode)
  {
    if '.' in name then
      var path := TryMatchPath(params, Split(name, '.'), mode);
      if path.Found? then path else RecursiveSearch(params, LastSegment(name), mode)
    else
      assert Split(name, '.') == [name];
      RecursiveSearch(params, name, mode)
  }

  /** What the parameter search finds: a value at the end of a way down along the segments
      of a dotted name, or the value of a member named like the last segment anywhere below;
      and it finds something exactly when one of the two exists. A way down, when there is
      one, takes precedence. */
  lemma SearchParametersMeaning(params: Value, name: string, mode: MatchMode)
    ensures var r := SearchParameters(params, name, mode);
      var parts := Split(name, '.');
      (r.Found? ==> ('.' in name && PathTo(params, parts, mode, r.value)) || Yields(params, LastSegment(name), mode, r.value))
      && (('.' in name && exists v :: PathTo(params, parts, mode, v)) ==> r.Found? && PathTo(params, parts, mode, r.value))
      && ((exists v :: Yields(params, LastSegment(name), mode, v)) ==> r.Found?)
  {
    var parts := Split(name, '.');
    if '.' !in name {
      assert parts == [name];
    }
    TryMatchPathSound(params, parts, mode);
    RecursiveSearchSound(params, LastSegment(name), mode);
    if '.' in name && exists v :: PathTo(params, parts, mode, v) {
      var v :| PathTo(params, parts, mode, v);
      TryMatchPathComplete(params, parts, mode, v);
    }
    if exists v :: Yields(params, LastSegment(name), mode, v) {
      var v :| Yields(params, LastSegment(name), mode, v);
      RecursiveSearchComplete(params, LastSegment(name), mode, v);
    }
  }

  /** `is_v3`: the object has a truthy `properties` holding `Parameters`. */
  predicate IsV3(obj: Value)
    ensures IsV3(obj) ==> HasItem(obj, "properties")
  {
    var properties := GetItem(obj, "properties");
    PyTruthy(properties) && HasItem(properties, "Parameters")
  }

  /** The parameter tree a lookup searches: `properties.Parameters` for a v3 object,
      `parameters` otherwise. */
  function ParameterTree(obj: Value): Value {
    if IsV3(obj) then GetItem(GetItem(obj, "properties"), "Parameters") else GetItem(obj, "parameters")
  }

  /** `lookup_parameter` */
  function LookupParameter(obj: Value, name: string, mode: MatchMode): (r: Lookup)
    ensures HasItem(obj, name) ==> r.Found?
    ensures !HasItem(obj, name) && !PyTruthy(ParameterTree(obj)) ==> r.NotFound?
  {
    if HasItem(obj, name) then
      var value := GetItem(obj, name);
      if IsDict(value) && HasItem(value, "value") then PropertyRules.Found(GetItem(value, "value"))
      else PropertyRules.Found(value)
    else if IsV3(obj) then
      var properties := GetItem(obj, "properties");
      if !PyTruthy(properties) || !HasItem(properties, "Parameters") then PropertyRules.NotFound
      else
        var parameters := GetItem(properties, "Parameters");
        if !PyTruthy(parameters) then PropertyRules.NotFound else SearchParameters(parameters, name, mode)
    else
      var parameters := GetItem(obj, "parameters");
      if !PyTruthy(parameters) then PropertyRules.NotFound else SearchParameters(parameters, name, mode)
  }

  /** A direct member comes first, unwrapped when it is a dict with a `value`; otherwise the
      v3 tree is searched when the object has one, and only then the v2 tree, and a falsy tree
      finds nothing. So the lookup finds something exactly when the name is a member, or the
      tree holds a way down or a member named like the last segment. */
  lemma LookupParameterMeaning(obj: Value, name: string, mode: MatchMode)
    ensures var r := LookupParameter(obj, name, mode);
      var direct := GetItem(obj, name);
      (HasItem(obj, name) ==>
         r == PropertyRules.Found(if IsDict(direct) && HasItem(direct, "value") then GetItem(direct, "value") else direct))
      && (!HasItem(obj, name) ==>
            r == if PyTruthy(ParameterTree(obj)) then SearchParameters(ParameterTree(obj), name, mode) else PropertyRules.NotFound)
      && (r.Found? <==>
            HasItem(obj, name)
            || (PyTruthy(ParameterTree(obj))
                && (('.' in name && exists v :: PathTo(ParameterTree(obj), Split(name, '.'), mode, v))
                    || exists v :: Yields(ParameterTree(obj), LastSegment(name), mode, v))))
  {
    var tree := ParameterTree(obj);
    SearchParametersMeaning(tree, name, mode);
    var r := SearchParameters(tree, name, mode);
    if r.Found? {
      if '.' in name && PathTo(tree, Split(name, '.'), mode, r.value) {
        assert exists v :: PathTo(tree, Split(name, '.'), mode, v);
      } else {
        assert Yields(tree, LastSegment(name), mode, r.value);
      }
    }
  }

  // ===========================================================================
  // Predicates

  /** `get_parameter_value` with its defaults: MIXED matching and `None` when not found. */
  function GetParameterValue(obj: Value, name: string): Value {
    match LookupParameter(obj, name, Mixed)
    case Found(v) => v
    case NotFound => Null
  }

  /** `has_parameter` */
  predicate HasParameter(obj: Value, name: string) {
    LookupParameter(obj, name, Mixed).Found?
  }

  /** `type(v)` as an f-string shows it, for the values that are not numbers. */
  function TypeText(v: Value): string {
    match v
    case Str(_) => "<class 'str'>"
    case List(_) => "<class 'list'>"
    case Rec(_, isDict, _) => if isDict then "<class 'dict'>" else "<class 'specklepy.objects.base.Base'>"
    case _ => "<class 'NoneType'>"
  }

  /** The `isinstance(parameter_value, int | float)` guard: a number, or ValueError. */
  function RequireNumber(v: Value): (r: Result<Num>)
    ensures r.Ok? <==> IsNumeric(v)
    ensures r.Err? ==> r.error == ValueError("Parameter value must be a number, got " + TypeText(v))
  {
    if IsNumeric(v) then Ok(NumOf(v)) else Err(ValueError("Parameter value must be a number, got " + TypeText(v)))
  }

  /** Python's `<=` on floats: false whenever either side is NaN. */
  predicate AtMost(a: Num, b: Num) {
    a.Finite? && b.Finite? && a.x <= b.x
  }

  /** `is_parameter_value`: plain `==` between the value (or `None`) and the target. */
  predicate IsParameterValue(obj: Value, name: string, target: Value) {
    PyEq(GetParameterValue(obj, name), target)
  }

  /** `is_parameter_value_like` over the legacy lookup. */
  function IsParameterValueLike(obj: Value, name: string, pattern: Value, fuzzy: bool, threshold: real,
                                m: PropertyRules.Matchers): (r: Result<bool>)
    ensures !HasParameter(obj, name) ==> r == Ok(false)
    ensures GetParameterValue(obj, name) != Null ==>
              (r.Err? <==> !pattern.Str? || (!fuzzy && !m.validPattern(pattern.s)))
    ensures r.Err? && pattern.Str? ==> r.error.RegexError?
  {
    var v := GetParameterValue(obj, name);
    if v.Null? then Ok(false)
    else if !pattern.Str? then Err(TypeError("expected string pattern"))
    else if fuzzy then Ok(m.ratio(PyStr(v), pattern.s) >= threshold)
    else if !m.validPattern(pattern.s) then Err(RegexError("invalid regular expression"))
    else Ok(m.regexMatch(pattern.s, PyStr(v)))
  }

  /** `is_parameter_value_greater_than`: false for a missing value, ValueError for one that is
      not a number, then the threshold is parsed (which may raise) and compared strictly. */
  function IsParameterValueGreaterThan(obj: Value, name: string, threshold: Value): (r: Result<bool>)
    ensures r == Ok(true) ==> IsNumeric(GetParameterValue(obj, name))
    ensures var v := GetParameterValue(obj, name);
            IsNumeric(v) && PropertyRules.ParseNumberFromString(threshold).Ok? ==>
              r == Ok(PropertyRules.Greater(NumOf(v), PropertyRules.ParseNumberFromString(threshold).value))
  {
    var v := GetParameterValue(obj, name);
    if v.Null? then Ok(false)
    else
      var x :- RequireNumber(v);
      var t :- PropertyRules.ParseNumberFromString(threshold);
      Ok(PropertyRules.Greater(x, t))
  }

  /** `is_parameter_value_less_than` */
  function IsParameterValueLessThan(obj: Value, name: string, threshold: Value): (r: Result<bool>)
    ensures r == Ok(true) ==> IsNumeric(GetParameterValue(obj, name))
    ensures var v := GetParameterValue(obj, name);
            IsNumeric(v) && PropertyRules.ParseNumberFromString(threshold).Ok? ==>
              r == Ok(PropertyRules.Less(NumOf(v), PropertyRules.ParseNumberFromString(threshold).value))
  {
    var v := GetParameterValue(obj, name);
    if v.Null? then Ok(false)
    else
      var x :- RequireNumber(v);
      var t :- PropertyRules.ParseNumberFromString(threshold);
      Ok(PropertyRules.Less(x, t))
  }

  /** `is_parameter_value_in_range`: the "min,max" text is split and parsed first, then the
      value is looked up and compared inclusively. */
  function IsParameterValueInRange(obj: Value, name: string, range: Value): (r: Result<bool>)
    ensures r == Ok(true) ==> IsNumeric(GetParameterValue(obj, name))
    ensures var v := GetParameterValue(obj, name);
            IsNumeric(v) && PropertyRules.RangeBounds(range).Ok? ==>
              var (lo, hi) := PropertyRules.RangeBounds(range).value;
              r == Ok(AtMost(lo, NumOf(v)) && AtMost(NumOf(v), hi))
  {
    var (lo, hi) :- PropertyRules.RangeBounds(range);
    var v := GetParameterValue(obj, name);
    if v.Null? then Ok(false)
    else
      var x :- RequireNumber(v);
      Ok(AtMost(lo, x) && AtMost(x, hi))
  }

  /** `is_parameter_value_in_range_expanded`: numeric bounds, inclusive or strict on both ends. */
  function IsParameterValueInRangeExpanded(obj: Value, name: string, lo: Num, hi: Num, inclusive: bool): (r: Result<bool>)
    ensures r == Ok(true) ==> IsNumeric(GetParameterValue(obj, name))
    ensures var v := GetParameterValue(obj, name);
            IsNumeric(v) && inclusive ==> r == Ok(AtMost(lo, NumOf(v)) && AtMost(NumOf(v), hi))
    ensures var v := GetParameterValue(obj, name);
            IsNumeric(v) && !inclusive ==> r == Ok(PropertyRules.Less(lo, NumOf(v)) && PropertyRules.Less(NumOf(v), hi))
  {
    var v := GetParameterValue(obj, name);
    if v.Null? then Ok(false)
    else
      var x :- RequireNumber(v);
      Ok(if inclusive then AtMost(lo, x) && AtMost(x, hi) else PropertyRules.Less(lo, x) && PropertyRules.Less(x, hi))
  }

  /** A value that is present but not a number makes every numeric predicate raise ValueError
      (the range one once its bounds parse); a missing value makes each of them false. */
  lemma NumericPredicatesRaise(obj: Value, name: string, threshold: Value, range: Value, lo: Num, hi: Num, inclusive: bool)
    ensures var v := GetParameterValue(obj, name);
      var e := ValueError("Parameter value must be a number, got " + TypeText(v));
      (!v.Null? && !IsNumeric(v) ==>
         IsParameterValueGreaterThan(obj, name, threshold) == Err(e)
         && IsParameterValueLessThan(obj, name, threshold) == Err(e)
         && IsParameterValueInRangeExpanded(obj, name, lo, hi, inclusive) == Err(e)
         && (PropertyRules.RangeBounds(range).Ok? ==> IsParameterValueInRange(obj, name, range) == Err(e)))
      && (v.Null? ==>
            IsParameterValueGreaterThan(obj, name, threshold) == Ok(false)
            && IsParameterValueLessThan(obj, name, threshold) == Ok(false)
            && IsParameterValueInRangeExpanded(obj, name, lo, hi, inclusive) == Ok(false)
            && (PropertyRules.RangeBounds(range).Ok? ==> IsParameterValueInRange(obj, name, range) == Ok(false)))
  {
  }

  /** The strict range excludes both bounds: it holds only where the inclusive one holds, and
      never at a bound. The text range is the inclusive range over its parsed bounds. */
  lemma RangeExpandedStrict(obj: Value, name: string, lo: Num, hi: Num, range: Value)
    ensures IsParameterValueInRangeExpanded(obj, name, lo, hi, false) == Ok(true) ==>
              IsParameterValueInRangeExpanded(obj, name, lo, hi, true) == Ok(true)
    ensures var v := GetParameterValue(obj, name);
      IsNumeric(v) && (NumOf(v) == lo || NumOf(v) == hi) ==>
        IsParameterValueInRangeExpanded(obj, name, lo, hi, false) == Ok(false)
    ensures PropertyRules.RangeBounds(range) == Ok((lo, hi)) ==>
              IsParameterValueInRange(obj, name, range) == IsParameterValueInRangeExpanded(obj, name, lo, hi, true)
  {
  }

  /** No value is both above and below one threshold. */
  lemma GreaterLessExclusive(obj: Value, name: string, threshold: Value)
    ensures !(IsParameterValueGreaterThan(obj, name, threshold) == Ok(true)
              && IsParameterValueLessThan(obj, name, threshold) == Ok(true))
  {
  }

  /** The items of a list argument: text becomes its comma-separated pieces, each stripped,
      blank ones included. */
  function ListItems(valueList: Value): (r: Value)
    ensures valueList.Str? ==> r.List? && |r.items| == |Split(valueList.s, ',')|
                               && forall k :: 0 <= k < |r.items| ==> r.items[k] == Str(Strip(Split(valueList.s, ',')[k]))
    ensures !valueList.Str? ==> r == valueList
  {
    if valueList.Str? then
      var pieces := Split(valueList.s, ',');
      List(seq(|pieces|, k requires 0 <= k < |pieces| => Str(Strip(pieces[k]))))
    else valueList
  }

  /** `is_parameter_value_in_list`: the value, or its `str()` form, is among the items; an
      argument that is neither text nor a list matches nothing. A missing value is `None`. */
  predicate IsParameterValueInList(obj: Value, name: string, valueList: Value)
    ensures IsParameterValueInList(obj, name, valueList) ==> valueList.Str? || valueList.List?
  {
    var v := GetParameterValue(obj, name);
    var items := ListItems(valueList);
    items.List? && (PropertyRules.InSeq(v, items.items) || PropertyRules.InSeq(Str(PyStr(v)), items.items))
  }

  /** A value whose text is one of the pieces between commas, up to surrounding blanks, is in
      the list, even when that text is empty: blank pieces are kept. */
  lemma InListKeepsBlankItems(obj: Value, name: string, valueList: Value, k: nat)
    ensures !valueList.Str? && !valueList.List? ==> !IsParameterValueInList(obj, name, valueList)
    ensures valueList.Str? && k < |Split(valueList.s, ',')|
            && Strip(Split(valueList.s, ',')[k]) == PyStr(GetParameterValue(obj, name))
            ==> IsParameterValueInList(obj, name, valueList)
  {
    if valueList.Str? && k < |Split(valueList.s, ',')| {
      var items := ListItems(valueList).items;
      var t := PyStr(GetParameterValue(obj, name));
      if Strip(Split(valueList.s, ',')[k]) == t {
        assert PyEq(Str(t), items[k]);
      }
    }
  }

  /** `is_parameter_value_true` */
  predicate IsParameterValueTrue(obj: Value, name: string)
    ensures IsParameterValueTrue(obj, name) ==> GetParameterValue(obj, name).Bool? || GetParameterValue(obj, name).Str?
  {
    PropertyRules.CheckBooleanValue(GetParameterValue(obj, name), PropertyRules.TrueWords)
  }

  /** `is_parameter_value_false` */
  predicate IsParameterValueFalse(obj: Value, name: string)
    ensures IsParameterValueFalse(obj, name) ==> GetParameterValue(obj, name).Bool? || GetParameterValue(obj, name).Str?
  {
    PropertyRules.CheckBooleanValue(GetParameterValue(obj, name), PropertyRules.FalseWords)
  }

  /** No value is both true and false, and a boolean is exactly one of them. */
  lemma TrueFalseExclusive(obj: Value, name: string)
    ensures !(IsParameterValueTrue(obj, name) && IsParameterValueFalse(obj, name))
    ensures var v := GetParameterValue(obj, name);
      v.Bool? ==> (IsParameterValueTrue(obj, name) <==> v.b) && (IsParameterValueFalse(obj, name) <==> !v.b)
  {
    assert "true" in PropertyRules.TrueWords && "true" !in PropertyRules.FalseWords;
  }

  /** `has_category` */
  predicate HasCategory(obj: Value) {
    HasParameter(obj, "category")
  }

  /** `get_category_value`: the category, or `None` when there is none. */
  function GetCategoryValue(obj: Value): (r: Value)
    ensures !HasCategory(obj) ==> r == Null
  {
    GetParameterValue(obj, "category")
  }

  /** `is_category` */
  predicate IsCategory(obj: Value, category: Value) {
    PyEq(GetCategoryValue(obj), category)
  }
}
