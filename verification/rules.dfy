/** `PropertyRules`: locating a property in a Speckle object tree, extracting and coercing its
    value, comparing values, and the predicates the rule table names. */
module PropertyRules {
  import opened Text
  import opened PyValues

  /** The outcome of a property lookup: `(True, value)` or `(False, None)`. */
  datatype Lookup = Found(value: Value) | NotFound

  // ===========================================================================
  // Paths

  /** A path segment naming a container level rather than a property. */
  predicate IsTechnicalSegment(p: string) {
    Lower(p) == "properties" || Lower(p) == "parameters"
  }

  /** The segments that are not technical, in order. */
  function KeepMeaningful(parts: seq<string>): (r: seq<string>)
    ensures |r| <= |parts|
  {
    if parts == [] then []
    else (if IsTechnicalSegment(parts[0]) then [] else [parts[0]]) + KeepMeaningful(parts[1..])
  }

  /** `normalize_path`: drops the "properties" and "parameters" segments of a dotted path. */
  function NormalizePath(path: string): string {
    Join(KeepMeaningful(Split(path, '.')), '.')
  }

  /** The segments `find_property` follows for a search path. */
  function PathParts(path: string): seq<string> {
    Split(NormalizePath(path), '.')
  }

  /** Exactly the non-technical segments are kept. */
  lemma {:induction false} KeepMeaningfulMembers(parts: seq<string>)
    ensures forall p :: p in KeepMeaningful(parts) <==> p in parts && !IsTechnicalSegment(p)
    decreases |parts|
  {
    if parts != [] {
      KeepMeaningfulMembers(parts[1..]);
      assert parts == [parts[0]] + parts[1..];
    }
  }

  lemma {:induction false} KeepMeaningfulAppend(a: seq<string>, b: seq<string>)
    ensures KeepMeaningful(a + b) == KeepMeaningful(a) + KeepMeaningful(b)
    decreases |a|
  {
    if a == [] {
      assert a + b == b;
    } else {
      assert (a + b)[1..] == a[1..] + b;
      KeepMeaningfulAppend(a[1..], b);
    }
  }

  lemma {:induction false} KeepMeaningfulIdempotent(parts: seq<string>)
    ensures KeepMeaningful(KeepMeaningful(parts)) == KeepMeaningful(parts)
    decreases |parts|
  {
    if parts != [] {
      KeepMeaningfulIdempotent(parts[1..]);
      var head := if IsTechnicalSegment(parts[0]) then [] else [parts[0]];
      KeepMeaningfulAppend(head, KeepMeaningful(parts[1..]));
    }
  }

  /** The segments of a normalized path are exactly the meaningful segments of the original,
      in order; a path made only of technical segments normalizes to "". */
  lemma NormalizePathSegments(path: string)
    ensures var kept := KeepMeaningful(Split(path, '.'));
            PathParts(path) == (if kept == [] then [""] else kept)
  {
    var kept := KeepMeaningful(Split(path, '.'));
    SplitPiecesHaveNoSep(path, '.');
    KeepMeaningfulMembers(Split(path, '.'));
    if kept != [] {
      SplitJoin(kept, '.');
    }
  }

  /** Normalizing twice is normalizing once. */
  lemma NormalizePathIdempotent(path: string)
    ensures NormalizePath(NormalizePath(path)) == NormalizePath(path)
  {
    var kept := KeepMeaningful(Split(path, '.'));
    NormalizePathSegments(path);
    if kept == [] {
      assert !IsTechnicalSegment("");
      assert KeepMeaningful([""]) == [""];
    } else {
      KeepMeaningfulIdempotent(Split(path, '.'));
    }
  }

  /** A leading technical segment does not change the normalized path. */
  lemma NormalizeDropsTechnicalPrefix(t: string, path: string)
    requires IsTechnicalSegment(t) && '.' !in t
    ensures NormalizePath(t + "." + path) == NormalizePath(path)
  {
    var rest := Split(path, '.');
    SplitCons(t, '.', path);
    assert t + "." + path == t + ['.'] + path;
    assert Split(t + "." + path, '.') == [t] + rest;
    KeepMeaningfulAppend([t], rest);
    assert KeepMeaningful([t]) == [] by {
      assert [t][1..] == [];
    }
    assert KeepMeaningful([t] + rest) == KeepMeaningful(rest);
  }

  lemma PropertiesIsTechnical()
    ensures IsTechnicalSegment("properties")
  {
    LowerOfLetters("properties", "properties");
  }

  lemma ParametersIsTechnical()
    ensures IsTechnicalSegment("Parameters")
  {
    LowerOfLetters("Parameters", "parameters");
  }

  /** A word whose letters lower to those of another word lowers to that word. */
  lemma LowerOfLetters(w: string, l: string)
    requires |w| == |l| && forall i :: 0 <= i < |w| ==> LowerChar(w[i]) == l[i]
    ensures Lower(w) == l
  {
  }

  lemma NoDotInTechnicalWords()
    ensures '.' !in "properties" && '.' !in "Parameters"
  {
  }

  lemma DropTwoTechnicalPrefixes(a: string, b: string, path: string)
    requires IsTechnicalSegment(a) && '.' !in a && IsTechnicalSegment(b) && '.' !in b
    ensures NormalizePath(a + "." + b + "." + path) == NormalizePath(path)
  {
    assert a + "." + b + "." + path == a + "." + (b + "." + path);
    NormalizeDropsTechnicalPrefix(a, b + "." + path);
    NormalizeDropsTechnicalPrefix(b, path);
  }

  /** "properties.Parameters.X" and "X" name the same property. */
  lemma NormalizeV3Prefix(path: string)
    ensures NormalizePath("properties" + "." + "Parameters" + "." + path) == NormalizePath(path)
  {
    PropertiesIsTechnical();
    ParametersIsTechnical();
    NoDotInTechnicalWords();
    DropTwoTechnicalPrefixes("properties", "Parameters", path);
  }

  // ===========================================================================
  // Value extraction

  /** `convert_revit_boolean`: "yes"/"no" in any letter case become `True`/`False`. */
  function ConvertRevitBoolean(v: Value): (r: Value)
    ensures v.Str? && Lower(v.s) == "yes" ==> r == Bool(true)
    ensures v.Str? && Lower(v.s) == "no" ==> r == Bool(false)
    ensures !(v.Str? && (Lower(v.s) == "yes" || Lower(v.s) == "no")) ==> r == v
  {
    match v
    case Str(s) =>
      if Lower(s) == "yes" then Bool(true)
      else if Lower(s) == "no" then Bool(false)
      else v
    case _ => v
  }

  /** Converting twice is converting once. */
  lemma ConvertRevitBooleanIdempotent(v: Value)
    ensures ConvertRevitBoolean(ConvertRevitBoolean(v)) == ConvertRevitBoolean(v)
  {
  }

  predicate IsPrimitive(v: Value) {
    !v.List? && !v.Rec?
  }

  /** `get_obj_value`: the raw object, or the Yes/No-converted primitive, or the converted
      `value` member of a dict or `Base`, or the object itself. */
  function GetObjValue(obj: Value, raw: bool): (r: Value)
    ensures raw ==> r == obj
    ensures !raw && IsPrimitive(obj) ==> r == ConvertRevitBoolean(obj)
    ensures !raw && obj.Rec? && Get(obj.members, "value").Some? ==>
              r == ConvertRevitBoolean(Get(obj.members, "value").value)
    ensures !raw && obj.Rec? && Get(obj.members, "value").Nothing? ==> r == obj
    ensures !raw && obj.List? ==> r == obj
  {
    if raw then obj
    else if IsPrimitive(obj) then ConvertRevitBoolean(obj)
    else if obj.Rec? then
      var inner := Get(obj.members, "value");
      if inner.Some? then ConvertRevitBoolean(inner.value) else obj
    else obj
  }

  /** Applies `get_obj_value` to a hit. */
  function Lift(l: Lookup, raw: bool): Lookup {
    match l
    case Found(h) => Found(GetObjValue(h, raw))
    case NotFound => NotFound
  }

  // ===========================================================================
  // Direct path search

  /** Whether two names are equal ignoring letter case. */
  predicate SameName(a: string, b: string) {
    Lower(a) == Lower(b)
  }

  /** The first member at or after `k` whose name matches `seg` ignoring case. */
  function FirstMatchFrom(members: seq<(string, Value)>, seg: string, k: nat): (r: Option<nat>)
    requires k <= |members|
    ensures r.Some? ==> k <= r.value < |members| && SameName(members[r.value].0, seg)
                        && forall j :: k <= j < r.value ==> !SameName(members[j].0, seg)
    ensures r.Nothing? ==> forall j :: k <= j < |members| ==> !SameName(members[j].0, seg)
    decreases |members| - k
  {
    if k == |members| then Nothing
    else if SameName(members[k].0, seg) then Some(k)
    else FirstMatchFrom(members, seg, k + 1)
  }

  /** `search_obj`: follows `parts` from `obj`, taking at each level the first member whose
      name matches the segment ignoring case, without trying later matches. */
  function SearchObj(obj: Value, parts: seq<string>): (r: Lookup)
    ensures parts == [] ==> r == Found(obj)
    ensures parts != [] && !obj.Rec? ==> r == NotFound
    decreases |parts|
  {
    if parts == [] then Found(obj)
    else if !obj.Rec? then NotFound
    else
      var m := FirstMatchFrom(obj.members, parts[0], 0);
      if m.Nothing? then NotFound
      else SearchObj(obj.members[m.value].1, parts[1..])
  }

  /** Continues a search from a hit. */
  function Then(l: Lookup, parts: seq<string>): Lookup {
    match l
    case Found(h) => SearchObj(h, parts)
    case NotFound => NotFound
  }

  /** Following `p + q` is following `p`, then `q` from where `p` ended. */
  lemma {:induction false} SearchObjCompose(obj: Value, p: seq<string>, q: seq<string>)
    ensures SearchObj(obj, p + q) == Then(SearchObj(obj, p), q)
    decreases |p|
  {
    if p == [] {
      assert p + q == q;
    } else if obj.Rec? {
      var m := FirstMatchFrom(obj.members, p[0], 0);
      assert (p + q)[0] == p[0] && (p + q)[1..] == p[1..] + q;
      if m.Some? {
        SearchObjCompose(obj.members[m.value].1, p[1..], q);
      }
    }
  }

  lemma FirstMatchSameName(members: seq<(string, Value)>, a: string, b: string, k: nat)
    requires k <= |members| && SameName(a, b)
    ensures FirstMatchFrom(members, a, k) == FirstMatchFrom(members, b, k)
    decreases |members| - k
  {
    if k < |members| {
      FirstMatchSameName(members, a, b, k + 1);
    }
  }

  /** The search ignores the letter case of every segment. */
  lemma {:induction false} SearchObjIgnoresCase(obj: Value, p: seq<string>, q: seq<string>)
    requires |p| == |q| && forall i :: 0 <= i < |p| ==> SameName(p[i], q[i])
    ensures SearchObj(obj, p) == SearchObj(obj, q)
    decreases |p|
  {
    if p != [] && obj.Rec? {
      FirstMatchSameName(obj.members, p[0], q[0], 0);
      var m := FirstMatchFrom(obj.members, p[0], 0);
      if m.Some? {
        SearchObjIgnoresCase(obj.members[m.value].1, p[1..], q[1..]);
      }
    }
  }

  /** A search that appends ".value" to a path ending at a record whose first
      "value"-named member is the exact key "value" yields what `get_obj_value` extracts
      from that record, up to the Yes/No conversion a primitive also receives. */
  lemma SearchValueSuffix(obj: Value, p: seq<string>)
    requires SearchObj(obj, p).Found?
    requires var h := SearchObj(obj, p).value;
             h.Rec? && exists k :: FirstMatchFrom(h.members, "value", 0) == Some(k) && h.members[k].0 == "value"
                                   && IsPrimitive(h.members[k].1)
    ensures SearchObj(obj, p + ["value"]).Found?
    ensures GetObjValue(SearchObj(obj, p + ["value"]).value, false) == GetObjValue(SearchObj(obj, p).value, false)
  {
    SearchObjCompose(obj, p, ["value"]);
    var h := SearchObj(obj, p).value;
    var k :| FirstMatchFrom(h.members, "value", 0) == Some(k) && h.members[k].0 == "value"
             && IsPrimitive(h.members[k].1);
    assert Get(h.members, "value") == Some(h.members[k].1) by {
      GetFirst(h.members, "value", k);
    }
  }

  /** Exact lookup returns the first member with the exact name. */
  lemma GetFirst(members: seq<(string, Value)>, key: string, k: nat)
    requires k < |members| && members[k].0 == key
    requires forall j :: 0 <= j < k ==> members[j].0 != key
    ensures Get(members, key) == Some(members[k].1)
    decreases k
  {
    if k > 0 {
      GetFirst(members[1..], key, k - 1);
    }
  }

  // ===========================================================================
  // Depth-first property search

  /** Whether `traverse` descends into the member named `key`: every dict item, and every
      `Base` member whose name does not start with "_". */
  predicate IsSearchedMember(isDict: bool, key: string) {
    isDict || !("_" <= key)
  }

  /** Whether member `k` of `obj` is a child `traverse` visits. */
  predicate IsChild(obj: Value, k: nat)
    requires obj.Rec? && k < |obj.members|
  {
    IsSearchedMember(obj.isDict, obj.members[k].0) && obj.members[k].1.Rec?
  }

  /** What `traverse(obj, visited)` finds, before value extraction: nothing for a non-container
      or an object already on the current path; a direct path match at `obj`; otherwise the
      first hit among the children in member order, with `obj` added to the path. */
  function Locate(obj: Value, parts: seq<string>, visited: set<nat>): Lookup
    decreases obj, 1
  {
    if !obj.Rec? || obj.id in visited then NotFound
    else
      var direct := SearchObj(obj, parts);
      if direct.Found? then direct else LocateIn(obj, parts, visited + {obj.id}, 0)
  }

  /** The first hit among the children of `obj` from member `k` on. */
  function LocateIn(obj: Value, parts: seq<string>, visited: set<nat>, k: nat): Lookup
    requires obj.Rec? && k <= |obj.members|
    decreases obj, 0, |obj.members| - k
  {
    if k == |obj.members| then NotFound
    else
      var sub := if IsChild(obj, k) then Locate(obj.members[k].1, parts, visited) else NotFound;
      if sub.Found? then sub else LocateIn(obj, parts, visited, k + 1)
  }

  /** `find_property`: normalize and split the path, search depth first from the root with an
      empty path set, and extract the value of the hit. */
  function FindProperty(root: Value, path: string, raw: bool): Lookup {
    Lift(Locate(root, PathParts(path), {}), raw)
  }

  /** `traverse` inside `find_property`: the recursive depth-first search. `visited` is the set
      of object identities on the current path; it is threaded through the calls as the
      source mutates it, and a search that fails leaves it as it found it. */
  method Traverse(obj: Value, parts: seq<string>, raw: bool, visited: set<nat>)
    returns (r: Lookup, visitedOut: set<nat>)
    ensures r == Lift(Locate(obj, parts, visited), raw)
    ensures r.NotFound? ==> visitedOut == visited
    decreases obj
  {
    if !obj.Rec? || obj.id in visited {
      return NotFound, visited;
    }
    visitedOut := visited + {obj.id};
    var direct := SearchObj(obj, parts);
    if direct.Found? {
      return Found(GetObjValue(direct.value, raw)), visitedOut;
    }
    var k := 0;
    while k < |obj.members|
      invariant 0 <= k <= |obj.members|
      invariant visitedOut == visited + {obj.id}
      invariant Locate(obj, parts, visited) == LocateIn(obj, parts, visited + {obj.id}, k)
    {
      if IsChild(obj, k) {
        var sub;
        sub, visitedOut := Traverse(obj.members[k].1, parts, raw, visitedOut);
        if sub.Found? {
          return sub, visitedOut;
        }
      }
      k := k + 1;
    }
    visitedOut := visitedOut - {obj.id};
    return NotFound, visitedOut;
  }

  /** A descent from `obj` to `n` through children `traverse` visits, by member index. */
  predicate DescendsTo(obj: Value, path: seq<nat>, n: Value)
    decreases |path|
  {
    if path == [] then n == obj
    else obj.Rec? && path[0] < |obj.members| && IsChild(obj, path[0])
         && DescendsTo(obj.members[path[0]].1, path[1..], n)
  }

  /** No object on the descent is in `visited` and none repeats. */
  predicate FreshAlong(obj: Value, path: seq<nat>, visited: set<nat>)
    decreases |path|
  {
    obj.Rec? && obj.id !in visited
    && (path != [] ==>
          path[0] < |obj.members| && FreshAlong(obj.members[path[0]].1, path[1..], visited + {obj.id}))
  }

  /** Every hit is a direct path match at an object reached by a cycle-free descent. */
  lemma {:induction false} LocateSound(obj: Value, parts: seq<string>, visited: set<nat>)
    requires Locate(obj, parts, visited).Found?
    ensures exists path: seq<nat>, n: Value ::
              DescendsTo(obj, path, n) && FreshAlong(obj, path, visited)
              && SearchObj(n, parts) == Locate(obj, parts, visited)
    decreases obj, 1
  {
    if SearchObj(obj, parts).Found? {
      assert DescendsTo(obj, [], obj) && FreshAlong(obj, [], visited);
    } else {
      LocateInSound(obj, parts, visited + {obj.id}, 0);
      var j :| 0 <= j < |obj.members| && IsChild(obj, j)
               && Locate(obj.members[j].1, parts, visited + {obj.id}) == Locate(obj, parts, visited);
      var child := obj.members[j].1;
      LocateSound(child, parts, visited + {obj.id});
      var path, n :| DescendsTo(child, path, n) && FreshAlong(child, path, visited + {obj.id})
                     && SearchObj(n, parts) == Locate(child, parts, visited + {obj.id});
      assert ([j] + path)[1..] == path;
      assert DescendsTo(obj, [j] + path, n) && FreshAlong(obj, [j] + path, visited);
    }
  }

  /** A hit among the children is the hit of the first child, in member order, that has one. */
  lemma {:induction false} LocateInSound(obj: Value, parts: seq<string>, visited: set<nat>, k: nat)
    requires obj.Rec? && k <= |obj.members|
    requires LocateIn(obj, parts, visited, k).Found?
    ensures exists j :: k <= j < |obj.members| && IsChild(obj, j)
              && Locate(obj.members[j].1, parts, visited) == LocateIn(obj, parts, visited, k)
              && forall i :: k <= i < j && IsChild(obj, i) ==> Locate(obj.members[i].1, parts, visited).NotFound?
    decreases |obj.members| - k
  {
    if !(IsChild(obj, k) && Locate(obj.members[k].1, parts, visited).Found?) {
      LocateInSound(obj, parts, visited, k + 1);
    }
  }

  /** Every object reached by a cycle-free descent and matching the path directly is found:
      objects visited on other branches do not block it. */
  lemma {:induction false} LocateComplete(obj: Value, parts: seq<string>, visited: set<nat>, path: seq<nat>, n: Value)
    requires DescendsTo(obj, path, n) && FreshAlong(obj, path, visited)
    requires SearchObj(n, parts).Found?
    ensures Locate(obj, parts, visited).Found?
    decreases |path|
  {
    if path != [] && SearchObj(obj, parts).NotFound? {
      var child := obj.members[path[0]].1;
      LocateComplete(child, parts, visited + {obj.id}, path[1..], n);
      LocateInReaches(obj, parts, visited + {obj.id}, 0, path[0]);
    }
  }

  lemma {:induction false} LocateInReaches(obj: Value, parts: seq<string>, visited: set<nat>, k: nat, j: nat)
    requires obj.Rec? && k <= j < |obj.members| && IsChild(obj, j)
    requires Locate(obj.members[j].1, parts, visited).Found?
    ensures LocateIn(obj, parts, visited, k).Found?
    decreases j - k
  {
    if k < j {
      LocateInReaches(obj, parts, visited, k + 1, j);
    }
  }

  /** A direct match at the root wins over anything deeper; a non-container root has nothing. */
  lemma FindPropertyAtRoot(root: Value, path: string, raw: bool)
    ensures !root.Rec? ==> FindProperty(root, path, raw) == NotFound
    ensures root.Rec? && SearchObj(root, PathParts(path)).Found? ==>
              FindProperty(root, path, raw) == Found(GetObjValue(SearchObj(root, PathParts(path)).value, raw))
  {
  }

  /** "properties.Parameters.X" finds what "X" finds. */
  lemma FindPropertyV3Prefix(root: Value, path: string, raw: bool)
    ensures FindProperty(root, "properties" + "." + "Parameters" + "." + path, raw) == FindProperty(root, path, raw)
  {
    NormalizeV3Prefix(path);
  }

  /** `has_parameter` */
  predicate HasParameter(obj: Value, name: string) {
    FindProperty(obj, name, false).Found?
  }

  /** `get_parameter_value`: the found value, or `default` when nothing is found. */
  function GetParameterValue(obj: Value, name: string, default: Value, raw: bool): (r: Value)
    ensures FindProperty(obj, name, raw) == NotFound ==> r == default
    ensures FindProperty(obj, name, raw).Found? ==> r == FindProperty(obj, name, raw).value
  {
    match FindProperty(obj, name, raw)
    case Found(v) => v
    case NotFound => default
  }

  /** The default is returned only when the property is missing or its value is the default. */
  lemma GetParameterValueDefault(obj: Value, name: string, default: Value, raw: bool)
    ensures GetParameterValue(obj, name, default, raw) != default ==> HasParameter(obj, name)
  {
    if !raw && FindProperty(obj, name, true).Found? {
      RawAndConvertedAgree(obj, name);
    }
    if raw && FindProperty(obj, name, true).NotFound? {
      RawAndConvertedAgree(obj, name);
    }
  }

  /** The raw and the converted lookups find the same hit; the converted one extracts from it. */
  lemma RawAndConvertedAgree(obj: Value, name: string)
    ensures FindProperty(obj, name, true).Found? == FindProperty(obj, name, false).Found?
    ensures FindProperty(obj, name, true).Found? ==>
              FindProperty(obj, name, false).value == GetObjValue(FindProperty(obj, name, true).value, false)
  {
  }

  // ===========================================================================
  // Value comparison

  /** `strict_convert_boolean` inside `try_boolean_comparison`: text reading "true"/"false"
      after strip and lower case becomes a boolean; other text goes through the Yes/No
      conversion when `allowYesNo`, unstripped. */
  function StrictConvertBoolean(v: Value, allowYesNo: bool): Value {
    match v
    case Str(s) =>
      if Lower(Strip(s)) == "true" then Bool(true)
      else if Lower(Strip(s)) == "false" then Bool(false)
      else if allowYesNo then ConvertRevitBoolean(v)
      else v
    case _ => v
  }

  /** `try_boolean_comparison`: whether both sides read as booleans, and if so whether they
      are the same boolean. */
  function TryBooleanComparison(a: Value, b: Value, allowYesNo: bool): (r: (bool, bool))
    ensures r.0 <==> StrictConvertBoolean(a, allowYesNo).Bool? && StrictConvertBoolean(b, allowYesNo).Bool?
    ensures r.1 <==> r.0 && StrictConvertBoolean(a, allowYesNo) == StrictConvertBoolean(b, allowYesNo)
  {
    var x := StrictConvertBoolean(a, allowYesNo);
    var y := StrictConvertBoolean(b, allowYesNo);
    if x.Bool? && y.Bool? then (true, x.b == y.b) else (false, false)
  }

  /** The test `safe_convert_to_number` applies to stripped text: with the first "." and the
      first "-" removed, only digits remain. */
  predicate LooksNumeric(t: string) {
    IsDigits(RemoveFirst(RemoveFirst(t, '.'), '-'))
  }

  /** `safe_convert_to_number`: text is stripped, and numeric-looking text is handed to
      `float()`, which may still reject it, as it does "1-2". */
  function SafeConvertToNumber(v: Value): Result<Value> {
    match v
    case Str(s) =>
      var t := Strip(s);
      if LooksNumeric(t) then
        match PyFloat(Str(t))
        case Ok(Finite(x)) => Ok(Float(x))
        case Ok(NotANumber) => Ok(NaN)
        case Err(e) => Err(e)
      else Ok(Str(t))
    case _ => Ok(v)
  }

  /** `compare_values`: booleans first, then numeric text becomes a number, then two texts
      compare (ignoring case unless `caseSensitive`), two numbers compare exactly or within
      `tolerance`, and anything else with `==`. */
  function CompareValues(a: Value, b: Value, caseSensitive: bool, tolerance: real,
                         allowYesNo: bool, useExact: bool): Result<bool>
  {
    var (comparable, equal) := TryBooleanComparison(a, b, allowYesNo);
    if comparable then Ok(equal)
    else
      var x :- SafeConvertToNumber(a);
      var y :- SafeConvertToNumber(b);
      Ok(CompareConverted(x, y, caseSensitive, tolerance, useExact))
  }

  /** The stages of `compare_values` after conversion: texts, then numbers, then `==`. */
  function CompareConverted(x: Value, y: Value, caseSensitive: bool, tolerance: real, useExact: bool): bool {
    if x.Str? && y.Str? then (if caseSensitive then x.s == y.s else Lower(x.s) == Lower(y.s))
    else if IsNumeric(x) && IsNumeric(y) then
      (if useExact then PyEq(x, y) else IsClose(NumOf(x), NumOf(y), tolerance))
    else PyEq(x, y)
  }

  /** The default tolerance of `compare_values` and `is_equal_value`. */
  const DefaultTolerance: real := 0.000001

  lemma SafeConvertPrimitive(v: Value)
    requires IsPrimitive(v)
    ensures SafeConvertToNumber(v).Ok? ==> IsPrimitive(SafeConvertToNumber(v).value)
    ensures SafeConvertToNumber(v).Err? ==>
              SafeConvertToNumber(v).error == ValueError("could not convert string to float")
  {
  }

  /** `compare_values` is symmetric on primitive values, errors included. */
  lemma CompareValuesSymmetric(a: Value, b: Value, caseSensitive: bool, tolerance: real,
                               allowYesNo: bool, useExact: bool)
    requires IsPrimitive(a) && IsPrimitive(b)
    ensures CompareValues(a, b, caseSensitive, tolerance, allowYesNo, useExact)
            == CompareValues(b, a, caseSensitive, tolerance, allowYesNo, useExact)
  {
    SafeConvertPrimitive(a);
    SafeConvertPrimitive(b);
    var x := SafeConvertToNumber(a);
    var y := SafeConvertToNumber(b);
    if x.Ok? && y.Ok? {
      CompareConvertedSymmetric(x.value, y.value, caseSensitive, tolerance, useExact);
    }
  }

  lemma CompareConvertedSymmetric(x: Value, y: Value, caseSensitive: bool, tolerance: real, useExact: bool)
    requires IsPrimitive(x) && IsPrimitive(y)
    ensures CompareConverted(x, y, caseSensitive, tolerance, useExact) == CompareConverted(y, x, caseSensitive, tolerance, useExact)
  {
    PyEqSymmetricPrimitive(x, y);
    if IsNumeric(x) && IsNumeric(y) {
      IsCloseSymmetric(NumOf(x), NumOf(y), tolerance);
    }
  }


  /** Text that passes the numeric test holds only digits, points and minus signs. */
  lemma LooksNumericChars(t: string)
    requires LooksNumeric(t)
    ensures forall i :: 0 <= i < |t| ==> IsDigit(t[i]) || t[i] == '.' || t[i] == '-'
  {
    var once := RemoveFirst(t, '.');
    RemoveFirstKeeps(t, '.');
    RemoveFirstKeeps(once, '-');
    var twice := RemoveFirst(once, '-');
    assert forall c :: c in twice ==> IsDigit(c);
  }

  /** Numeric-looking text never reads as a boolean. */
  lemma LooksNumericNotBoolean(s: string, allowYesNo: bool)
    requires LooksNumeric(Strip(s))
    ensures StrictConvertBoolean(Str(s), allowYesNo) == Str(s)
  {
    var t := Strip(s);
    LooksNumericChars(t);
    assert Lower(t)[0] == t[0];
    if |s| > 0 && !IsSpace(s[0]) && !IsSpace(s[|s| - 1]) {
      StripUnspaced(s);
      assert Lower(s)[0] == t[0];
    }
  }

  /** Text that `safe_convert_to_number` turns into the number `x` compares equal to every
      number of value `x`, both ways round, whatever the flags. */
  lemma NumericTextEqualsNumber(s: string, v: Value, caseSensitive: bool, tolerance: real,
                                allowYesNo: bool, useExact: bool)
    requires IsNumeric(v) && NumOf(v).Finite?
    requires SafeConvertToNumber(Str(s)) == Ok(Float(NumOf(v).x))
    ensures CompareValues(Str(s), v, caseSensitive, tolerance, allowYesNo, useExact) == Ok(true)
    ensures CompareValues(v, Str(s), caseSensitive, tolerance, allowYesNo, useExact) == Ok(true)
  {
    LooksNumericNotBoolean(s, allowYesNo);
    CompareValuesSymmetric(Str(s), v, caseSensitive, tolerance, allowYesNo, useExact);
  }

  /** Digits after an optional minus sign pass the numeric test. */
  lemma SignedDigitsLookNumeric(s: string)
    requires IsDigits(s) || (|s| > 0 && s[0] == '-' && IsDigits(s[1..]))
    ensures LooksNumeric(s)
  {
    assert '.' !in s by {
      assert forall k :: 1 <= k < |s| ==> s[k] == s[1..][k - 1];
    }
    if s[0] == '-' {
      assert IndexOf(s, '-') == 0;
    } else {
      assert '-' !in s;
    }
  }

  lemma IntTextLooksNumeric(i: int)
    ensures LooksNumeric(Strip(IntToString(i)))
    ensures PyFloat(Str(Strip(IntToString(i)))) == Ok(Finite(i as real))
  {
    var t := IntToString(i);
    IntTextShape(i);
    SignedDigitsLookNumeric(t);
    IntLiteralAsFloat(t);
    PyFloatOfUnspaced(t, Finite(i as real));
  }

  /** The text `str(i)` of an integer compares equal to it. */
  lemma IntTextEqualsInt(i: int, caseSensitive: bool, tolerance: real, allowYesNo: bool, useExact: bool)
    ensures CompareValues(Str(PyStr(Int(i))), Int(i), caseSensitive, tolerance, allowYesNo, useExact) == Ok(true)
    ensures CompareValues(Int(i), Str(PyStr(Int(i))), caseSensitive, tolerance, allowYesNo, useExact) == Ok(true)
  {
    IntTextLooksNumeric(i);
    NumericTextEqualsNumber(PyStr(Int(i)), Int(i), caseSensitive, tolerance, allowYesNo, useExact);
  }

  /** Text reading "true" or "false" after strip and lower case compares as that boolean,
      with or without the Yes/No conversion. */
  lemma TrueFalseTextComparison(s: string, b: bool, caseSensitive: bool, tolerance: real,
                                allowYesNo: bool, useExact: bool)
    requires Lower(Strip(s)) == "true" || Lower(Strip(s)) == "false"
    ensures CompareValues(Str(s), Bool(b), caseSensitive, tolerance, allowYesNo, useExact)
            == Ok(b == (Lower(Strip(s)) == "true"))
  {
  }

  lemma YesNoUnstripped(s: string)
    requires Lower(s) == "yes" || Lower(s) == "no"
    ensures Strip(s) == s && Lower(Strip(s)) != "true" && Lower(Strip(s)) != "false"
  {
    assert LowerChar(s[0]) == Lower(s)[0];
    assert LowerChar(s[|s| - 1]) == Lower(s)[|s| - 1];
    StripUnspaced(s);
  }

  /** "Yes"/"No" in any case compare as booleans only when the Yes/No conversion is on. */
  lemma YesNoTextComparison(s: string, b: bool, caseSensitive: bool, tolerance: real,
                            allowYesNo: bool, useExact: bool)
    requires Lower(s) == "yes" || Lower(s) == "no"
    ensures CompareValues(Str(s), Bool(b), caseSensitive, tolerance, allowYesNo, useExact)
            == Ok(allowYesNo && b == (Lower(s) == "yes"))
  {
    YesNoUnstripped(s);
    if allowYesNo {
      assert StrictConvertBoolean(Str(s), true) == Bool(Lower(s) == "yes");
    } else {
      LetterStartNotNumeric(s);
      assert StrictConvertBoolean(Str(s), false) == Str(s);
      assert SafeConvertToNumber(Str(s)) == Ok(Str(s));
      assert !CompareConverted(Str(s), Bool(b), caseSensitive, tolerance, useExact);
    }
  }

  /** Two texts that read neither as booleans nor as numbers compare stripped, ignoring case
      unless `caseSensitive`. */
  lemma PlainTextComparison(a: string, b: string, caseSensitive: bool, tolerance: real,
                            allowYesNo: bool, useExact: bool)
    requires StrictConvertBoolean(Str(a), allowYesNo) == Str(a) && !LooksNumeric(Strip(a))
    requires StrictConvertBoolean(Str(b), allowYesNo) == Str(b) && !LooksNumeric(Strip(b))
    ensures CompareValues(Str(a), Str(b), caseSensitive, tolerance, allowYesNo, useExact)
            == Ok(if caseSensitive then Strip(a) == Strip(b) else Lower(Strip(a)) == Lower(Strip(b)))
  {
  }

  /** Two floats compare exactly under `useExact`, otherwise with `math.isclose`. */
  lemma FloatComparison(a: real, b: real, caseSensitive: bool, tolerance: real,
                        allowYesNo: bool, useExact: bool)
    ensures CompareValues(Float(a), Float(b), caseSensitive, tolerance, allowYesNo, useExact)
            == Ok(if useExact then a == b else IsClose(Finite(a), Finite(b), tolerance))
  {
  }

  /** The tolerance cases: 1.0001 is within 1e-3 of 1.0 but not within 1e-6, and 1.00000001
      is within 1e-6; `FloatComparison` carries these over to `compare_values`. */
  lemma ToleranceExamples()
    ensures IsClose(Finite(1.0001), Finite(1.0), 0.001)
    ensures !IsClose(Finite(1.0001), Finite(1.0), DefaultTolerance)
    ensures IsClose(Finite(1.00000001), Finite(1.0), DefaultTolerance)
    ensures IsClose(Finite(-1.0001), Finite(-1.0), 0.001)
  {
  }

  /** Two numbers that are exactly equal are close under any tolerance. */
  lemma ExactNumbersClose(x: Value, y: Value, tolerance: real)
    requires IsNumeric(x) && IsNumeric(y) && PyEq(x, y) && tolerance >= 0.0
    ensures IsClose(NumOf(x), NumOf(y), tolerance)
  {
  }

  /** Text starting with a letter fails the numeric test. */
  lemma LetterStartNotNumeric(t: string)
    requires |t| > 0 && 'a' <= LowerChar(t[0]) <= 'z'
    ensures !LooksNumeric(t)
  {
    if LooksNumeric(t) {
      LooksNumericChars(t);
      assert false;
    }
  }

  /** The Yes/No conversion only changes what `strict_convert_boolean` makes of unspaced
      "yes"/"no" text. */
  lemma StrictYesNoDifference(b: Value)
    requires StrictConvertBoolean(b, true) != StrictConvertBoolean(b, false)
    ensures b.Str? && (Lower(b.s) == "yes" || Lower(b.s) == "no")
    ensures Strip(b.s) == b.s && !LooksNumeric(b.s)
    ensures StrictConvertBoolean(b, false) == b
  {
    YesNoUnstripped(b.s);
    LetterStartNotNumeric(b.s);
  }

  /** When only the loose side reads `b` as a Yes/No boolean, the exact comparison fails. */
  lemma ExactFailsOnYesNo(a: Value, b: Value)
    requires ConvertRevitBoolean(a) == a
    requires StrictConvertBoolean(b, true) != StrictConvertBoolean(b, false)
    requires StrictConvertBoolean(a, false).Bool?
    ensures CompareValues(a, b, true, 0.0, false, true) == Ok(false)
  {
    StrictYesNoDifference(b);
    assert TryBooleanComparison(a, b, false) == (false, false);
    assert SafeConvertToNumber(b) == Ok(b);
    if a.Str? {
      var t := Strip(a.s);
      assert Lower(t) != Lower(b.s);
      if LooksNumeric(t) {
        LooksNumericNotBoolean(a.s, false);
        assert false;
      }
      assert SafeConvertToNumber(a) == Ok(Str(t));
      assert !CompareConverted(Str(t), b, true, 0.0, true);
    } else {
      assert SafeConvertToNumber(a) == Ok(a);
      assert !CompareConverted(a, b, true, 0.0, true);
    }
  }

  /** For a value the Yes/No conversion leaves alone, an exact, case-sensitive comparison
      without Yes/No conversion that succeeds implies the loose comparison succeeds. */
  lemma ExactImpliesLoose(a: Value, b: Value, caseSensitive: bool, tolerance: real)
    requires ConvertRevitBoolean(a) == a && tolerance >= 0.0
    requires CompareValues(a, b, true, 0.0, false, true) == Ok(true)
    ensures CompareValues(a, b, caseSensitive, tolerance, true, false) == Ok(true)
  {
    assert StrictConvertBoolean(a, true) == StrictConvertBoolean(a, false);
    if StrictConvertBoolean(b, true) != StrictConvertBoolean(b, false) {
      StrictYesNoDifference(b);
      if StrictConvertBoolean(a, false).Bool? {
        ExactFailsOnYesNo(a, b);
        assert false;
      }
    }
    assert TryBooleanComparison(a, b, true) == TryBooleanComparison(a, b, false);
    if !TryBooleanComparison(a, b, false).0 {
      var x := SafeConvertToNumber(a).value;
      var y := SafeConvertToNumber(b).value;
      if !(x.Str? && y.Str?) && IsNumeric(x) && IsNumeric(y) {
        ExactNumbersClose(x, y, tolerance);
      }
    }
  }

  // ===========================================================================
  // Equality predicates

  /** `is_equal_value`: a missing value (or `None`) is never equal; otherwise the comparison
      with Yes/No conversion. */
  function IsEqualValue(obj: Value, name: string, target: Value, caseSensitive: bool, tolerance: real): Result<bool> {
    var v := GetParameterValue(obj, name, Null, false);
    if v.Null? then Ok(false) else CompareValues(v, target, caseSensitive, tolerance, true, false)
  }

  /** `is_not_equal_value`: a missing value (or `None`) is always unequal; otherwise the
      negated comparison. */
  function IsNotEqualValue(obj: Value, name: string, target: Value, caseSensitive: bool, tolerance: real): Result<bool> {
    var v := GetParameterValue(obj, name, Null, false);
    if v.Null? then Ok(true)
    else
      var equal :- CompareValues(v, target, caseSensitive, tolerance, true, false);
      Ok(!equal)
  }

  /** `is_identical_value`: the raw value, compared case-sensitively, exactly, without Yes/No
      conversion. */
  function IsIdenticalValue(obj: Value, name: string, target: Value): Result<bool> {
    var v := GetParameterValue(obj, name, Null, true);
    if v.Null? then Ok(false) else CompareValues(v, target, true, 0.0, false, true)
  }

  /** Missing values: not equal, not identical, and unequal. */
  lemma EqualityOnMissing(obj: Value, name: string, target: Value, caseSensitive: bool, tolerance: real)
    requires !HasParameter(obj, name)
    ensures IsEqualValue(obj, name, target, caseSensitive, tolerance) == Ok(false)
    ensures IsNotEqualValue(obj, name, target, caseSensitive, tolerance) == Ok(true)
    ensures IsIdenticalValue(obj, name, target) == Ok(false)
  {
    RawAndConvertedAgree(obj, name);
  }

  /** `is_not_equal_value` is the exact negation of `is_equal_value` on a present value, and
      both propagate the same error. */
  lemma NotEqualIsNegation(obj: Value, name: string, target: Value, caseSensitive: bool, tolerance: real)
    requires GetParameterValue(obj, name, Null, false) != Null
    ensures IsEqualValue(obj, name, target, caseSensitive, tolerance).Ok?
            == IsNotEqualValue(obj, name, target, caseSensitive, tolerance).Ok?
    ensures IsEqualValue(obj, name, target, caseSensitive, tolerance).Ok? ==>
              IsNotEqualValue(obj, name, target, caseSensitive, tolerance).value
              == !IsEqualValue(obj, name, target, caseSensitive, tolerance).value
  {
  }

  /** Identical implies equal whenever the stored value is a primitive the Yes/No conversion
      leaves alone. */
  lemma IdenticalImpliesEqual(obj: Value, name: string, target: Value)
    requires FindProperty(obj, name, true).Found?
    requires var h := FindProperty(obj, name, true).value; IsPrimitive(h) && ConvertRevitBoolean(h) == h
    requires IsIdenticalValue(obj, name, target) == Ok(true)
    ensures IsEqualValue(obj, name, target, false, DefaultTolerance) == Ok(true)
  {
    RawAndConvertedAgree(obj, name);
    var h := FindProperty(obj, name, true).value;
    ExactImpliesLoose(h, target, false, DefaultTolerance);
  }

  /** A value that compares with `==` compares equal under the loose comparison too, or makes
      it raise (text such as "1-2" passes the numeric test and then fails `float()`). */
  lemma PlainEqualityImpliesLoose(a: Value, b: Value, caseSensitive: bool, tolerance: real, allowYesNo: bool)
    requires PyEq(a, b) && tolerance >= 0.0
    ensures CompareValues(a, b, caseSensitive, tolerance, allowYesNo, false) != Ok(false)
  {
    if a.Str? || b.Str? {
      assert a == b;
    }
    if TryBooleanComparison(a, b, allowYesNo).0 {
      if !a.Str? && !b.Str? {
        assert StrictConvertBoolean(a, allowYesNo) == a && StrictConvertBoolean(b, allowYesNo) == b;
      }
    } else if a.Str? {
      SameTextLoose(a.s, caseSensitive, tolerance, allowYesNo);
    } else {
      OtherEqualLoose(a, b, caseSensitive, tolerance, allowYesNo);
    }
  }

  /** `safe_convert_to_number` never produces NaN from text: "nan" fails the numeric test. */
  lemma SafeConvertNoNaN(s: string)
    ensures SafeConvertToNumber(Str(s)) != Ok(NaN)
  {
    var t := Strip(s);
    if LooksNumeric(t) {
      NumericTextNotNaN(t);
    }
  }

  lemma NumericTextNotNaN(t: string)
    requires LooksNumeric(t)
    ensures PyFloat(Str(t)) != Ok(NotANumber)
  {
    LooksNumericChars(t);
    NumericCharsNotNaN(t);
  }

  lemma NumericCharsNotNaN(t: string)
    requires |t| > 0 && forall i :: 0 <= i < |t| ==> IsDigit(t[i]) || t[i] == '.' || t[i] == '-'
    ensures FloatLiteral(Strip(t)) != Some(NotANumber)
  {
    StripUnspaced(t);
    var body := SignOf(t).1;
    if |body| > 0 {
      assert body[0] == t[|t| - |body|];
      assert Lower(body)[0] == body[0];
    }
  }

  lemma SameTextLoose(s: string, caseSensitive: bool, tolerance: real, allowYesNo: bool)
    requires tolerance >= 0.0
    requires !TryBooleanComparison(Str(s), Str(s), allowYesNo).0
    ensures CompareValues(Str(s), Str(s), caseSensitive, tolerance, allowYesNo, false) != Ok(false)
  {
    SafeConvertNoNaN(s);
    var x := SafeConvertToNumber(Str(s));
    if x.Ok? && x.value.Float? {
      assert IsClose(Finite(x.value.r), Finite(x.value.r), tolerance);
    }
  }

  lemma OtherEqualLoose(a: Value, b: Value, caseSensitive: bool, tolerance: real, allowYesNo: bool)
    requires PyEq(a, b) && tolerance >= 0.0 && !a.Str? && !b.Str?
    requires !TryBooleanComparison(a, b, allowYesNo).0
    ensures CompareValues(a, b, caseSensitive, tolerance, allowYesNo, false) != Ok(false)
  {
    assert SafeConvertToNumber(a) == Ok(a) && SafeConvertToNumber(b) == Ok(b);
    if IsNumeric(a) && IsNumeric(b) {
      ExactNumbersClose(a, b, tolerance);
    }
  }

  /** `is_parameter_value` ("matches"): plain `==` between the converted value (or `None`) and
      the target. */
  predicate IsParameterValue(obj: Value, name: string, target: Value) {
    PyEq(GetParameterValue(obj, name, Null, false), target)
  }

  /** "matches" implies "equals" on a present value, unless the loose comparison raises. */
  lemma MatchesImpliesEquals(obj: Value, name: string, target: Value, caseSensitive: bool, tolerance: real)
    requires tolerance >= 0.0
    requires IsParameterValue(obj, name, target) && GetParameterValue(obj, name, Null, false) != Null
    ensures IsEqualValue(obj, name, target, caseSensitive, tolerance) != Ok(false)
  {
    PlainEqualityImpliesLoose(GetParameterValue(obj, name, Null, false), target, caseSensitive, tolerance, true);
  }

  /** A missing parameter "matches" exactly the targets equal to `None`. */
  lemma MatchesOnMissing(obj: Value, name: string, target: Value)
    requires !HasParameter(obj, name)
    ensures IsParameterValue(obj, name, target) <==> target == Null
  {
  }

  /** The two lookups of a stored text: the raw text, and its Yes/No reading. */
  lemma StoredText(obj: Value, name: string, s: string)
    requires FindProperty(obj, name, true) == Found(Str(s))
    ensures GetParameterValue(obj, name, Null, true) == Str(s)
    ensures GetParameterValue(obj, name, Null, false) == ConvertRevitBoolean(Str(s))
  {
    RawAndConvertedAgree(obj, name);
  }

  /** A boolean never equals text that reads neither as a boolean nor as a number. */
  lemma BoolVersusPlainText(b: bool, s: string, caseSensitive: bool, tolerance: real,
                            allowYesNo: bool, useExact: bool)
    requires StrictConvertBoolean(Str(s), allowYesNo) == Str(s) && !LooksNumeric(Strip(s))
    ensures CompareValues(Bool(b), Str(s), caseSensitive, tolerance, allowYesNo, useExact) == Ok(false)
  {
    assert !TryBooleanComparison(Bool(b), Str(s), allowYesNo).0;
    assert SafeConvertToNumber(Str(s)) == Ok(Str(Strip(s)));
  }

  /** A raw "Yes" is identical to "Yes " (both strip to "Yes") but, read as `True`, not
      equal to it: "Yes " is not a Yes/No word before stripping. */
  lemma IdenticalNotEqualExample(obj: Value, name: string)
    requires FindProperty(obj, name, true) == Found(Str("Yes"))
    ensures IsIdenticalValue(obj, name, Str("Yes ")) == Ok(true)
    ensures IsEqualValue(obj, name, Str("Yes "), false, DefaultTolerance) == Ok(false)
  {
    StoredText(obj, name, "Yes");
    YesFacts();
    YesSpaceFacts();
    BoolVersusPlainText(true, "Yes ", false, DefaultTolerance, true, false);
    PlainTextComparison("Yes", "Yes ", true, 0.0, false, true);
  }

  lemma YesFacts()
    ensures Lower("Yes") == "yes" && Strip("Yes") == "Yes" && !LooksNumeric("Yes")
    ensures StrictConvertBoolean(Str("Yes"), false) == Str("Yes")
    ensures ConvertRevitBoolean(Str("Yes")) == Bool(true)
  {
    LetterStartNotNumeric("Yes");
  }

  lemma YesSpaceFacts()
    ensures Strip("Yes ") == "Yes" && Lower("Yes ") == "yes "
    ensures StrictConvertBoolean(Str("Yes "), true) == Str("Yes ")
    ensures StrictConvertBoolean(Str("Yes "), false) == Str("Yes ")
  {
    assert TrimLeft("Yes ") == "Yes ";
    assert "Yes "[..3] == "Yes";
    YesFacts();
  }

  /** A stored "Yes" is equal to `True` but not identical to it. */
  lemma StoredYesVersusTrue(obj: Value, name: string)
    requires FindProperty(obj, name, true) == Found(Str("Yes"))
    ensures IsEqualValue(obj, name, Bool(true), false, DefaultTolerance) == Ok(true)
    ensures IsIdenticalValue(obj, name, Bool(true)) == Ok(false)
  {
    StoredText(obj, name, "Yes");
    YesFacts();
    CompareValuesSymmetric(Str("Yes"), Bool(true), true, 0.0, false, true);
    BoolVersusPlainText(true, "Yes", true, 0.0, false, true);
  }

  /** A stored "Yes" is equal and identical to "Yes". */
  lemma StoredYesVersusYes(obj: Value, name: string)
    requires FindProperty(obj, name, true) == Found(Str("Yes"))
    ensures IsEqualValue(obj, name, Str("Yes"), false, DefaultTolerance) == Ok(true)
    ensures IsIdenticalValue(obj, name, Str("Yes")) == Ok(true)
  {
    StoredText(obj, name, "Yes");
    YesFacts();
    assert StrictConvertBoolean(Str("Yes"), true) == Bool(true);
    PlainTextComparison("Yes", "Yes", true, 0.0, false, true);
  }

  /** A stored "Yes" is equal to "yes"... */
  lemma StoredYesEqualsLowerYes(obj: Value, name: string)
    requires FindProperty(obj, name, true) == Found(Str("Yes"))
    ensures IsEqualValue(obj, name, Str("yes"), false, DefaultTolerance) == Ok(true)
  {
    StoredText(obj, name, "Yes");
    YesFacts();
    LowerYesFacts();
  }

  /** ...but not identical to it. */
  lemma StoredYesNotIdenticalToLowerYes(obj: Value, name: string)
    requires FindProperty(obj, name, true) == Found(Str("Yes"))
    ensures IsIdenticalValue(obj, name, Str("yes")) == Ok(false)
  {
    StoredText(obj, name, "Yes");
    YesFacts();
    LowerYesFacts();
    PlainTextComparison("Yes", "yes", true, 0.0, false, true);
  }

  lemma LowerYesFacts()
    ensures Lower("yes") == "yes" && Strip("yes") == "yes" && !LooksNumeric("yes")
    ensures StrictConvertBoolean(Str("yes"), false) == Str("yes")
    ensures StrictConvertBoolean(Str("yes"), true) == Bool(true)
  {
    LetterStartNotNumeric("yes");
  }

  // ===========================================================================
  // Containment

  /** `is_parameter_value_containing`: a case-insensitive substring test between the `str()`
      forms; a missing value (or `None`) contains nothing. */
  predicate IsParameterValueContaining(obj: Value, name: string, substring: Value) {
    var v := GetParameterValue(obj, name, Null, false);
    !v.Null? && Contains(Lower(PyStr(v)), Lower(PyStr(substring)))
  }

  /** `is_parameter_value_not_containing` */
  predicate IsParameterValueNotContaining(obj: Value, name: string, substring: Value) {
    !IsParameterValueContaining(obj, name, substring)
  }

  /** A missing parameter contains nothing, so "does not contain" holds for it. */
  lemma ContainingOnMissing(obj: Value, name: string, substring: Value)
    requires !HasParameter(obj, name)
    ensures !IsParameterValueContaining(obj, name, substring)
    ensures IsParameterValueNotContaining(obj, name, substring)
  {
  }

  /** Every present value contains the empty text and its own text in any case. */
  lemma ContainingOwnText(obj: Value, name: string)
    requires GetParameterValue(obj, name, Null, false) != Null
    ensures IsParameterValueContaining(obj, name, Str(""))
    ensures IsParameterValueContaining(obj, name, Str(PyStr(GetParameterValue(obj, name, Null, false))))
    ensures IsParameterValueContaining(obj, name, Str(Upper(PyStr(GetParameterValue(obj, name, Null, false)))))
  {
    var t := PyStr(GetParameterValue(obj, name, Null, false));
    ContainsEmpty(Lower(t));
    ContainsSelf(Lower(t));
    LowerOfUpper(t);
  }

  lemma LowerOfUpper(s: string)
    ensures Lower(Upper(s)) == Lower(s)
  {
  }

  /** The containment test ignores the case of the substring. */
  lemma ContainingIgnoresCase(obj: Value, name: string, s: string)
    ensures IsParameterValueContaining(obj, name, Str(s)) == IsParameterValueContaining(obj, name, Str(Lower(s)))
    ensures IsParameterValueContaining(obj, name, Str(s)) == IsParameterValueContaining(obj, name, Str(Upper(s)))
  {
    LowerIdempotent(s);
    LowerOfUpper(s);
  }

  // ===========================================================================
  // Numeric predicates

  /** `parse_number_from_string` as written: `int()` first, `float()` when that raises
      ValueError; any other error propagates. `int()` of a float truncates it. */
  function ParseNumberFromString(v: Value): Result<Num> {
    match PyInt(v)
    case Ok(i) => Ok(Finite(i as real))
    case Err(e) =>
      if !e.ValueError? then Err(e)
      else match PyFloat(v)
        case Ok(n) => Ok(n)
        case Err(f) =>
          if f.ValueError? then Err(ValueError("Input string is not a valid integer or float")) else Err(f)
  }

  /** The threshold parse the numeric predicates evidently intend: a float threshold keeps its
      value; everything else is parsed as `parse_number_from_string` does. */
  function ParseThreshold(v: Value): Result<Num> {
    if v.Float? then Ok(Finite(v.r)) else ParseNumberFromString(v)
  }

  /** As written, a float threshold loses its fraction: 2.5 is read as 2. */
  lemma ParseNumberTruncatesFloat(r: real)
    ensures ParseNumberFromString(Float(r)) == Ok(Finite(Truncate(r) as real))
    ensures ParseNumberFromString(Float(2.5)) == Ok(Finite(2.0))
    ensures ParseThreshold(Float(2.5)) == Ok(Finite(2.5))
  {
  }

  /** The corrected parse accepts exactly what `float()` accepts, with the same value; where
      `float()` raises ValueError it raises ValueError. */
  lemma ParseThresholdAgreesWithFloat(v: Value)
    ensures ParseThreshold(v).Ok? <==> PyFloat(v).Ok?
    ensures PyFloat(v).Ok? ==> ParseThreshold(v) == PyFloat(v)
    ensures PyFloat(v).Err? && PyFloat(v).error.ValueError? ==>
              ParseThreshold(v) == Err(ValueError("Input string is not a valid integer or float"))
  {
    match v
    case Str(s) => ParseThresholdOnText(s);
    case Float(r) => assert ParseThreshold(v) == Ok(Finite(r));
    case NaN => assert ParseThreshold(v) == Ok(NotANumber);
    case Int(i) => assert ParseThreshold(v) == Ok(Finite(i as real));
    case Bool(b) => assert ParseThreshold(v) == Ok(Finite(if b then 1.0 else 0.0));
    case _ => assert PyFloat(v).error.TypeError?;
  }

  /** On text the parse is `float()`'s, with its own message when `float()` refuses. */
  lemma ParseThresholdOnText(s: string)
    ensures ParseThreshold(Str(s))
            == match PyFloat(Str(s))
               case Ok(n) => Ok(n)
               case Err(_) => Err(ValueError("Input string is not a valid integer or float"))
  {
    var t := Strip(s);
    if IntLiteral(t).Some? {
      IntLiteralAsFloat(t);
      assert PyInt(Str(s)) == Ok(IntLiteral(t).value);
      assert PyFloat(Str(s)) == Ok(Finite(IntLiteral(t).value as real));
    } else {
      assert PyInt(Str(s)) == Err(ValueError("invalid literal for int()"));
    }
  }

  /** What `float(parameter_value)` makes of a value; `Nothing` where it raises. */
  function NumericValue(v: Value): Option<Num> {
    match PyFloat(v)
    case Ok(n) => Some(n)
    case Err(_) => Nothing
  }

  /** Python's `>` and `<` on floats: false whenever either side is NaN. */
  predicate Greater(a: Num, b: Num) {
    a.Finite? && b.Finite? && a.x > b.x
  }

  predicate Less(a: Num, b: Num) {
    a.Finite? && b.Finite? && a.x < b.x
  }

  /** The shared shape of the two threshold predicates, given what parsing the threshold
      gives: false for a missing value or one `float()` rejects; otherwise the parsed
      threshold (or its error) decides, strictly above or strictly below. */
  function CompareWithThreshold(obj: Value, name: string, parsed: Result<Num>, above: bool): (r: Result<bool>)
    ensures r.Err? ==> parsed.Err? && r.error == parsed.error
    ensures parsed.Ok? && r == Ok(true) ==>
              var v := GetParameterValue(obj, name, Null, false);
              v != Null && NumericValue(v).Some?
              && (if above then Greater(NumericValue(v).value, parsed.value)
                  else Less(NumericValue(v).value, parsed.value))
    ensures var v := GetParameterValue(obj, name, Null, false);
            v == Null || NumericValue(v).Nothing? ==> r == Ok(false)
    ensures var v := GetParameterValue(obj, name, Null, false);
            v != Null && NumericValue(v).Some? && parsed.Ok? ==>
              r == Ok(if above then Greater(NumericValue(v).value, parsed.value)
                      else Less(NumericValue(v).value, parsed.value))
  {
    var v := GetParameterValue(obj, name, Null, false);
    if v.Null? then Ok(false)
    else match NumericValue(v)
      case Nothing => Ok(false)
      case Some(x) =>
        var t :- parsed;
        Ok(if above then Greater(x, t) else Less(x, t))
  }

  /** `is_parameter_value_greater_than` as written: the threshold is read by
      `parse_number_from_string`, so a float threshold is truncated. */
  function IsParameterValueGreaterThan(obj: Value, name: string, threshold: Value): (r: Result<bool>)
    ensures r.Err? ==> ParseNumberFromString(threshold).Err?
    ensures r == Ok(true) ==> var v := GetParameterValue(obj, name, Null, false); v != Null && NumericValue(v).Some?
    ensures var v := GetParameterValue(obj, name, Null, false);
            v == Null || NumericValue(v).Nothing? ==> r == Ok(false)
    ensures var v := GetParameterValue(obj, name, Null, false);
            v != Null && NumericValue(v).Some? && ParseNumberFromString(threshold).Ok? ==>
              r == Ok(Greater(NumericValue(v).value, ParseNumberFromString(threshold).value))
  {
    CompareWithThreshold(obj, name, ParseNumberFromString(threshold), true)
  }

  /** `is_parameter_value_less_than` as written. */
  function IsParameterValueLessThan(obj: Value, name: string, threshold: Value): (r: Result<bool>)
    ensures r.Err? ==> ParseNumberFromString(threshold).Err?
    ensures r == Ok(true) ==> var v := GetParameterValue(obj, name, Null, false); v != Null && NumericValue(v).Some?
    ensures var v := GetParameterValue(obj, name, Null, false);
            v == Null || NumericValue(v).Nothing? ==> r == Ok(false)
    ensures var v := GetParameterValue(obj, name, Null, false);
            v != Null && NumericValue(v).Some? && ParseNumberFromString(threshold).Ok? ==>
              r == Ok(Less(NumericValue(v).value, ParseNumberFromString(threshold).value))
  {
    CompareWithThreshold(obj, name, ParseNumberFromString(threshold), false)
  }

  /** `is_parameter_value_greater_than` as evidently intended: the threshold keeps a float's
      value. */
  function IsParameterValueGreaterThanIntended(obj: Value, name: string, threshold: Value): (r: Result<bool>)
    ensures r.Err? ==> ParseThreshold(threshold).Err?
    ensures r == Ok(true) ==> var v := GetParameterValue(obj, name, Null, false); v != Null && NumericValue(v).Some?
    ensures var v := GetParameterValue(obj, name, Null, false);
            v == Null || NumericValue(v).Nothing? ==> r == Ok(false)
    ensures var v := GetParameterValue(obj, name, Null, false);
            v != Null && NumericValue(v).Some? && ParseThreshold(threshold).Ok? ==>
              r == Ok(Greater(NumericValue(v).value, ParseThreshold(threshold).value))
  {
    CompareWithThreshold(obj, name, ParseThreshold(threshold), true)
  }

  /** `is_parameter_value_less_than` as evidently intended. */
  function IsParameterValueLessThanIntended(obj: Value, name: string, threshold: Value): (r: Result<bool>)
    ensures r.Err? ==> ParseThreshold(threshold).Err?
    ensures r == Ok(true) ==> var v := GetParameterValue(obj, name, Null, false); v != Null && NumericValue(v).Some?
    ensures var v := GetParameterValue(obj, name, Null, false);
            v == Null || NumericValue(v).Nothing? ==> r == Ok(false)
    ensures var v := GetParameterValue(obj, name, Null, false);
            v != Null && NumericValue(v).Some? && ParseThreshold(threshold).Ok? ==>
              r == Ok(Less(NumericValue(v).value, ParseThreshold(threshold).value))
  {
    CompareWithThreshold(obj, name, ParseThreshold(threshold), false)
  }

  /** The bounds of a "min,max" range: `split(",")` must give exactly two parts, each parsed. */
  function RangeBounds(range: Value): Result<(Num, Num)> {
    if !range.Str? then Err(AttributeError("object has no attribute 'split'"))
    else
      var parts := Split(range.s, ',');
      if |parts| != 2 then Err(ValueError("wrong number of values to unpack"))
      else
        var lo :- ParseNumberFromString(Str(parts[0]));
        var hi :- ParseNumberFromString(Str(parts[1]));
        Ok((lo, hi))
  }

  /** `is_parameter_value_in_range`: the range is parsed before the lookup, then an inclusive
      test on the numeric value. */
  function IsParameterValueInRange(obj: Value, name: string, range: Value): Result<bool> {
    var (lo, hi) :- RangeBounds(range);
    var v := GetParameterValue(obj, name, Null, false);
    if v.Null? then Ok(false)
    else match NumericValue(v)
      case Nothing => Ok(false)
      case Some(x) => Ok(!Less(x, lo) && !Greater(x, hi) && x.Finite? && lo.Finite? && hi.Finite?)
  }

  /** Missing or non-numeric values never pass a numeric predicate, whatever the threshold. */
  lemma NumericPredicatesOnNonNumbers(obj: Value, name: string, threshold: Value, range: Value)
    requires GetParameterValue(obj, name, Null, false).Null? || NumericValue(GetParameterValue(obj, name, Null, false)).Nothing?
    ensures IsParameterValueGreaterThan(obj, name, threshold) == Ok(false)
    ensures IsParameterValueLessThan(obj, name, threshold) == Ok(false)
    ensures RangeBounds(range).Ok? ==> IsParameterValueInRange(obj, name, range) == Ok(false)
  {
  }

  /** A bad range raises whatever the object holds: it is parsed before the lookup. */
  lemma RangeParsedFirst(obj: Value, name: string, range: Value)
    requires RangeBounds(range).Err?
    ensures IsParameterValueInRange(obj, name, range) == Err(RangeBounds(range).error)
  {
  }

  /** A bad threshold raises only when the value is numeric. */
  lemma ThresholdParsedAfterLookup(obj: Value, name: string, threshold: Value)
    requires ParseNumberFromString(threshold).Err?
    ensures IsParameterValueGreaterThan(obj, name, threshold).Err? <==>
              GetParameterValue(obj, name, Null, false) != Null
              && NumericValue(GetParameterValue(obj, name, Null, false)).Some?
  {
  }

  /** "greater than" and "less than" never both hold. */
  lemma GreaterLessExclusive(obj: Value, name: string, threshold: Value)
    ensures !(IsParameterValueGreaterThan(obj, name, threshold) == Ok(true)
              && IsParameterValueLessThan(obj, name, threshold) == Ok(true))
  {
  }

  /** "in range lo,hi" holds exactly when the value is numeric and neither "less than lo" nor
      "greater than hi" holds. */
  lemma InRangeBetween(obj: Value, name: string, range: Value)
    requires RangeBounds(range).Ok?
    requires RangeBounds(range).value.0.Finite? && RangeBounds(range).value.1.Finite?
    ensures var parts := Split(range.s, ',');
      IsParameterValueInRange(obj, name, range) == Ok(true) <==>
        (var v := GetParameterValue(obj, name, Null, false);
         v != Null && NumericValue(v).Some? && NumericValue(v).value.Finite?
         && IsParameterValueLessThan(obj, name, Str(parts[0])) == Ok(false)
         && IsParameterValueGreaterThan(obj, name, Str(parts[1])) == Ok(false))
  {
  }

  /** A text threshold, which is what a spreadsheet cell holding anything but a number gives,
      is read as `float()` reads it: there the as-written and the intended predicates agree. */
  lemma TextThresholdAgrees(obj: Value, name: string, s: string)
    ensures IsParameterValueGreaterThan(obj, name, Str(s)) == IsParameterValueGreaterThanIntended(obj, name, Str(s))
    ensures IsParameterValueLessThan(obj, name, Str(s)) == IsParameterValueLessThanIntended(obj, name, Str(s))
  {
    assert ParseThreshold(Str(s)) == ParseNumberFromString(Str(s));
  }

  /** An integer or boolean threshold, which is what an all-integer Value column gives, is
      read exactly: the as-written predicates compare the value with it, as the corrected
      ones do. */
  lemma IntegerThresholdCompares(obj: Value, name: string, x: real, i: int, b: bool)
    requires GetParameterValue(obj, name, Null, false) != Null
    requires NumericValue(GetParameterValue(obj, name, Null, false)) == Some(Finite(x))
    ensures IsParameterValueGreaterThan(obj, name, Int(i)) == Ok(x > i as real)
    ensures IsParameterValueLessThan(obj, name, Int(i)) == Ok(x < i as real)
    ensures IsParameterValueGreaterThan(obj, name, Bool(b)) == Ok(x > if b then 1.0 else 0.0)
    ensures IsParameterValueLessThan(obj, name, Bool(b)) == Ok(x < if b then 1.0 else 0.0)
    ensures IsParameterValueGreaterThan(obj, name, Int(i)) == IsParameterValueGreaterThanIntended(obj, name, Int(i))
    ensures IsParameterValueLessThan(obj, name, Int(i)) == IsParameterValueLessThanIntended(obj, name, Int(i))
  {
  }

  /** As written, a float threshold `r` is compared as `int(r)`: a value of 2.2 is "greater
      than" 2.5 and not "less than" it, where the intended predicates say the opposite. */
  lemma GreaterThanTruncatesThreshold(obj: Value, name: string, x: real, r: real)
    requires GetParameterValue(obj, name, Null, false) != Null
    requires NumericValue(GetParameterValue(obj, name, Null, false)) == Some(Finite(x))
    ensures IsParameterValueGreaterThan(obj, name, Float(r)) == Ok(x > Truncate(r) as real)
    ensures IsParameterValueLessThan(obj, name, Float(r)) == Ok(x < Truncate(r) as real)
    ensures x == 2.2 && r == 2.5 ==>
              IsParameterValueGreaterThan(obj, name, Float(r)) == Ok(true)
              && IsParameterValueGreaterThanIntended(obj, name, Float(r)) == Ok(false)
              && IsParameterValueLessThanIntended(obj, name, Float(r)) == Ok(true)
  {
    ParseNumberTruncatesFloat(r);
  }

  /** The intended predicates read the threshold as `float()` would. */
  lemma GreaterThanReadsFloat(obj: Value, name: string, threshold: Value, x: real, y: real)
    requires GetParameterValue(obj, name, Null, false) != Null
    requires NumericValue(GetParameterValue(obj, name, Null, false)) == Some(Finite(x))
    requires PyFloat(threshold) == Ok(Finite(y))
    ensures IsParameterValueGreaterThanIntended(obj, name, threshold) == Ok(x > y)
    ensures IsParameterValueLessThanIntended(obj, name, threshold) == Ok(x < y)
  {
    ParseThresholdAgreesWithFloat(threshold);
  }

  // ===========================================================================
  // Pattern, list and boolean predicates

  /** `re.match` and Levenshtein `ratio`, which the model does not interpret: whether `re`
      compiles a pattern, whether a compiled pattern matches at the start of a text, and the
      similarity of two texts. */
  datatype Matchers = Matchers(validPattern: string -> bool, regexMatch: (string, string) -> bool,
                               ratio: (string, string) -> real)

  /** The default similarity threshold of `is_parameter_value_like`. */
  const DefaultLikeThreshold: real := 0.8

  /** `is_parameter_value_like`: false for a missing value; a non-text pattern makes the
      matcher raise; fuzzy mode compares the similarity ratio with the threshold, otherwise
      a pattern `re` cannot compile raises `re.error` and a valid one must match at the start
      of the value's text. */
  function IsParameterValueLike(obj: Value, name: string, pattern: Value, fuzzy: bool, threshold: real,
                                m: Matchers): (r: Result<bool>)
    ensures !HasParameter(obj, name) ==> r == Ok(false)
    ensures GetParameterValue(obj, name, Null, false) != Null ==>
              (r.Err? <==> !pattern.Str? || (!fuzzy && !m.validPattern(pattern.s)))
    ensures r.Err? && pattern.Str? ==> r.error.RegexError?
  {
    var v := GetParameterValue(obj, name, Null, false);
    if v.Null? then Ok(false)
    else if !pattern.Str? then Err(TypeError("expected string pattern"))
    else if fuzzy then Ok(m.ratio(PyStr(v), pattern.s) >= threshold)
    else if !m.validPattern(pattern.s) then Err(RegexError("invalid regular expression"))
    else Ok(m.regexMatch(pattern.s, PyStr(v)))
  }

  /** A missing value is never like anything; a fuzzy match survives lowering the threshold. */
  lemma LikeProperties(obj: Value, name: string, pattern: Value, t1: real, t2: real, m: Matchers)
    requires t1 <= t2
    ensures !HasParameter(obj, name) ==> IsParameterValueLike(obj, name, pattern, true, t1, m) == Ok(false)
    ensures IsParameterValueLike(obj, name, pattern, true, t2, m) == Ok(true) ==>
              IsParameterValueLike(obj, name, pattern, true, t1, m) == Ok(true)
  {
  }

  /** Fuzzy matching a value against its own text succeeds when the ratio of equal texts is 1. */
  lemma LikeOwnText(obj: Value, name: string, threshold: real, m: Matchers)
    requires GetParameterValue(obj, name, Null, false) != Null
    requires forall s :: m.ratio(s, s) == 1.0
    requires threshold <= 1.0
    ensures var t := PyStr(GetParameterValue(obj, name, Null, false));
      IsParameterValueLike(obj, name, Str(t), true, threshold, m) == Ok(true)
  {
  }

  /** `[v.strip() for v in s.split(",") if v.strip()]` over the pieces of a split. */
  function CsvItems(pieces: seq<string>): (r: seq<Value>)
    ensures |r| <= |pieces|
    ensures forall k :: 0 <= k < |r| ==> r[k].Str? && r[k].s != []
  {
    if pieces == [] then []
    else if Strip(pieces[0]) == [] then CsvItems(pieces[1..])
    else [Str(Strip(pieces[0]))] + CsvItems(pieces[1..])
  }

  /** Every non-blank piece appears, stripped, among the items. */
  lemma {:induction false} CsvItemsComplete(pieces: seq<string>, k: nat)
    requires k < |pieces| && Strip(pieces[k]) != []
    ensures Str(Strip(pieces[k])) in CsvItems(pieces)
  {
    if k > 0 {
      CsvItemsComplete(pieces[1..], k - 1);
    }
  }

  /** Python's `x in xs` on a list, up to object identity. */
  predicate InSeq(x: Value, xs: seq<Value>) {
    exists k :: 0 <= k < |xs| && PyEq(x, xs[k])
  }

  /** `is_parameter_value_in_list`: text is split on commas into stripped, non-blank items, a
      list is used as it is, anything else matches nothing; the value or its `str()` form must
      be in the items. A missing value is `None`, so it matches an item "None". */
  predicate IsParameterValueInList(obj: Value, name: string, valueList: Value)
    ensures IsParameterValueInList(obj, name, valueList) ==> valueList.Str? || valueList.List?
  {
    var v := GetParameterValue(obj, name, Null, false);
    var items := if valueList.Str? then CsvItems(Split(valueList.s, ',')) else if valueList.List? then valueList.items else [];
    (valueList.Str? || valueList.List?) && (InSeq(v, items) || InSeq(Str(PyStr(v)), items))
  }

  /** A value whose text appears, between commas and up to surrounding blanks, in the list
      text is in the list; a list of neither kind matches nothing. */
  lemma InListMembers(obj: Value, name: string, valueList: Value, k: nat)
    ensures !valueList.Str? && !valueList.List? ==> !IsParameterValueInList(obj, name, valueList)
    ensures valueList.Str? && k < |Split(valueList.s, ',')|
            && Strip(Split(valueList.s, ',')[k]) == PyStr(GetParameterValue(obj, name, Null, false))
            && PyStr(GetParameterValue(obj, name, Null, false)) != []
            ==> IsParameterValueInList(obj, name, valueList)
  {
    if valueList.Str? && k < |Split(valueList.s, ',')| {
      var pieces := Split(valueList.s, ',');
      var t := PyStr(GetParameterValue(obj, name, Null, false));
      if Strip(pieces[k]) == t && t != [] {
        CsvItemsComplete(pieces, k);
        var items := CsvItems(pieces);
        var j :| 0 <= j < |items| && items[j] == Str(t);
        assert PyEq(Str(t), items[j]);
      }
    }
  }

  /** A missing parameter is in any list holding the text "None". */
  lemma MissingInNoneList(obj: Value, name: string)
    requires !HasParameter(obj, name)
    ensures IsParameterValueInList(obj, name, List([Str("None")]))
  {
    assert PyEq(Str(PyStr(Null)), Str("None"));
  }

  /** `check_boolean_value`: a boolean matches when it is the state the targets name; text
      matches when its lower-case form is a target; nothing else matches. */
  predicate CheckBooleanValue(v: Value, targets: seq<string>) {
    match v
    case Bool(b) => b == ("true" in targets)
    case Str(s) => Lower(s) in targets
    case _ => false
  }

  const TrueWords: seq<string> := ["yes", "true", "1"]
  const FalseWords: seq<string> := ["no", "false", "0"]

  /** `is_parameter_value_true` */
  predicate IsParameterValueTrue(obj: Value, name: string)
    ensures IsParameterValueTrue(obj, name) ==>
              GetParameterValue(obj, name, Null, false).Bool? || GetParameterValue(obj, name, Null, false).Str?
  {
    CheckBooleanValue(GetParameterValue(obj, name, Null, false), TrueWords)
  }

  /** `is_parameter_value_false` */
  predicate IsParameterValueFalse(obj: Value, name: string)
    ensures IsParameterValueFalse(obj, name) ==>
              GetParameterValue(obj, name, Null, false).Bool? || GetParameterValue(obj, name, Null, false).Str?
  {
    CheckBooleanValue(GetParameterValue(obj, name, Null, false), FalseWords)
  }

  /** No value is both true and false; values that are neither booleans nor text are
      neither; a boolean is exactly one of the two. */
  lemma TrueFalseExclusive(obj: Value, name: string)
    ensures !(IsParameterValueTrue(obj, name) && IsParameterValueFalse(obj, name))
    ensures var v := GetParameterValue(obj, name, Null, false);
      !v.Bool? && !v.Str? ==> !IsParameterValueTrue(obj, name) && !IsParameterValueFalse(obj, name)
    ensures var v := GetParameterValue(obj, name, Null, false);
      v.Bool? ==> (IsParameterValueTrue(obj, name) <==> v.b) && (IsParameterValueFalse(obj, name) <==> !v.b)
  {
    assert "true" in TrueWords && "true" !in FalseWords;
  }

  // ===========================================================================
  // Categories

  /** `has_category` */
  predicate HasCategory(obj: Value) {
    HasParameter(obj, "category")
  }

  /** `get_category_value`: the converted category, or `None`. */
  function GetCategoryValue(obj: Value): (r: Value)
    ensures r != Null ==> HasCategory(obj)
  {
    GetParameterValueDefault(obj, "category", Null, false);
    GetParameterValue(obj, "category", Null, false)
  }

  /** `is_category`: plain `==` between the category (or `None`) and the input. */
  predicate IsCategory(obj: Value, category: Value) {
    PyEq(GetCategoryValue(obj), category)
  }

  /** An object without a category is "of category" exactly `None`; `is_category` is
      "matches" on the "category" parameter. */
  lemma IsCategoryMatches(obj: Value, category: Value)
    ensures IsCategory(obj, category) == IsParameterValue(obj, "category", category)
    ensures !HasCategory(obj) ==> (IsCategory(obj, category) <==> category == Null)
  {
  }
}
