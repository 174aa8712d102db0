/** Evaluation of rule groups against model elements: the structure check of a group, its
    split into filters and a final check, the dispatch of one condition to its predicate, the
    filter-then-check pass/fail split, and the annotations reported for each group. */
module RuleProcessor {
  import opened Text
  import opened PyValues
  import opened PropertyRules
  import opened Predicates
  import DisplayRules

  /** One row of the rule table: its cells by column name. */
  type Row = map<string, Value>

  /** The rows of one rule, in table order, with the columns of the table. */
  datatype Group = Group(columns: set<string>, rows: seq<Row>)

  // ===========================================================================
  // Structure of a group

  /** `rule_group["Logic"].str.upper()` for one row: `Nothing` for a cell that is not text. */
  function LogicOf(row: Row): Option<string> {
    if "Logic" in row && row["Logic"].Str? then Some(Upper(row["Logic"].s)) else Nothing
  }

  predicate IsCheck(row: Row) {
    LogicOf(row) == Some("CHECK")
  }

  predicate IsAnd(row: Row) {
    LogicOf(row) == Some("AND")
  }

  predicate IsWhere(row: Row) {
    LogicOf(row) == Some("WHERE")
  }

  predicate IsValidLogic(row: Row) {
    IsWhere(row) || IsAnd(row) || IsCheck(row)
  }

  /** The number of CHECK rows. */
  function CountChecks(rows: seq<Row>): (r: nat)
    ensures r <= |rows|
    ensures r == 0 <==> forall k :: 0 <= k < |rows| ==> !IsCheck(rows[k])
  {
    if rows == [] then 0 else (if IsCheck(rows[0]) then 1 else 0) + CountChecks(rows[1..])
  }

  /** The error of a structure check whose message names the rule number: reading the rule
      number raises KeyError when the group has no such column. */
  function RuleError(g: Group, msg: string): Result<()> {
    if "Rule Number" in g.columns then Err(ValueError(msg)) else Err(KeyError("Rule Number"))
  }

  /** `validate_rule_structure`: an empty group passes; otherwise there must be a Logic
      column, the first row must be WHERE, there may be at most one CHECK and it must be the
      last row, and every row must be WHERE, AND or CHECK. */
  function ValidateRuleStructure(g: Group): (r: Result<()>)
    ensures g.rows == [] ==> r == Ok(())
    ensures r.Err? ==> r.error.ValueError? || r.error == KeyError("Rule Number")
    ensures r.Ok? && g.rows != [] ==> "Logic" in g.columns && IsWhere(g.rows[0]) && CountChecks(g.rows) <= 1
  {
    if g.rows == [] then Ok(())
    else if "Logic" !in g.columns then Err(ValueError("Rule must have a 'Logic' column"))
    else if !IsWhere(g.rows[0]) then RuleError(g, "must start with WHERE")
    else if CountChecks(g.rows) > 1 then RuleError(g, "has multiple CHECK conditions")
    else if CountChecks(g.rows) == 1 && !IsCheck(g.rows[|g.rows| - 1]) then RuleError(g, "CHECK must be the last condition")
    else if exists k :: 0 <= k < |g.rows| && !IsValidLogic(g.rows[k]) then Err(ValueError("Invalid Logic values found"))
    else Ok(())
  }

  /** A well-formed group. */
  predicate ValidStructure(g: Group) {
    |g.rows| > 0 && IsWhere(g.rows[0])
    && (forall k :: 0 <= k < |g.rows| ==> IsValidLogic(g.rows[k]))
    && (forall k :: 0 <= k < |g.rows| - 1 ==> !IsCheck(g.rows[k]))
  }

  /** At most one CHECK, and that one last, is the same as no CHECK before the last row. */
  lemma {:induction false} ChecksOnlyLast(rows: seq<Row>)
    requires |rows| > 0
    ensures (CountChecks(rows) == 0 || (CountChecks(rows) == 1 && IsCheck(rows[|rows| - 1])))
            <==> (forall k :: 0 <= k < |rows| - 1 ==> !IsCheck(rows[k]))
  {
    if |rows| > 1 {
      ChecksOnlyLast(rows[1..]);
      assert rows[1..][|rows| - 2] == rows[|rows| - 1];
      assert forall k :: 1 <= k < |rows| - 1 ==> rows[k] == rows[1..][k - 1];
      if forall k :: 0 <= k < |rows| - 1 ==> !IsCheck(rows[k]) {
        assert forall k :: 0 <= k < |rows[1..]| - 1 ==> !IsCheck(rows[1..][k]);
      }
    }
  }

  /** The structure check accepts a non-empty group with a Logic column exactly when it is
      well formed; a rejection is a ValueError once the rule number can be read. */
  lemma ValidateMeaning(g: Group)
    requires |g.rows| > 0 && "Logic" in g.columns
    ensures ValidateRuleStructure(g).Ok? <==> ValidStructure(g)
    ensures "Rule Number" in g.columns && ValidateRuleStructure(g).Err? ==>
              ValidateRuleStructure(g).error.ValueError?
  {
    ChecksOnlyLast(g.rows);
  }

  /** A group without a Logic column is rejected with ValueError, an empty group is
      accepted. */
  lemma ValidateEdges(g: Group)
    ensures g.rows == [] ==> ValidateRuleStructure(g) == Ok(())
    ensures g.rows != [] && "Logic" !in g.columns ==>
              ValidateRuleStructure(g).Err? && ValidateRuleStructure(g).error.ValueError?
  {
  }

  // ===========================================================================
  // Filters and the final check

  function FirstCheck(rows: seq<Row>): (r: Option<nat>)
    ensures r.Some? ==> r.value < |rows| && IsCheck(rows[r.value])
                        && forall k :: 0 <= k < r.value ==> !IsCheck(rows[k])
    ensures r.Nothing? ==> forall k :: 0 <= k < |rows| ==> !IsCheck(rows[k])
  {
    if rows == [] then Nothing
    else if IsCheck(rows[0]) then Some(0)
    else match FirstCheck(rows[1..])
      case Nothing => Nothing
      case Some(i) => Some(i + 1)
  }

  function LastAnd(rows: seq<Row>): (r: Option<nat>)
    ensures r.Some? ==> r.value < |rows| && IsAnd(rows[r.value])
                        && forall k :: r.value < k < |rows| ==> !IsAnd(rows[k])
    ensures r.Nothing? ==> forall k :: 0 <= k < |rows| ==> !IsAnd(rows[k])
  {
    if rows == [] then Nothing
    else if IsAnd(rows[|rows| - 1]) then Some(|rows| - 1)
    else LastAnd(rows[..|rows| - 1])
  }

  /** The rows that are not CHECK, in order. */
  function NonCheckRows(rows: seq<Row>): (r: seq<Row>)
    ensures |r| <= |rows|
    ensures forall k :: 0 <= k < |r| ==> r[k] in rows && !IsCheck(r[k])
  {
    if rows == [] then []
    else if IsCheck(rows[0]) then NonCheckRows(rows[1..])
    else [rows[0]] + NonCheckRows(rows[1..])
  }

  lemma {:induction false} NonCheckRowsAll(rows: seq<Row>)
    requires forall k :: 0 <= k < |rows| ==> !IsCheck(rows[k])
    ensures NonCheckRows(rows) == rows
  {
    if rows != [] {
      NonCheckRowsAll(rows[1..]);
    }
  }

  /** Every row of `sub` is a row of `rows`. */
  predicate RowsOf(sub: seq<Row>, rows: seq<Row>) {
    forall k :: 0 <= k < |sub| ==> sub[k] in rows
  }

  /** `get_filters_and_check`: with a CHECK, the first CHECK is the check and every other row
      a filter; otherwise the last AND is the check and the rows before it the filters;
      otherwise every row is a filter and the first row is also the check. */
  function GetFiltersAndCheck(g: Group): (r: (seq<Row>, Row))
    ensures |r.0| <= |g.rows|
    ensures RowsOf(r.0, g.rows)
    ensures g.rows != [] ==> r.1 in g.rows
  {
    if g.rows == [] then ([], map[])
    else match FirstCheck(g.rows)
      case Some(c) => (NonCheckRows(g.rows), g.rows[c])
      case Nothing =>
        match LastAnd(g.rows)
        case Some(a) => (g.rows[..a], g.rows[a])
        case Nothing => (g.rows, g.rows[0])
  }

  /** On a well-formed group: a CHECK is the last row and the other rows are the filters; an
      AND-terminated group checks its last AND after the rows before it; a WHERE-only group
      filters by every row and checks its first row again. */
  lemma FiltersAndCheckShape(g: Group)
    requires ValidStructure(g)
    ensures var (filters, check) := GetFiltersAndCheck(g);
      var n := |g.rows|;
      if IsCheck(g.rows[n - 1]) then filters == g.rows[..n - 1] && check == g.rows[n - 1]
      else if LastAnd(g.rows).Some? then
        filters == g.rows[..LastAnd(g.rows).value] && check == g.rows[LastAnd(g.rows).value]
        && |filters| >= 1 && filters[0] == g.rows[0]
      else filters == g.rows && check == g.rows[0] && forall k :: 0 <= k < n ==> IsWhere(g.rows[k])
  {
    var n := |g.rows|;
    if IsCheck(g.rows[n - 1]) {
      assert FirstCheck(g.rows) == Some(n - 1);
      assert g.rows == g.rows[..n - 1] + [g.rows[n - 1]];
      NonCheckSplit(g.rows[..n - 1], g.rows[n - 1]);
      NonCheckRowsAll(g.rows[..n - 1]);
    } else if LastAnd(g.rows).Some? {
      assert IsWhere(g.rows[0]);
    }
  }

  lemma NonCheckSplit(rows: seq<Row>, last: Row)
    requires IsCheck(last)
    ensures NonCheckRows(rows + [last]) == NonCheckRows(rows)
  {
    if rows == [] {
      assert rows + [last] == [last];
    } else {
      assert (rows + [last])[1..] == rows[1..] + [last];
      NonCheckSplit(rows[1..], last);
    }
  }

  // ===========================================================================
  // One condition

  /** The methods of `PropertyRules` a predicate name can resolve to. */
  datatype PredicateMethod =
    | HasParameterMethod
    | IsParameterValueMethod
    | GreaterThanMethod
    | LessThanMethod
    | InRangeMethod
    | InListMethod
    | IsEqualValueMethod
    | IsIdenticalValueMethod
    | IsNotEqualValueMethod
    | IsTrueMethod
    | IsFalseMethod
    | IsLikeMethod
    | ContainingMethod
    | NotContainingMethod

  /** `getattr(PropertyRules, name, None)` over the predicate methods `PropertyRules`
      defines. */
  function ResolveMethod(name: string): Option<PredicateMethod> {
    if name == "has_parameter" then Some(HasParameterMethod)
    else if name == "is_parameter_value" then Some(IsParameterValueMethod)
    else if name == "is_parameter_value_greater_than" then Some(GreaterThanMethod)
    else if name == "is_parameter_value_less_than" then Some(LessThanMethod)
    else if name == "is_parameter_value_in_range" then Some(InRangeMethod)
    else if name == "is_parameter_value_in_list" then Some(InListMethod)
    else if name == "is_equal_value" then Some(IsEqualValueMethod)
    else if name == "is_identical_value" then Some(IsIdenticalValueMethod)
    else if name == "is_not_equal_value" then Some(IsNotEqualValueMethod)
    else if name == "is_parameter_value_true" then Some(IsTrueMethod)
    else if name == "is_parameter_value_false" then Some(IsFalseMethod)
    else if name == "is_parameter_value_like" then Some(IsLikeMethod)
    else if name == "is_parameter_value_containing" then Some(ContainingMethod)
    else if name == "is_parameter_value_not_containing" then Some(NotContainingMethod)
    else Nothing
  }

  /** `method(speckle_object, property_name, value)`: the two-argument boolean predicates
      reject a third argument; a property name that is not text fails at `split`, after the
      range of "in range" has been parsed. */
  function CallPredicate(p: PredicateMethod, obj: Value, name: Value, value: Value, m: Matchers): Result<bool> {
    if p.IsTrueMethod? || p.IsFalseMethod? then Err(TypeError("takes 2 positional arguments but 3 were given"))
    else if p.InRangeMethod? && RangeBounds(value).Err? then Err(RangeBounds(value).error)
    else if !name.Str? then Err(AttributeError("object has no attribute 'split'"))
    else
      var n := name.s;
      match p
      case HasParameterMethod => Ok(HasParameter(obj, n))
      case IsParameterValueMethod => Ok(IsParameterValue(obj, n, value))
      case GreaterThanMethod => IsParameterValueGreaterThan(obj, n, value)
      case LessThanMethod => IsParameterValueLessThan(obj, n, value)
      case InRangeMethod => IsParameterValueInRange(obj, n, value)
      case InListMethod => Ok(IsParameterValueInList(obj, n, value))
      case IsEqualValueMethod => IsEqualValue(obj, n, value, false, DefaultTolerance)
      case IsIdenticalValueMethod => IsIdenticalValue(obj, n, value)
      case IsNotEqualValueMethod => IsNotEqualValue(obj, n, value, false, DefaultTolerance)
      case IsLikeMethod => IsParameterValueLike(obj, n, value, false, DefaultLikeThreshold, m)
      case ContainingMethod => Ok(IsParameterValueContaining(obj, n, value))
      case NotContainingMethod => Ok(IsParameterValueNotContaining(obj, n, value))
  }

  /** `condition.get("Property Name", condition.get("Property Path"))` */
  function PropertyNameOf(row: Row): Value {
    if "Property Name" in row then row["Property Name"]
    else if "Property Path" in row then row["Property Path"]
    else Null
  }

  /** `evaluate_condition`: the predicate word is looked up verbatim; an unknown word, or one
      whose method does not exist, is false; otherwise the method decides. */
  function EvaluateCondition(obj: Value, row: Row, m: Matchers): (r: Result<bool>)
    ensures "Predicate" !in row ==> r == Err(KeyError("Predicate"))
    ensures "Predicate" in row && "Value" in row && !(row["Predicate"].Str? && row["Predicate"].s in PredicateMethodMap)
            ==> r == Ok(false)
  {
    if "Predicate" !in row then Err(KeyError("Predicate"))
    else if "Value" !in row then Err(KeyError("Value"))
    else
      var key := row["Predicate"];
      if key.Str? && key.s in PredicateMethodMap then
        match ResolveMethod(PredicateMethodMap[key.s])
        case Nothing => Ok(false)
        case Some(p) => CallPredicate(p, obj, PropertyNameOf(row), row["Value"], m)
      else Ok(false)
  }

  /** A word of the table evaluates by the method it names, when that method exists. */
  lemma EvaluateWord(obj: Value, row: Row, m: Matchers, word: string)
    requires "Predicate" in row && "Value" in row && row["Predicate"] == Str(word)
    requires word in PredicateMethodMap
    ensures EvaluateCondition(obj, row, m)
            == match ResolveMethod(PredicateMethodMap[word])
               case Nothing => Ok(false)
               case Some(p) => CallPredicate(p, obj, PropertyNameOf(row), row["Value"], m)
  {
  }

  /** The methods the table's words resolve to, for the words used below. */
  lemma WordMethods()
    ensures ResolveMethod(PredicateMethodMap["not identical"]) == Nothing
    ensures ResolveMethod(PredicateMethodMap["true"]) == Some(IsTrueMethod)
    ensures ResolveMethod(PredicateMethodMap["false"]) == Some(IsFalseMethod)
    ensures ResolveMethod(PredicateMethodMap["exists"]) == Some(HasParameterMethod)
  {
  }

  lemma ComparisonWordMethods()
    ensures ResolveMethod(PredicateMethodMap["equals"]) == Some(IsEqualValueMethod)
    ensures ResolveMethod(PredicateMethodMap["matches"]) == Some(IsParameterValueMethod)
  {
  }

  /** Unknown words, words in another case, and "not identical" are false for every
      object; "true" and "false" always raise. */
  lemma EvaluateConditionDispatch(obj: Value, row: Row, m: Matchers)
    requires "Predicate" in row && "Value" in row
    ensures !row["Predicate"].Str? || row["Predicate"].s !in PredicateMethodMap ==>
              EvaluateCondition(obj, row, m) == Ok(false)
    ensures row["Predicate"] == Str("not identical") ==> EvaluateCondition(obj, row, m) == Ok(false)
    ensures row["Predicate"] == Str("true") || row["Predicate"] == Str("false") ==>
              EvaluateCondition(obj, row, m).Err? && EvaluateCondition(obj, row, m).error.TypeError?
  {
    var key := row["Predicate"];
    if key.Str? && key.s in PredicateMethodMap {
      WordMethods();
      EvaluateWord(obj, row, m, key.s);
      if key.s == "true" || key.s == "false" {
        TwoArgumentMethods(obj, PropertyNameOf(row), row["Value"], m);
      }
    }
  }

  /** The two-argument predicates refuse the row's value. */
  lemma TwoArgumentMethods(obj: Value, name: Value, value: Value, m: Matchers)
    ensures CallPredicate(IsTrueMethod, obj, name, value, m).Err?
    ensures CallPredicate(IsTrueMethod, obj, name, value, m).error.TypeError?
    ensures CallPredicate(IsFalseMethod, obj, name, value, m).Err?
    ensures CallPredicate(IsFalseMethod, obj, name, value, m).error.TypeError?
  {
  }

  /** "exists" is `has_parameter` on the row's property name. */
  lemma EvaluateExists(obj: Value, row: Row, m: Matchers)
    requires "Predicate" in row && "Value" in row && row["Predicate"] == Str("exists")
    requires PropertyNameOf(row).Str?
    ensures EvaluateCondition(obj, row, m) == Ok(HasParameter(obj, PropertyNameOf(row).s))
  {
    WordMethods();
    EvaluateWord(obj, row, m, "exists");
  }

  /** "equals" is `is_equal_value` with its defaults; "matches" is plain `==`. */
  lemma EvaluateEqualsAndMatches(obj: Value, row: Row, m: Matchers)
    requires "Predicate" in row && "Value" in row && PropertyNameOf(row).Str?
    ensures row["Predicate"] == Str("equals") ==>
              EvaluateCondition(obj, row, m)
              == IsEqualValue(obj, PropertyNameOf(row).s, row["Value"], false, DefaultTolerance)
    ensures row["Predicate"] == Str("matches") ==>
              EvaluateCondition(obj, row, m) == Ok(IsParameterValue(obj, PropertyNameOf(row).s, row["Value"]))
  {
    ComparisonWordMethods();
    var name := PropertyNameOf(row);
    if row["Predicate"] == Str("equals") {
      EvaluateWord(obj, row, m, "equals");
      assert EvaluateCondition(obj, row, m) == CallPredicate(IsEqualValueMethod, obj, name, row["Value"], m);
    } else if row["Predicate"] == Str("matches") {
      EvaluateWord(obj, row, m, "matches");
      assert EvaluateCondition(obj, row, m) == CallPredicate(IsParameterValueMethod, obj, name, row["Value"], m);
    }
  }

  /** "Property Name" wins over "Property Path", even when its cell is empty. */
  lemma PropertyNamePreferred(row: Row)
    ensures "Property Name" in row ==> PropertyNameOf(row) == row["Property Name"]
    ensures "Property Name" !in row && "Property Path" in row ==> PropertyNameOf(row) == row["Property Path"]
  {
  }

  // ===========================================================================
  // Filter then check

  /** The outcome of evaluating one condition, as a function of the object. */
  function Condition(row: Row, m: Matchers): Value -> Result<bool> {
    o => EvaluateCondition(o, row, m)
  }

  /** The list comprehension of one filter: the objects the condition holds for, in order;
      the first object whose evaluation raises stops it. */
  function FilterBy(objs: seq<Value>, eval: Value -> Result<bool>): Result<seq<Value>>
    decreases |objs|
  {
    if objs == [] then Ok([])
    else
      var kept :- FilterBy(objs[..|objs| - 1], eval);
      var holds :- eval(objs[|objs| - 1]);
      Ok(if holds then kept + [objs[|objs| - 1]] else kept)
  }

  /** The filters applied in turn; once nothing is left the rest are not evaluated. */
  function ApplyFilters(objs: seq<Value>, filters: seq<Row>, m: Matchers): Result<seq<Value>>
    decreases |filters|
  {
    if filters == [] then Ok(objs)
    else
      var before :- ApplyFilters(objs, filters[..|filters| - 1], m);
      if before == [] then Ok([]) else FilterBy(before, Condition(filters[|filters| - 1], m))
  }

  /** The pass/fail split of the survivors by the final check. */
  function Partition(objs: seq<Value>, eval: Value -> Result<bool>): Result<(seq<Value>, seq<Value>)>
    decreases |objs|
  {
    if objs == [] then Ok(([], []))
    else
      var split :- Partition(objs[..|objs| - 1], eval);
      var holds :- eval(objs[|objs| - 1]);
      Ok(if holds then (split.0 + [objs[|objs| - 1]], split.1) else (split.0, split.1 + [objs[|objs| - 1]]))
  }

  /** `process_rule`: nothing for no objects, an empty group or a group the structure check
      rejects with ValueError; otherwise the filters, then the pass/fail split. */
  function ProcessRuleSpec(objs: seq<Value>, g: Group, m: Matchers): Result<(seq<Value>, seq<Value>)> {
    if objs == [] || g.rows == [] then Ok(([], []))
    else match ValidateRuleStructure(g)
      case Err(e) => if e.ValueError? then Ok(([], [])) else Err(e)
      case Ok(_) =>
        if "Rule Number" !in g.columns then Err(KeyError("Rule Number"))
        else
          var survivors :- ApplyFilters(objs, GetFiltersAndCheck(g).0, m);
          Partition(survivors, Condition(GetFiltersAndCheck(g).1, m))
  }

  /** `a` is `b` with some elements left out, order kept. */
  predicate SubsequenceOf(a: seq<Value>, b: seq<Value>)
    decreases |b|
  {
    a == [] || (b != [] && ((a[|a| - 1] == b[|b| - 1] && SubsequenceOf(a[..|a| - 1], b[..|b| - 1]))
                            || SubsequenceOf(a, b[..|b| - 1])))
  }

  lemma {:induction false} SubsequenceOfTrans(a: seq<Value>, b: seq<Value>, c: seq<Value>)
    requires SubsequenceOf(a, b) && SubsequenceOf(b, c)
    ensures SubsequenceOf(a, c)
    decreases |c|
  {
    if a != [] && b != [] && c != [] {
      if b[|b| - 1] == c[|c| - 1] && SubsequenceOf(b[..|b| - 1], c[..|c| - 1]) {
        if a[|a| - 1] == b[|b| - 1] && SubsequenceOf(a[..|a| - 1], b[..|b| - 1]) {
          SubsequenceOfTrans(a[..|a| - 1], b[..|b| - 1], c[..|c| - 1]);
        } else {
          SubsequenceOfTrans(a, b[..|b| - 1], c[..|c| - 1]);
        }
      } else {
        SubsequenceOfTrans(a, b, c[..|c| - 1]);
      }
    }
  }

  lemma {:induction false} SubsequenceOfSelf(a: seq<Value>)
    ensures SubsequenceOf(a, a)
    decreases |a|
  {
    if a != [] {
      SubsequenceOfSelf(a[..|a| - 1]);
    }
  }

  lemma {:induction false} SubsequenceMembers(a: seq<Value>, b: seq<Value>)
    requires SubsequenceOf(a, b)
    ensures |a| <= |b| && forall x :: x in a ==> x in b
    decreases |b|
  {
    if a != [] {
      if a[|a| - 1] == b[|b| - 1] && SubsequenceOf(a[..|a| - 1], b[..|b| - 1]) {
        SubsequenceMembers(a[..|a| - 1], b[..|b| - 1]);
        assert a == a[..|a| - 1] + [a[|a| - 1]];
      } else {
        SubsequenceMembers(a, b[..|b| - 1]);
      }
    }
  }

  /** Appending one element to both sides keeps a subsequence. */
  lemma SubsequenceSnoc(a: seq<Value>, b: seq<Value>, x: Value)
    requires SubsequenceOf(a, b)
    ensures SubsequenceOf(a + [x], b + [x]) && SubsequenceOf(a, b + [x])
  {
    assert (a + [x])[..|a|] == a;
    assert (b + [x])[..|b|] == b;
  }

  /** A filter keeps, in order, exactly the objects its condition holds for. */
  lemma {:induction false} FilterBySound(objs: seq<Value>, eval: Value -> Result<bool>)
    requires FilterBy(objs, eval).Ok?
    ensures SubsequenceOf(FilterBy(objs, eval).value, objs)
    ensures forall x :: x in FilterBy(objs, eval).value ==> eval(x) == Ok(true)
    ensures forall k :: 0 <= k < |objs| && eval(objs[k]) == Ok(true) ==> objs[k] in FilterBy(objs, eval).value
    decreases |objs|
  {
    if objs != [] {
      var front := objs[..|objs| - 1];
      var last := objs[|objs| - 1];
      FilterBySound(front, eval);
      var kept := FilterBy(front, eval).value;
      assert objs == front + [last];
      SubsequenceSnoc(kept, front, last);
      forall k | 0 <= k < |objs| && eval(objs[k]) == Ok(true)
        ensures objs[k] in FilterBy(objs, eval).value
      {
        if k < |objs| - 1 {
          assert objs[k] == front[k];
        }
      }
    }
  }

  /** The survivors of the filters come in input order. */
  lemma {:induction false} ApplyFiltersOrder(objs: seq<Value>, filters: seq<Row>, m: Matchers)
    requires ApplyFilters(objs, filters, m).Ok?
    ensures SubsequenceOf(ApplyFilters(objs, filters, m).value, objs)
    decreases |filters|
  {
    if filters == [] {
      SubsequenceOfSelf(objs);
    } else {
      var front := filters[..|filters| - 1];
      ApplyFiltersOrder(objs, front, m);
      var before := ApplyFilters(objs, front, m).value;
      if before != [] {
        var eval := Condition(filters[|filters| - 1], m);
        FilterBySound(before, eval);
        SubsequenceOfTrans(FilterBy(before, eval).value, before, objs);
      }
    }
  }

  /** `x` satisfies every one of the filters. */
  predicate PassesAll(x: Value, filters: seq<Row>, m: Matchers) {
    forall j :: 0 <= j < |filters| ==> EvaluateCondition(x, filters[j], m) == Ok(true)
  }

  lemma PassesAllSnoc(x: Value, filters: seq<Row>, m: Matchers)
    requires filters != []
    requires PassesAll(x, filters[..|filters| - 1], m)
    requires Condition(filters[|filters| - 1], m)(x) == Ok(true)
    ensures PassesAll(x, filters, m)
  {
    forall j | 0 <= j < |filters| - 1
      ensures EvaluateCondition(x, filters[j], m) == Ok(true)
    {
      assert filters[j] == filters[..|filters| - 1][j];
    }
  }

  /** Every object the filters keep satisfied every filter. */
  lemma {:induction false} ApplyFiltersSound(objs: seq<Value>, filters: seq<Row>, m: Matchers)
    requires ApplyFilters(objs, filters, m).Ok?
    ensures forall x :: x in ApplyFilters(objs, filters, m).value ==> PassesAll(x, filters, m)
    decreases |filters|
  {
    if filters != [] {
      var front := filters[..|filters| - 1];
      ApplyFiltersSound(objs, front, m);
      var before := ApplyFilters(objs, front, m).value;
      if before != [] {
        var eval := Condition(filters[|filters| - 1], m);
        FilterBySound(before, eval);
        var after := FilterBy(before, eval).value;
        assert ApplyFilters(objs, filters, m) == Ok(after);
        SubsequenceMembers(after, before);
        forall x | x in after
          ensures PassesAll(x, filters, m)
        {
          PassesAllSnoc(x, filters, m);
        }
      }
    }
  }

  /** The split puts every survivor into exactly one of the two lists. */
  lemma {:induction false} PartitionCounts(objs: seq<Value>, eval: Value -> Result<bool>)
    requires Partition(objs, eval).Ok?
    ensures var (pass, fail) := Partition(objs, eval).value;
      |pass| + |fail| == |objs| && multiset(pass) + multiset(fail) == multiset(objs)
    decreases |objs|
  {
    if objs != [] {
      var front := objs[..|objs| - 1];
      var last := objs[|objs| - 1];
      PartitionCounts(front, eval);
      var (p, f) := Partition(front, eval).value;
      var holds := eval(last).value;
      assert Partition(objs, eval).value == if holds then (p + [last], f) else (p, f + [last]);
      assert objs == front + [last];
      assert multiset(objs) == multiset(front) + multiset{last};
    }
  }

  /** Both lists keep the order of the survivors. */
  lemma {:induction false} PartitionOrder(objs: seq<Value>, eval: Value -> Result<bool>)
    requires Partition(objs, eval).Ok?
    ensures SubsequenceOf(Partition(objs, eval).value.0, objs)
    ensures SubsequenceOf(Partition(objs, eval).value.1, objs)
    decreases |objs|
  {
    if objs != [] {
      var front := objs[..|objs| - 1];
      var last := objs[|objs| - 1];
      PartitionOrder(front, eval);
      var (p, f) := Partition(front, eval).value;
      assert objs == front + [last];
      SubsequenceSnoc(p, front, last);
      SubsequenceSnoc(f, front, last);
    }
  }

  /** The objects the check holds for pass and the others fail. */
  lemma {:induction false} PartitionChecks(objs: seq<Value>, eval: Value -> Result<bool>)
    requires Partition(objs, eval).Ok?
    ensures forall x :: x in Partition(objs, eval).value.0 ==> eval(x) == Ok(true)
    ensures forall x :: x in Partition(objs, eval).value.1 ==> eval(x) == Ok(false)
    decreases |objs|
  {
    if objs != [] {
      PartitionChecks(objs[..|objs| - 1], eval);
    }
  }

  /** When the check holds for every survivor, nothing fails. */
  lemma {:induction false} PartitionAllHold(objs: seq<Value>, eval: Value -> Result<bool>)
    requires forall x :: x in objs ==> eval(x) == Ok(true)
    ensures Partition(objs, eval) == Ok((objs, []))
    decreases |objs|
  {
    if objs != [] {
      var front := objs[..|objs| - 1];
      assert forall x :: x in front ==> x in objs;
      PartitionAllHold(front, eval);
      assert objs == front + [objs[|objs| - 1]];
    }
  }

  /** Nothing to do: no objects, an empty group, or a group rejected with ValueError. */
  lemma ProcessRuleNothing(objs: seq<Value>, g: Group, m: Matchers)
    requires objs == [] || g.rows == []
             || (ValidateRuleStructure(g).Err? && ValidateRuleStructure(g).error.ValueError?)
    ensures ProcessRuleSpec(objs, g, m) == Ok(([], []))
  {
  }

  /** The passed and failed objects are disjoint ordered selections of the input: each
      satisfied every filter, the passed ones satisfy the check and the failed ones do not. */
  lemma ProcessRuleSound(objs: seq<Value>, g: Group, m: Matchers)
    requires ProcessRuleSpec(objs, g, m).Ok?
    ensures var (pass, fail) := ProcessRuleSpec(objs, g, m).value;
      var (filters, check) := GetFiltersAndCheck(g);
      SubsequenceOf(pass, objs) && SubsequenceOf(fail, objs)
      && (forall x, j :: (x in pass || x in fail) && 0 <= j < |filters| ==>
            EvaluateCondition(x, filters[j], m) == Ok(true))
      && (forall x :: x in pass ==> EvaluateCondition(x, check, m) == Ok(true))
      && (forall x :: x in fail ==> EvaluateCondition(x, check, m) == Ok(false))
  {
    var (pass, fail) := ProcessRuleSpec(objs, g, m).value;
    if objs == [] || g.rows == [] || ValidateRuleStructure(g).Err? {
      assert pass == [] && fail == [];
    } else {
      var (filters, check) := GetFiltersAndCheck(g);
      ApplyFiltersSound(objs, filters, m);
      ApplyFiltersOrder(objs, filters, m);
      var survivors := ApplyFilters(objs, filters, m).value;
      PartitionOrder(survivors, Condition(check, m));
      PartitionChecks(survivors, Condition(check, m));
      SubsequenceOfTrans(pass, survivors, objs);
      SubsequenceOfTrans(fail, survivors, objs);
      SubsequenceMembers(pass, survivors);
      SubsequenceMembers(fail, survivors);
    }
  }

  /** A group of WHERE rows only never fails an object: its check is its first filter. */
  lemma WhereOnlyNeverFails(objs: seq<Value>, g: Group, m: Matchers)
    requires forall k :: 0 <= k < |g.rows| ==> IsWhere(g.rows[k])
    requires ProcessRuleSpec(objs, g, m).Ok?
    ensures ProcessRuleSpec(objs, g, m).value.1 == []
  {
    var (pass, fail) := ProcessRuleSpec(objs, g, m).value;
    if objs != [] && g.rows != [] && ValidateRuleStructure(g).Ok? {
      ValidateMeaning(g);
      FiltersAndCheckShape(g);
      var (filters, check) := GetFiltersAndCheck(g);
      ApplyFiltersSound(objs, filters, m);
      var survivors := ApplyFilters(objs, filters, m).value;
      assert forall x :: x in survivors ==> EvaluateCondition(x, filters[0], m) == Ok(true);
      PartitionAllHold(survivors, Condition(check, m));
    }
  }

  lemma {:induction false} FilterByPrefixError(objs: seq<Value>, eval: Value -> Result<bool>, i: nat)
    requires i <= |objs| && FilterBy(objs[..i], eval).Err?
    ensures FilterBy(objs, eval) == FilterBy(objs[..i], eval)
    decreases |objs| - i
  {
    if i < |objs| {
      assert objs[..i + 1][..i] == objs[..i];
      FilterByPrefixError(objs, eval, i + 1);
    } else {
      assert objs[..i] == objs;
    }
  }

  /** The list comprehension of one filter. */
  method FilterObjects(objs: seq<Value>, eval: Value -> Result<bool>) returns (r: Result<seq<Value>>)
    ensures r == FilterBy(objs, eval)
  {
    var kept: seq<Value> := [];
    var i := 0;
    while i < |objs|
      invariant 0 <= i <= |objs|
      invariant FilterBy(objs[..i], eval) == Ok(kept)
    {
      assert objs[..i + 1][..i] == objs[..i];
      var holds := eval(objs[i]);
      if holds.Err? {
        FilterByPrefixError(objs, eval, i + 1);
        return Err(holds.error);
      }
      if holds.value {
        kept := kept + [objs[i]];
      }
      i := i + 1;
    }
    assert objs[..i] == objs;
    return Ok(kept);
  }

  lemma {:induction false} ApplyFiltersPrefixStops(objs: seq<Value>, filters: seq<Row>, m: Matchers, i: nat)
    requires i <= |filters|
    requires ApplyFilters(objs, filters[..i], m).Err? || ApplyFilters(objs, filters[..i], m) == Ok([])
    ensures ApplyFilters(objs, filters, m) == ApplyFilters(objs, filters[..i], m)
    decreases |filters| - i
  {
    if i < |filters| {
      assert filters[..i + 1][..i] == filters[..i];
      ApplyFiltersPrefixStops(objs, filters, m, i + 1);
    } else {
      assert filters[..i] == filters;
    }
  }

  /** The filter loop of `process_rule`: each filter narrows the working list, and an empty
      list ends the loop. */
  method ApplyFilterConditions(objs: seq<Value>, filters: seq<Row>, m: Matchers) returns (r: Result<seq<Value>>)
    requires objs != []
    ensures r == ApplyFilters(objs, filters, m)
  {
    var working := objs;
    var i := 0;
    while i < |filters|
      invariant 0 <= i <= |filters|
      invariant ApplyFilters(objs, filters[..i], m) == Ok(working)
      invariant working != []
    {
      assert filters[..i + 1][..i] == filters[..i];
      var next := FilterObjects(working, Condition(filters[i], m));
      if next.Err? {
        ApplyFiltersPrefixStops(objs, filters, m, i + 1);
        return Err(next.error);
      }
      working := next.value;
      if working == [] {
        ApplyFiltersPrefixStops(objs, filters, m, i + 1);
        return Ok([]);
      }
      i := i + 1;
    }
    assert filters[..i] == filters;
    return Ok(working);
  }

  lemma {:induction false} PartitionPrefixError(objs: seq<Value>, eval: Value -> Result<bool>, i: nat)
    requires i <= |objs| && Partition(objs[..i], eval).Err?
    ensures Partition(objs, eval) == Partition(objs[..i], eval)
    decreases |objs| - i
  {
    if i < |objs| {
      assert objs[..i + 1][..i] == objs[..i];
      PartitionPrefixError(objs, eval, i + 1);
    } else {
      assert objs[..i] == objs;
    }
  }

  /** The final loop of `process_rule`: each survivor goes to the passed or the failed list. */
  method PartitionObjects(objs: seq<Value>, eval: Value -> Result<bool>) returns (r: Result<(seq<Value>, seq<Value>)>)
    ensures r == Partition(objs, eval)
  {
    var pass: seq<Value> := [];
    var fail: seq<Value> := [];
    var j := 0;
    while j < |objs|
      invariant 0 <= j <= |objs|
      invariant Partition(objs[..j], eval) == Ok((pass, fail))
    {
      assert objs[..j + 1][..j] == objs[..j];
      var holds := eval(objs[j]);
      if holds.Err? {
        PartitionPrefixError(objs, eval, j + 1);
        return Err(holds.error);
      }
      if holds.value {
        pass := pass + [objs[j]];
      } else {
        fail := fail + [objs[j]];
      }
      j := j + 1;
    }
    assert objs[..j] == objs;
    return Ok((pass, fail));
  }

  /** `process_rule` */
  method ProcessRule(objs: seq<Value>, g: Group, m: Matchers) returns (r: Result<(seq<Value>, seq<Value>)>)
    ensures r == ProcessRuleSpec(objs, g, m)
  {
    if objs == [] || g.rows == [] {
      return Ok(([], []));
    }
    var valid := ValidateRuleStructure(g);
    if valid.Err? {
      if valid.error.ValueError? {
        return Ok(([], []));
      }
      return Err(valid.error);
    }
    if "Rule Number" !in g.columns {
      return Err(KeyError("Rule Number"));
    }
    var (filters, check) := GetFiltersAndCheck(g);
    var survivors := ApplyFilterConditions(objs, filters, m);
    if survivors.Err? {
      return Err(survivors.error);
    }
    r := PartitionObjects(survivors.value, Condition(check, m));
  }

  /** Once the filters leave nothing, the check is never evaluated and nothing is reported. */
  lemma ProcessRuleStopsWhenEmpty(objs: seq<Value>, g: Group, m: Matchers, i: nat)
    requires objs != [] && ValidateRuleStructure(g).Ok? && "Rule Number" in g.columns
    requires i <= |GetFiltersAndCheck(g).0|
    requires ApplyFilters(objs, GetFiltersAndCheck(g).0[..i], m) == Ok([])
    ensures ProcessRuleSpec(objs, g, m) == Ok(([], []))
  {
    ApplyFiltersPrefixStops(objs, GetFiltersAndCheck(g).0, m, i);
  }

  // ===========================================================================
  // Severity

  /** `SeverityLevel`, also standing for the configured `MinimumSeverity`. */
  datatype SeverityLevel = Info | Warning | Error

  /** The enum's value, as reported in the metadata. */
  function SeverityValue(l: SeverityLevel): string {
    match l
    case Info => "Info"
    case Warning => "Warning"
    case Error => "Error"
  }

  /** The order of `severity_levels`: INFO 0, WARNING 1, ERROR 2. */
  function Rank(l: SeverityLevel): (r: nat)
    ensures r <= 2
    ensures l == Info <==> r == 0
    ensures l == Error <==> r == 2
  {
    match l
    case Info => 0
    case Warning => 1
    case Error => 2
  }

  /** `rule_info.get(key)`: the cell, or `None` when the row has no such column. */
  function CellOr(row: Row, key: string): Value {
    if key in row then row[key] else Null
  }

  /** `rule_info[key]`: the cell, or KeyError. */
  function Cell(row: Row, key: string): Result<Value> {
    if key in row then Ok(row[key]) else Err(KeyError(key))
  }

  /** The severity text of a row: "Report Severity" when truthy, otherwise "Severity". */
  function SeverityCell(row: Row): Value {
    if PyTruthy(CellOr(row, "Report Severity")) then CellOr(row, "Report Severity") else CellOr(row, "Severity")
  }

  /** `get_severity`: the trimmed, upper-cased text with WARN read as WARNING, matched
      against the level names; anything else, and any cell that is not text, is ERROR. */
  function GetSeverity(row: Row): (r: SeverityLevel)
    ensures !SeverityCell(row).Str? ==> r == Error
    ensures r != Error ==> SeverityCell(row).Str? && Upper(Strip(SeverityCell(row).s)) in {"INFO", "WARNING", "WARN"}
  {
    var cell := SeverityCell(row);
    if !cell.Str? then Error
    else
      var t := Upper(Strip(cell.s));
      var t' := if t == "WARN" then "WARNING" else t;
      if t' == "INFO" then Info else if t' == "WARNING" then Warning else Error
  }

  /** The level a severity text names, whatever its case and surrounding space. */
  lemma SeverityFromText(row: Row)
    requires SeverityCell(row).Str?
    ensures var t := Upper(Strip(SeverityCell(row).s));
      (GetSeverity(row) == Info <==> t == "INFO")
      && (GetSeverity(row) == Warning <==> t == "WARNING" || t == "WARN")
      && (GetSeverity(row) == Error <==> t != "INFO" && t != "WARNING" && t != "WARN")
  {
  }

  /** Two texts that agree once trimmed and upper-cased give the same level. */
  lemma SeverityIgnoresCaseAndSpace(r1: Row, r2: Row)
    requires SeverityCell(r1).Str? && SeverityCell(r2).Str?
    requires Upper(Strip(SeverityCell(r1).s)) == Upper(Strip(SeverityCell(r2).s))
    ensures GetSeverity(r1) == GetSeverity(r2)
  {
  }

  /** A missing, empty or non-text severity is ERROR. */
  lemma SeverityDefaultsToError(row: Row)
    requires !PyTruthy(CellOr(row, "Report Severity")) || !CellOr(row, "Report Severity").Str?
    requires !CellOr(row, "Severity").Str?
    ensures GetSeverity(row) == Error
  {
  }

  /** Each level's own name reads back as that level. */
  lemma SeverityRoundTrip(row: Row, l: SeverityLevel)
    requires CellOr(row, "Report Severity") == Str(SeverityValue(l))
    ensures GetSeverity(row) == l
  {
    var s := SeverityValue(l);
    StripUnspaced(s);
    assert Strip(s) == s;
  }

  // ===========================================================================
  // Messages, metadata and annotations

  /** `format_message`: the message text, or "No Message" for a missing or NaN cell. */
  function FormatMessage(row: Row): (r: Result<string>)
    ensures r.Err? <==> "Message" !in row
    ensures r.Ok? && row["Message"].Str? ==> r.value == row["Message"].s
  {
    var cell :- Cell(row, "Message");
    Ok(if cell.Null? || cell.NaN? then "No Message" else PyStr(cell))
  }

  /** The metadata attached to a result. */
  datatype Metadata = Metadata(ruleId: string, status: string, severity: string, ruleMessage: string, objectCount: nat)

  /** `get_metadata`: `serialisable` stands for `json.dumps` succeeding; when it does not,
      the metadata is the empty dictionary (`Nothing`). */
  function GetMetadata(ruleId: string, row: Row, passed: bool, count: nat, serialisable: bool): (r: Result<Option<Metadata>>)
    ensures r.Err? <==> "Message" !in row
    ensures r.Ok? ==> (r.value.Some? <==> serialisable)
    ensures r.Ok? && r.value.Some? ==>
              r.value.value.ruleMessage == FormatMessage(row).value && r.value.value.objectCount == count
              && r.value.value.severity == SeverityValue(GetSeverity(row)) && (r.value.value.status == "PASS" <==> passed)
  {
    var message :- FormatMessage(row);
    var md := Metadata(ruleId, if passed then "PASS" else "FAIL", SeverityValue(GetSeverity(row)), message, count);
    Ok(if serialisable then Some(md) else Nothing)
  }

  /** The level of a reported result: `attach_info_to_objects` is INFO, and
      `attach_result_to_objects` is WARNING or ERROR. */
  datatype ResultLevel = InfoLevel | WarningLevel | ErrorLevel

  /** One call on the automation context. */
  datatype Annotation = Annotation(category: string, level: ResultLevel, objectIds: seq<Value>,
                                   message: string, metadata: Option<Metadata>)

  /** `[o.id for o in objects]`: a `Base` object's identifier; any other value has no
      `id` attribute. */
  function ObjectIds(objs: seq<Value>): (r: Result<seq<Value>>)
    ensures r.Ok? ==> |r.value| == |objs|
  {
    if objs == [] then Ok([])
    else
      var rest :- ObjectIds(objs[..|objs| - 1]);
      var last := objs[|objs| - 1];
      if DisplayRules.IsBase(last) then Ok(rest + [DisplayRules.Attr(last, "id")])
      else Err(AttributeError("object has no attribute 'id'"))
  }

  /** The level of a failure: WARNING only for "Warning" or "Warn" once capitalised, with no
      trimming; a cell that is not text has no `capitalize`. */
  function FailureLevel(row: Row): Result<ResultLevel> {
    var cell :- Cell(row, "Report Severity");
    if !cell.Str? then Err(AttributeError("object has no attribute 'capitalize'"))
    else Ok(if Capitalize(cell.s) == "Warning" || Capitalize(cell.s) == "Warn" then WarningLevel else ErrorLevel)
  }

  /** `attach_results`: nothing for no objects, otherwise one annotation in the category
      "Rule <id>" over all their identifiers. */
  function AttachResults(objs: seq<Value>, row: Row, ruleId: string, passed: bool): (r: Result<seq<Annotation>>)
    ensures objs == [] ==> r == Ok([])
    ensures r.Ok? ==> |r.value| <= 1
                      && forall a :: a in r.value ==> a.category == "Rule " + ruleId && |a.objectIds| == |objs|
  {
    if objs == [] then Ok([])
    else
      var metadata :- GetMetadata(ruleId, row, passed, |objs|, true);
      match FormatMessage(row)
      case Err(e) => Err(e)
      case Ok(message) =>
        var level :- if passed then Ok(InfoLevel) else FailureLevel(row);
        var ids :- ObjectIds(objs);
        Ok([Annotation("Rule " + ruleId, level, ids, message, metadata)])
  }

  /** A reported result names every object once, carries the same message as its metadata,
      counts its objects in the metadata, and is INFO exactly when it reports a pass. */
  lemma AttachResultsMeaning(objs: seq<Value>, row: Row, ruleId: string, passed: bool)
    requires AttachResults(objs, row, ruleId, passed).Ok?
    ensures var notes := AttachResults(objs, row, ruleId, passed).value;
      (objs == [] <==> notes == [])
      && (notes != [] ==>
            |notes| == 1 && notes[0].category == "Rule " + ruleId
            && |notes[0].objectIds| == |objs|
            && notes[0].metadata.Some?
            && notes[0].metadata.value.ruleMessage == notes[0].message
            && notes[0].metadata.value.objectCount == |objs|
            && notes[0].metadata.value.ruleId == ruleId
            && (notes[0].level == InfoLevel <==> passed)
            && (notes[0].metadata.value.status == "PASS" <==> passed))
  {
  }

  /** The skipped-rule notice. */
  function SkippedAnnotation(ruleId: string): Annotation {
    Annotation("Rule " + ruleId + " Skipped", InfoLevel, [Str("0")], "No objects found for rule " + ruleId, Nothing)
  }

  /** The group has the two columns reporting needs. */
  predicate Reportable(g: Group) {
    "Message" in g.columns && "Report Severity" in g.columns
  }

  /** The outcome of `process_rule` for each group, for one list of objects. */
  type Processor = Group -> Result<(seq<Value>, seq<Value>)>

  function ProcessWith(objs: seq<Value>, m: Matchers): Processor {
    g => ProcessRuleSpec(objs, g, m)
  }

  /** The passes of a rule, reported only under an INFO minimum. */
  function PassNotes(pass: seq<Value>, last: Row, ruleId: string, minimum: SeverityLevel): Result<seq<Annotation>> {
    if minimum == Info then AttachResults(pass, last, ruleId, true) else Ok([])
  }

  /** The failures of a rule, reported only when its level reaches the minimum. */
  function FailNotes(fail: seq<Value>, last: Row, ruleId: string, minimum: SeverityLevel): Result<seq<Annotation>> {
    if Rank(GetSeverity(last)) >= Rank(minimum) then AttachResults(fail, last, ruleId, false) else Ok([])
  }

  /** The skipped notice, for a rule with no object on either side unless hidden. */
  function SkipNotes(pass: seq<Value>, fail: seq<Value>, ruleId: string, hideSkipped: bool): seq<Annotation> {
    if pass == [] && fail == [] && !hideSkipped then [SkippedAnnotation(ruleId)] else []
  }

  /** The reporting half of one pass of the loop, once the group's split is known: the
      last row decides the severity, reading it from an empty group raises IndexError, and
      the annotations emitted before an error are kept. */
  function ReportSplit(ruleId: string, g: Group, pass: seq<Value>, fail: seq<Value>, minimum: SeverityLevel, hideSkipped: bool)
    : (Result<()>, seq<Annotation>)
  {
    if g.rows == [] then (Err(IndexError("single positional indexer is out-of-bounds")), [])
    else
      var last := g.rows[|g.rows| - 1];
      var passNotes := PassNotes(pass, last, ruleId, minimum);
      if passNotes.Err? then (Err(passNotes.error), [])
      else
        var failNotes := FailNotes(fail, last, ruleId, minimum);
        if failNotes.Err? then (Err(failNotes.error), passNotes.value)
        else (Ok(()), passNotes.value + failNotes.value + SkipNotes(pass, fail, ruleId, hideSkipped))
  }

  /** One pass of the loop of `apply_rules_to_objects`: the result entry of the group (none
      for a group missing a reporting column) and the annotations it emits before any error. */
  function RuleEntry(ruleId: string, g: Group, process: Processor, minimum: SeverityLevel, hideSkipped: bool)
    : (Result<Option<(seq<Value>, seq<Value>)>>, seq<Annotation>)
  {
    if !Reportable(g) then (Ok(Nothing), [])
    else match process(g)
      case Err(e) => (Err(e), [])
      case Ok(split) =>
        var (done, notes) := ReportSplit(ruleId, g, split.0, split.1, minimum, hideSkipped);
        (if done.Err? then Err(done.error) else Ok(Some(split)), notes)
  }

  predicate IsPassNote(a: Annotation, ruleId: string) {
    a.category == "Rule " + ruleId && a.level == InfoLevel
  }

  predicate IsFailNote(a: Annotation, ruleId: string) {
    a.category == "Rule " + ruleId && a.level != InfoLevel
  }

  /** Passes are reported, as one note with metadata, exactly under an INFO minimum when
      some object passed. */
  lemma PassNotesMeaning(pass: seq<Value>, last: Row, ruleId: string, minimum: SeverityLevel)
    requires PassNotes(pass, last, ruleId, minimum).Ok?
    ensures var notes := PassNotes(pass, last, ruleId, minimum).value;
      (forall a :: a in notes ==> IsPassNote(a, ruleId) && a.metadata.Some?)
      && (notes != [] <==> minimum == Info && pass != []) && |notes| <= 1
  {
    if minimum == Info {
      AttachResultsMeaning(pass, last, ruleId, true);
    }
  }

  /** Failures are reported, as one note with metadata, exactly when the rule's level
      reaches the minimum and some object failed. */
  lemma FailNotesMeaning(fail: seq<Value>, last: Row, ruleId: string, minimum: SeverityLevel)
    requires FailNotes(fail, last, ruleId, minimum).Ok?
    ensures var notes := FailNotes(fail, last, ruleId, minimum).value;
      (forall a :: a in notes ==> IsFailNote(a, ruleId) && a.metadata.Some?)
      && (notes != [] <==> Rank(GetSeverity(last)) >= Rank(minimum) && fail != []) && |notes| <= 1
  {
    if Rank(GetSeverity(last)) >= Rank(minimum) {
      AttachResultsMeaning(fail, last, ruleId, false);
    }
  }

  /** The skipped notice is neither a pass nor a failure and carries no metadata. */
  lemma SkipNotesMeaning(pass: seq<Value>, fail: seq<Value>, ruleId: string, hideSkipped: bool)
    ensures var notes := SkipNotes(pass, fail, ruleId, hideSkipped);
      (forall a :: a in notes ==>
         a == SkippedAnnotation(ruleId) && !IsPassNote(a, ruleId) && !IsFailNote(a, ruleId) && a.metadata == Nothing)
      && (notes != [] <==> pass == [] && fail == [] && !hideSkipped) && |notes| <= 1
  {
    SkippedCategory(ruleId);
  }

  /** The entry of a group is its pass/fail split when it is reportable, and none otherwise. */
  lemma RuleEntryResult(ruleId: string, g: Group, process: Processor, minimum: SeverityLevel, hideSkipped: bool)
    requires RuleEntry(ruleId, g, process, minimum, hideSkipped).0.Ok?
    ensures RuleEntry(ruleId, g, process, minimum, hideSkipped).0
            == if Reportable(g) then Ok(Some(process(g).value)) else Ok(Nothing)
  {
  }

  /** Which annotations a group emits: passes only under an INFO minimum, failures only at
      or above the minimum, and the skipped notice only when neither list has an object and
      skipped rules are shown. */
  lemma RuleEntryReports(ruleId: string, g: Group, process: Processor, minimum: SeverityLevel, hideSkipped: bool)
    requires Reportable(g)
    requires RuleEntry(ruleId, g, process, minimum, hideSkipped).0.Ok?
    ensures var (pass, fail) := process(g).value;
      var notes := RuleEntry(ruleId, g, process, minimum, hideSkipped).1;
      var level := GetSeverity(g.rows[|g.rows| - 1]);
      RuleEntry(ruleId, g, process, minimum, hideSkipped).0 == Ok(Some((pass, fail)))
      && ((exists a :: a in notes && IsPassNote(a, ruleId)) <==> minimum == Info && pass != [])
      && ((exists a :: a in notes && IsFailNote(a, ruleId)) <==> Rank(level) >= Rank(minimum) && fail != [])
      && ((SkippedAnnotation(ruleId) in notes) <==> pass == [] && fail == [] && !hideSkipped)
      && |notes| <= 3
  {
    var (pass, fail) := process(g).value;
    var last := g.rows[|g.rows| - 1];
    var passNotes := PassNotes(pass, last, ruleId, minimum).value;
    var failNotes := FailNotes(fail, last, ruleId, minimum).value;
    var skipped := SkipNotes(pass, fail, ruleId, hideSkipped);
    var notes := RuleEntry(ruleId, g, process, minimum, hideSkipped).1;
    assert notes == passNotes + failNotes + skipped;
    PassNotesMeaning(pass, last, ruleId, minimum);
    FailNotesMeaning(fail, last, ruleId, minimum);
    SkipNotesMeaning(pass, fail, ruleId, hideSkipped);
    if passNotes != [] {
      assert passNotes[0] in notes;
    }
    if failNotes != [] {
      assert failNotes[0] in notes;
    }
  }

  /** The skipped notice is in a category of its own. */
  lemma SkippedCategory(ruleId: string)
    ensures SkippedAnnotation(ruleId).category != "Rule " + ruleId
  {
    assert |SkippedAnnotation(ruleId).category| == |"Rule " + ruleId| + 8;
  }

  /** A group without a Message or a Report Severity column has no entry and emits nothing,
      even when its "Severity" column would give it a level. */
  lemma UnreportableSkipped(ruleId: string, g: Group, process: Processor, minimum: SeverityLevel, hideSkipped: bool)
    requires !Reportable(g)
    ensures RuleEntry(ruleId, g, process, minimum, hideSkipped) == (Ok(Nothing), [])
  {
  }

  /** A failing rule whose Report Severity is "Info" is reported at ERROR, not INFO. */
  lemma FailingInfoIsError(row: Row)
    requires Cell(row, "Report Severity") == Ok(Str("Info"))
    ensures GetSeverity(row) == Info
    ensures FailureLevel(row) == Ok(ErrorLevel)
  {
    SeverityRoundTrip(row, Info);
    InfoCapitalized();
  }

  lemma InfoCapitalized()
    ensures Capitalize("Info") == "Info"
  {
    assert Lower("nfo") == "nfo";
  }

  /** " Warning" reads as WARNING for the metadata but is reported at ERROR: the failure
      level is taken from the untrimmed text. */
  lemma PaddedWarningIsError(row: Row)
    requires Cell(row, "Report Severity") == Ok(Str(" Warning"))
    ensures GetSeverity(row) == Warning
    ensures FailureLevel(row) == Ok(ErrorLevel)
  {
    PaddedWarningTrimmed();
    PaddedWarningCapitalized();
    ReportSeverityLevels(row, " Warning");
  }

  /** A non-empty Report Severity text decides both levels. */
  lemma ReportSeverityLevels(row: Row, s: string)
    requires Cell(row, "Report Severity") == Ok(Str(s)) && s != ""
    ensures Upper(Strip(s)) == "WARNING" ==> GetSeverity(row) == Warning
    ensures Capitalize(s) != "Warning" && Capitalize(s) != "Warn" ==> FailureLevel(row) == Ok(ErrorLevel)
  {
    assert SeverityCell(row) == Str(s);
  }

  lemma PaddedWarningTrimmed()
    ensures Upper(Strip(" Warning")) == "WARNING"
  {
    assert Strip(" Warning") == "Warning" by {
      assert TrimLeft(" Warning") == "Warning";
      StripUnspaced("Warning");
    }
  }

  lemma PaddedWarningCapitalized()
    ensures Capitalize(" Warning") != "Warning" && Capitalize(" Warning") != "Warn"
  {
    assert Capitalize(" Warning")[0] == ' ';
  }

  /** "warn" in any case is reported at WARNING, as `get_severity` also reads it. */
  lemma WarnIsWarning(row: Row)
    requires Cell(row, "Report Severity") == Ok(Str("warn"))
    ensures GetSeverity(row) == Warning
    ensures FailureLevel(row) == Ok(WarningLevel)
  {
    StripUnspaced("warn");
    assert Upper("warn") == "WARN";
    assert Capitalize("warn") == "Warn";
  }

  // ===========================================================================
  // Applying all rules

  /** `apply_rules_to_objects` over the groups in order: the entries of the reportable
      groups by rule number, and the annotations emitted; the first error stops the run,
      keeping what was emitted before it. */
  function ApplyRules(groups: seq<(string, Group)>, process: Processor, minimum: SeverityLevel, hideSkipped: bool)
    : (r: (Result<map<string, (seq<Value>, seq<Value>)>>, seq<Annotation>))
    ensures r.0.Ok? ==> r.0.value.Keys == ReportableIds(groups)
    decreases |groups|
  {
    if groups == [] then (Ok(map[]), [])
    else
      ReportableIdsSnoc(groups);
      var (before, notes) := ApplyRules(groups[..|groups| - 1], process, minimum, hideSkipped);
      if before.Err? then (before, notes)
      else
        var (ruleId, g) := groups[|groups| - 1];
        var (entry, more) := RuleEntry(ruleId, g, process, minimum, hideSkipped);
        match entry
        case Err(e) => (Err(e), notes + more)
        case Ok(Nothing) => (before, notes)
        case Ok(Some(split)) => (Ok(before.value[ruleId := split]), notes + more)
  }

  /** The rule numbers of the reportable groups. */
  function ReportableIds(groups: seq<(string, Group)>): set<string> {
    set k | 0 <= k < |groups| && Reportable(groups[k].1) :: groups[k].0
  }

  /** A successful run is a successful run of all but the last group, updated by the last
      group's entry. */
  lemma ApplyRulesLast(groups: seq<(string, Group)>, process: Processor, minimum: SeverityLevel, hideSkipped: bool)
    requires groups != [] && ApplyRules(groups, process, minimum, hideSkipped).0.Ok?
    ensures var n := |groups| - 1;
      var before := ApplyRules(groups[..n], process, minimum, hideSkipped).0;
      before.Ok?
      && (Reportable(groups[n].1) ==> process(groups[n].1).Ok?)
      && ApplyRules(groups, process, minimum, hideSkipped).0.value
         == if Reportable(groups[n].1) then before.value[groups[n].0 := process(groups[n].1).value] else before.value
  {
    var n := |groups| - 1;
    RuleEntryResult(groups[n].0, groups[n].1, process, minimum, hideSkipped);
  }

  /** The result has an entry for exactly the reportable groups, and each entry is that
      group's pass/fail split (rule numbers are distinct, as grouping makes them). */
  lemma {:induction false} ApplyRulesEntries(groups: seq<(string, Group)>, process: Processor, minimum: SeverityLevel, hideSkipped: bool)
    requires forall i, j :: 0 <= i < j < |groups| ==> groups[i].0 != groups[j].0
    requires ApplyRules(groups, process, minimum, hideSkipped).0.Ok?
    ensures var r := ApplyRules(groups, process, minimum, hideSkipped).0.value;
      r.Keys == ReportableIds(groups)
      && forall k :: 0 <= k < |groups| && Reportable(groups[k].1) ==>
           process(groups[k].1) == Ok(r[groups[k].0])
    decreases |groups|
  {
    if groups != [] {
      var n := |groups| - 1;
      var front := groups[..n];
      ApplyRulesLast(groups, process, minimum, hideSkipped);
      assert forall i, j :: 0 <= i < j < |front| ==> front[i].0 != front[j].0 by {
        assert forall k :: 0 <= k < n ==> groups[k] == front[k];
      }
      ApplyRulesEntries(front, process, minimum, hideSkipped);
      var before := ApplyRules(front, process, minimum, hideSkipped).0.value;
      var r := ApplyRules(groups, process, minimum, hideSkipped).0.value;
      ReportableIdsSnoc(groups);
      forall k | 0 <= k < |groups| && Reportable(groups[k].1)
        ensures process(groups[k].1) == Ok(r[groups[k].0])
      {
        if k < n {
          assert groups[k] == front[k];
          assert groups[k].0 != groups[n].0;
        }
      }
    }
  }

  lemma ReportableIdsSnoc(groups: seq<(string, Group)>)
    requires groups != []
    ensures var n := |groups| - 1;
      ReportableIds(groups)
      == ReportableIds(groups[..n]) + if Reportable(groups[n].1) then {groups[n].0} else {}
  {
    var n := |groups| - 1;
    assert forall k :: 0 <= k < n ==> groups[k] == groups[..n][k];
  }

  /** With the minimum above INFO no pass is reported, so the only INFO annotations are
      skipped notices, which carry no metadata; with skipped rules hidden every annotation
      reports objects and carries metadata. */
  predicate TraceShape(trace: seq<Annotation>, minimum: SeverityLevel, hideSkipped: bool) {
    (minimum != Info ==> forall a :: a in trace && a.level == InfoLevel ==> a.metadata == Nothing)
    && (hideSkipped ==> forall a :: a in trace ==> a.metadata.Some?)
  }

  lemma TraceShapeConcat(a: seq<Annotation>, b: seq<Annotation>, minimum: SeverityLevel, hideSkipped: bool)
    requires TraceShape(a, minimum, hideSkipped) && TraceShape(b, minimum, hideSkipped)
    ensures TraceShape(a + b, minimum, hideSkipped)
  {
  }

  /** The annotations of one reported split have that shape. */
  lemma ReportSplitTrace(ruleId: string, g: Group, pass: seq<Value>, fail: seq<Value>, minimum: SeverityLevel, hideSkipped: bool)
    ensures TraceShape(ReportSplit(ruleId, g, pass, fail, minimum, hideSkipped).1, minimum, hideSkipped)
  {
    if g.rows != [] {
      var last := g.rows[|g.rows| - 1];
      var passNotes := PassNotes(pass, last, ruleId, minimum);
      if passNotes.Ok? {
        PassNotesMeaning(pass, last, ruleId, minimum);
        assert TraceShape(passNotes.value, minimum, hideSkipped);
        var failNotes := FailNotes(fail, last, ruleId, minimum);
        if failNotes.Ok? {
          FailNotesMeaning(fail, last, ruleId, minimum);
          SkipNotesMeaning(pass, fail, ruleId, hideSkipped);
          var skipped := SkipNotes(pass, fail, ruleId, hideSkipped);
          assert TraceShape(failNotes.value, minimum, hideSkipped);
          assert TraceShape(skipped, minimum, hideSkipped);
          TraceShapeConcat(passNotes.value, failNotes.value, minimum, hideSkipped);
          TraceShapeConcat(passNotes.value + failNotes.value, skipped, minimum, hideSkipped);
        }
      }
    }
  }

  /** The annotations of one group have that shape. */
  lemma RuleEntryTrace(ruleId: string, g: Group, process: Processor, minimum: SeverityLevel, hideSkipped: bool)
    ensures TraceShape(RuleEntry(ruleId, g, process, minimum, hideSkipped).1, minimum, hideSkipped)
  {
    if Reportable(g) && process(g).Ok? {
      var split := process(g).value;
      ReportSplitTrace(ruleId, g, split.0, split.1, minimum, hideSkipped);
    }
  }

  /** Every annotation of a run has that shape. */
  lemma {:induction false} ApplyRulesTrace(groups: seq<(string, Group)>, process: Processor, minimum: SeverityLevel, hideSkipped: bool)
    ensures TraceShape(ApplyRules(groups, process, minimum, hideSkipped).1, minimum, hideSkipped)
    decreases |groups|
  {
    if groups != [] {
      var n := |groups| - 1;
      ApplyRulesTrace(groups[..n], process, minimum, hideSkipped);
      RuleEntryTrace(groups[n].0, groups[n].1, process, minimum, hideSkipped);
      TraceShapeConcat(ApplyRules(groups[..n], process, minimum, hideSkipped).1,
                       RuleEntry(groups[n].0, groups[n].1, process, minimum, hideSkipped).1, minimum, hideSkipped);
    }
  }

  lemma {:induction false} ApplyRulesPrefixError(groups: seq<(string, Group)>, process: Processor, minimum: SeverityLevel, hideSkipped: bool, i: nat)
    requires i <= |groups| && ApplyRules(groups[..i], process, minimum, hideSkipped).0.Err?
    ensures ApplyRules(groups, process, minimum, hideSkipped) == ApplyRules(groups[..i], process, minimum, hideSkipped)
    decreases |groups| - i
  {
    if i < |groups| {
      assert groups[..i + 1][..i] == groups[..i];
      ApplyRulesPrefixError(groups, process, minimum, hideSkipped, i + 1);
    } else {
      assert groups[..i] == groups;
    }
  }

  /** One more group extends the run by that group's entry. */
  lemma ApplyRulesStep(groups: seq<(string, Group)>, process: Processor, minimum: SeverityLevel, hideSkipped: bool, i: nat)
    requires i < |groups|
    requires ApplyRules(groups[..i], process, minimum, hideSkipped).0.Ok?
    ensures var (before, notes) := ApplyRules(groups[..i], process, minimum, hideSkipped);
      var (entry, more) := RuleEntry(groups[i].0, groups[i].1, process, minimum, hideSkipped);
      ApplyRules(groups[..i + 1], process, minimum, hideSkipped)
      == match entry
         case Err(e) => (Err(e), notes + more)
         case Ok(Nothing) => (before, notes)
         case Ok(Some(split)) => (Ok(before.value[groups[i].0 := split]), notes + more)
  {
    assert groups[..i + 1][..i] == groups[..i];
  }

  /** The reporting half of one pass of the loop of `apply_rules_to_objects`. */
  method ReportRule(ruleId: string, g: Group, pass: seq<Value>, fail: seq<Value>, minimum: SeverityLevel, hideSkipped: bool)
    returns (done: Result<()>, emitted: seq<Annotation>)
    ensures (done, emitted) == ReportSplit(ruleId, g, pass, fail, minimum, hideSkipped)
  {
    emitted := [];
    if g.rows == [] {
      return Err(IndexError("single positional indexer is out-of-bounds")), emitted;
    }
    var last := g.rows[|g.rows| - 1];
    var level := GetSeverity(last);
    if minimum == Info {
      var notes := AttachResults(pass, last, ruleId, true);
      if notes.Err? {
        return Err(notes.error), emitted;
      }
      emitted := notes.value;
    }
    assert PassNotes(pass, last, ruleId, minimum) == Ok(emitted);
    if Rank(level) >= Rank(minimum) {
      var notes := AttachResults(fail, last, ruleId, false);
      if notes.Err? {
        return Err(notes.error), emitted;
      }
      emitted := emitted + notes.value;
    }
    ghost var reported := emitted;
    assert reported == PassNotes(pass, last, ruleId, minimum).value + FailNotes(fail, last, ruleId, minimum).value;
    if pass == [] && fail == [] && !hideSkipped {
      emitted := emitted + [SkippedAnnotation(ruleId)];
    }
    assert emitted == reported + SkipNotes(pass, fail, ruleId, hideSkipped);
    assert ReportSplit(ruleId, g, pass, fail, minimum, hideSkipped) == (Ok(()), reported + SkipNotes(pass, fail, ruleId, hideSkipped));
    return Ok(()), emitted;
  }

  /** `apply_rules_to_objects`: the groups in order, filling the result dictionary and
      emitting annotations on the context; the annotations emitted before an error are
      returned with it. */
  method ApplyRulesToObjects(objs: seq<Value>, groups: seq<(string, Group)>, minimum: SeverityLevel, hideSkipped: bool, m: Matchers)
    returns (r: Result<map<string, (seq<Value>, seq<Value>)>>, trace: seq<Annotation>)
    ensures (r, trace) == ApplyRules(groups, ProcessWith(objs, m), minimum, hideSkipped)
  {
    ghost var process := ProcessWith(objs, m);
    var results: map<string, (seq<Value>, seq<Value>)> := map[];
    trace := [];
    var i := 0;
    while i < |groups|
      invariant 0 <= i <= |groups|
      invariant ApplyRules(groups[..i], process, minimum, hideSkipped) == (Ok(results), trace)
    {
      var (ruleId, g) := groups[i];
      ApplyRulesStep(groups, process, minimum, hideSkipped, i);
      if !Reportable(g) {
        i := i + 1;
        continue;
      }
      var split := ProcessRule(objs, g, m);
      assert process(g) == split;
      if split.Err? {
        assert trace + [] == trace;
        ApplyRulesPrefixError(groups, process, minimum, hideSkipped, i + 1);
        return Err(split.error), trace;
      }
      var (pass, fail) := split.value;
      var done, emitted := ReportRule(ruleId, g, pass, fail, minimum, hideSkipped);
      if done.Err? {
        ApplyRulesPrefixError(groups, process, minimum, hideSkipped, i + 1);
        return Err(done.error), trace + emitted;
      }
      trace := trace + emitted;
      results := results[ruleId := (pass, fail)];
      i := i + 1;
    }
    assert groups[..i] == groups;
    return Ok(results), trace;
  }
}
