/** The split of model elements by category: the elements whose category equals the input,
    and the rest. */
module Filters {
  import opened PyValues
  import opened PropertyRules
  import opened RuleProcessor

  /** The category test as a condition that never raises. */
  function CategoryTest(category: string): Value -> Result<bool> {
    o => Ok(IsCategory(o, Str(category)))
  }

  /** A condition that never raises splits every list. */
  lemma {:induction false} CategoryPartitionDefined(objs: seq<Value>, category: string)
    ensures Partition(objs, CategoryTest(category)).Ok?
    decreases |objs|
  {
    if objs != [] {
      CategoryPartitionDefined(objs[..|objs| - 1], category);
    }
  }

  /** `filter_objects_by_category`: one pass over the elements, appending each to the
      matching or the non-matching list. */
  method FilterObjectsByCategory(objs: seq<Value>, category: string) returns (matching: seq<Value>, nonMatching: seq<Value>)
    ensures Partition(objs, CategoryTest(category)) == Ok((matching, nonMatching))
  {
    ghost var test := CategoryTest(category);
    matching := [];
    nonMatching := [];
    var j := 0;
    while j < |objs|
      invariant 0 <= j <= |objs|
      invariant Partition(objs[..j], test) == Ok((matching, nonMatching))
    {
      assert objs[..j + 1][..j] == objs[..j];
      if IsCategory(objs[j], Str(category)) {
        matching := matching + [objs[j]];
      } else {
        nonMatching := nonMatching + [objs[j]];
      }
      j := j + 1;
    }
    assert objs[..j] == objs;
  }

  /** Every element lands in exactly one list: the matching list when its category equals
      the input, the other one otherwise; both lists keep the input order and their lengths
      add up to the input's. */
  lemma CategorySplit(objs: seq<Value>, category: string)
    ensures Partition(objs, CategoryTest(category)).Ok?
    ensures var (matching, nonMatching) := Partition(objs, CategoryTest(category)).value;
      |matching| + |nonMatching| == |objs|
      && multiset(matching) + multiset(nonMatching) == multiset(objs)
      && SubsequenceOf(matching, objs) && SubsequenceOf(nonMatching, objs)
      && (forall x :: x in objs ==>
            (x in matching <==> IsCategory(x, Str(category)))
            && (x in nonMatching <==> !IsCategory(x, Str(category))))
  {
    var test := CategoryTest(category);
    CategoryPartitionDefined(objs, category);
    PartitionCounts(objs, test);
    PartitionOrder(objs, test);
    PartitionChecks(objs, test);
    var (matching, nonMatching) := Partition(objs, test).value;
    forall x | x in objs
      ensures (x in matching <==> IsCategory(x, Str(category)))
      ensures (x in nonMatching <==> !IsCategory(x, Str(category)))
    {
      assert x in multiset(objs);
      assert test(x) == Ok(IsCategory(x, Str(category)));
    }
  }
}
