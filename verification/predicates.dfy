/** The table that maps the predicate words of a rule row to the names of the `PropertyRules`
    methods that implement them. */
module Predicates {
  import opened Text

  const PredicateMethodMap: map<string, string> := map[
    "exists" := "has_parameter",
    "matches" := "is_parameter_value",
    "greater than" := "is_parameter_value_greater_than",
    "less than" := "is_parameter_value_less_than",
    "in range" := "is_parameter_value_in_range",
    "in list" := "is_parameter_value_in_list",
    "equals" := "is_equal_value",
    "identical" := "is_identical_value",
    "not equal" := "is_not_equal_value",
    "not identical" := "is_not_identical_value",
    "true" := "is_parameter_value_true",
    "false" := "is_parameter_value_false",
    "is like" := "is_parameter_value_like"
  ]

  /** The predicate words, in the order the table lists them. */
  const PredicateWords: seq<string> := [
    "exists", "matches", "greater than", "less than", "in range", "in list", "equals",
    "identical", "not equal", "not identical", "true", "false", "is like"
  ]

  /** The table's keys are exactly the thirteen listed words, all distinct. */
  lemma PredicateKeys()
    ensures PredicateMethodMap.Keys == set w | w in PredicateWords
    ensures |PredicateWords| == 13
    ensures forall i, j :: 0 <= i < j < |PredicateWords| ==> PredicateWords[i] != PredicateWords[j]
  {
  }

  /** Thirteen distinct keys make a table of thirteen entries. */
  lemma PredicateCount()
    ensures |PredicateMethodMap| == 13
  {
    PredicateKeys();
    DistinctCount(PredicateWords);
  }

  lemma {:induction false} DistinctCount(ws: seq<string>)
    requires forall i, j :: 0 <= i < j < |ws| ==> ws[i] != ws[j]
    ensures |set w | w in ws| == |ws|
  {
    if ws != [] {
      DistinctCount(ws[1..]);
      assert (set w | w in ws) == {ws[0]} + (set w | w in ws[1..]);
      assert ws[0] !in ws[1..];
    }
  }

  /** Every key is already lower case, so a row must spell the word in lower case. */
  lemma PredicateKeysLowerCase()
    ensures forall w :: w in PredicateMethodMap ==> Lower(w) == w
  {
    forall w | w in PredicateMethodMap
      ensures Lower(w) == w
    {
      LowerCaseWord(w);
    }
  }

  /** A word of lower-case letters and spaces is its own lower case. */
  lemma LowerCaseWord(w: string)
    requires forall i :: 0 <= i < |w| ==> 'a' <= w[i] <= 'z' || w[i] == ' '
    ensures Lower(w) == w
  {
  }

  /** "matches" and "equals" name different methods: plain `==` and the coercing comparison. */
  lemma MatchesIsNotEquals()
    ensures PredicateMethodMap["matches"] == "is_parameter_value"
    ensures PredicateMethodMap["equals"] == "is_equal_value"
    ensures PredicateMethodMap["matches"] != PredicateMethodMap["equals"]
  {
  }

  /** There is no word for the containment predicates. */
  lemma NoContainmentWord()
    ensures "is_parameter_value_containing" !in PredicateMethodMap.Values
    ensures "is_parameter_value_not_containing" !in PredicateMethodMap.Values
    ensures "contains" !in PredicateMethodMap && "does not contain" !in PredicateMethodMap
  {
  }
}
