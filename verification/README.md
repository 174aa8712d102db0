# Rule evaluation of the Speckle Automate model checker

The checker reads a table of rules from a spreadsheet (tab-separated). Each row is one
condition:

- a Logic word: WHERE, AND or CHECK;
- a property name or path;
- a predicate word;
- a value.

A WHERE row opens a rule. The rows up to the next WHERE belong to that rule, and they are
numbered by the rule's first cell. The rules are grouped by number, and each group runs
against the objects of a Speckle model. The filter rows narrow the objects. The check row
then splits the survivors into passed and failed objects. The failures are reported as
annotations, at the level the rule asks for.

This project models that core in Dafny:

- `Text` and `PyValues` model the pieces of Python the core relies on:
  - a dynamic value type with `None`, booleans, integers, floats (including NaN), text,
    lists and records (a dict or a `Base` object, with identity);
  - `==`, truthiness, `str()`/`repr()`, `int()`/`float()` and `math.isclose`;
  - the string methods the core calls.
- `PropertyRules` models the property lookup and predicates of `src/rules.py`.
- `DisplayRules` models that file's `Rules` display helpers.
- `Predicates` models the predicate table of `src/predicates.py`.
- `RuleProcessor` models `src/rule_processor.py`:
  - structure validation;
  - splitting a rule into filters and a check;
  - the filter loop;
  - severities;
  - the reporting loop.
- `Filters` models `src/filters.py`.
- `Spreadsheet` models `src/spreadsheet.py`:
  - column typing;
  - rule numbering;
  - rule-number warnings;
  - grouping;
  - the read pipeline.
- `LegacyRules` models the parameter search and the predicates of `src/rules_old.py`.

Code built from loops and mutation becomes a `method` with loop invariants, proved equal to a
specification function: the filter and partition loops, the rule-numbering loop, the
reporting loop, the category split and the depth-first `traverse`. Everything else becomes
functions, with lemmas stating what the source promises. Python exceptions are modelled as
`Result` values carrying the exception kind and message. A failure stops the computation
exactly where the raise would.

## Model

| member | source | states |
|---|---|---|
| PropertyRules.KeepMeaningful | src/rules.py:170-188 | dropping the container segments never adds a segment |
| PropertyRules.KeepMeaningfulMembers | src/rules.py:170-188 | a segment is kept exactly when it is not "properties"/"parameters" in any case |
| PropertyRules.NormalizePathSegments | src/rules.py:170-188 | the normalized path's segments are exactly the meaningful segments of the original, in order; an all-technical path becomes "" |
| PropertyRules.NormalizePathIdempotent | src/rules.py:170-188 | normalizing twice is normalizing once |
| PropertyRules.NormalizeDropsTechnicalPrefix | src/rules.py:170-188 | a leading "properties" or "parameters" segment does not change the normalized path |
| PropertyRules.NormalizeV3Prefix | src/rules.py:170-188 | "properties.Parameters.X" and "X" normalize to the same path |
| PropertyRules.ConvertRevitBoolean | src/rules.py:191-223 | "yes"/"no" in any case become True/False; every other value is returned unchanged |
| PropertyRules.ConvertRevitBooleanIdempotent | src/rules.py:191-223 | converting twice is converting once |
| PropertyRules.GetObjValue | src/rules.py:226-260 | raw mode returns the object; otherwise a primitive is Yes/No-converted, a record with a "value" member gives that member converted, and anything else is returned as is |
| PropertyRules.FirstMatchFrom | src/rules.py:263-299 | the result is the first member from k on whose name equals the segment ignoring case, and none exists when nothing is returned |
| PropertyRules.SearchObj | src/rules.py:263-299 | an empty path finds the object itself; a non-record object with a path left finds nothing |
| PropertyRules.SearchObjCompose | src/rules.py:263-299 | following p + q is following p, then q from where p ended |
| PropertyRules.SearchObjIgnoresCase | src/rules.py:263-299 | the search gives the same result whatever the letter case of the segments |
| PropertyRules.SearchValueSuffix | src/rules.py:226-299 | appending ".value" to a path yields what value extraction gives at the path's end |
| PropertyRules.Traverse | src/rules.py:326-364 | the recursive depth-first search returns the located hit with its value extracted; when nothing is found, the visited set is as it came in |
| PropertyRules.LocateSound | src/rules.py:326-364 | every hit is a direct path match at an object reached by a cycle-free descent through searched members |
| PropertyRules.LocateInSound | src/rules.py:347-362 | a hit among the children comes from the first child, in member order, that has one |
| PropertyRules.LocateComplete | src/rules.py:326-364 | every object reached by a cycle-free descent that matches the path directly is found; objects visited on other branches do not block it |
| PropertyRules.FindPropertyAtRoot | src/rules.py:302-366 | a direct match at the root wins over anything deeper; a non-container root finds nothing |
| PropertyRules.FindPropertyV3Prefix | src/rules.py:302-366 | "properties.Parameters.X" finds what "X" finds |
| PropertyRules.GetParameterValue | src/rules.py:385-408 | the found value, or the default exactly when nothing is found |
| PropertyRules.GetParameterValueDefault | src/rules.py:369-408 | a value other than the default implies `has_parameter` |
| PropertyRules.RawAndConvertedAgree | src/rules.py:302-366 | the raw and converted lookups find the same hit, and the converted value is extracted from the raw one |
| PropertyRules.TryBooleanComparison | src/rules.py:704-747 | both sides read as booleans exactly when the first flag is set; the second flag is set exactly when they also read as the same boolean |
| PropertyRules.SafeConvertPrimitive | src/rules.py:786-791 | non-text values pass through number conversion unchanged |
| PropertyRules.CompareValuesSymmetric | src/rules.py:750-809 | `compare_values` gives the same kind of outcome (true, false, or an error of the same kind) with its arguments swapped |
| PropertyRules.LooksNumericChars | src/rules.py:786-791 | text passing the numeric test holds only digits, points and minus signs |
| PropertyRules.LooksNumericNotBoolean | src/rules.py:723-791 | numeric-looking text never reads as a boolean |
| PropertyRules.NumericTextEqualsNumber | src/rules.py:750-809 | text converted to the number x compares equal to every number of value x, both ways round |
| PropertyRules.SignedDigitsLookNumeric | src/rules.py:786-791 | digits after an optional minus sign pass the numeric test |
| PropertyRules.IntTextEqualsInt | src/rules.py:750-809 | `str(i)` compares equal to the integer i |
| PropertyRules.TrueFalseTextComparison | src/rules.py:723-747 | text reading "true"/"false" after strip and lower case compares as that boolean |
| PropertyRules.YesNoTextComparison | src/rules.py:723-747 | "Yes"/"No" in any case compare as booleans only when the Yes/No conversion is on |
| PropertyRules.PlainTextComparison | src/rules.py:750-809 | two texts that are neither booleans nor numbers compare stripped, ignoring case unless case-sensitive |
| PropertyRules.FloatComparison | src/rules.py:750-809 | two floats compare exactly under `use_exact`, otherwise with `math.isclose` at the tolerance |
| PropertyRules.ExactNumbersClose | src/rules.py:750-809 | exactly equal numbers are close under any tolerance |
| PropertyRules.LetterStartNotNumeric | src/rules.py:786-791 | text starting with a letter fails the numeric test |
| PropertyRules.StrictYesNoDifference | src/rules.py:723-738 | the Yes/No flag only changes the reading of unspaced "yes"/"no" text |
| PropertyRules.ExactFailsOnYesNo | src/rules.py:750-809 | when only the loose side reads a value as a Yes/No boolean, the exact comparison fails |
| PropertyRules.ExactImpliesLoose | src/rules.py:750-809 | for a value the Yes/No conversion leaves alone, a successful exact comparison implies the loose one succeeds |
| PropertyRules.EqualityOnMissing | src/rules.py:812-892 | a missing value is not equal, not identical, and unequal |
| PropertyRules.NotEqualIsNegation | src/rules.py:812-870 | "not equal" is the exact negation of "equal" on a present value, with the same errors |
| PropertyRules.IdenticalImpliesEqual | src/rules.py:812-892 | identical implies equal when the stored value is a primitive the Yes/No conversion leaves alone |
| PropertyRules.PlainEqualityImpliesLoose | src/rules.py:750-809 | values equal under `==` compare equal under the loose comparison too, unless it raises |
| PropertyRules.SafeConvertNoNaN | src/rules.py:786-791 | number conversion never turns text into NaN |
| PropertyRules.MatchesImpliesEquals | src/rules.py:411-425 | "matches" implies "equals" on a present value, unless the loose comparison raises |
| PropertyRules.MatchesOnMissing | src/rules.py:411-425 | a missing parameter "matches" exactly the targets equal to None |
| PropertyRules.StoredText | src/rules.py:385-408 | the raw lookup of stored text is that text; the converted lookup is its Yes/No reading |
| PropertyRules.BoolVersusPlainText | src/rules.py:750-809 | a boolean never equals text that reads neither as a boolean nor as a number |
| PropertyRules.ContainingOnMissing | src/rules.py:125-167 | a missing parameter contains nothing, so "not containing" holds for it |
| PropertyRules.ContainingOwnText | src/rules.py:142-167 | every present value contains the empty text and its own text in any case |
| PropertyRules.ContainingIgnoresCase | src/rules.py:142-167 | the containment test ignores the case of the substring |
| PropertyRules.ParseNumberTruncatesFloat | src/rules.py:428-449 | as written, the float threshold 2.5 is read as 2 |
| PropertyRules.ParseThresholdAgreesWithFloat | src/rules.py:428-449 | the corrected parse accepts exactly what `float()` accepts, with the same value, and raises ValueError where `float()` does |
| PropertyRules.ParseThresholdOnText | src/rules.py:428-449 | on text, the parse is `float()`'s, with its message when `float()` refuses |
| PropertyRules.CompareWithThreshold | src/rules.py:452-504 | the shared body of "greater than" and "less than": a missing value or one `float()` rejects is false; for a present numeric value the outcome is exactly whether it lies strictly above (or below) the parsed threshold, and a failed parse raises its own error |
| PropertyRules.IsParameterValueGreaterThan | src/rules.py:452-476 | as written, with `parse_number_from_string`: false for a missing or non-numeric value; for a numeric value and a threshold that parses, exactly whether the value is above the parsed threshold; raises only when that parse fails |
| PropertyRules.IsParameterValueLessThan | src/rules.py:479-504 | as written: false for a missing or non-numeric value; for a numeric value and a threshold that parses, exactly whether the value is below it; raises only when `parse_number_from_string` fails |
| PropertyRules.IsParameterValueGreaterThanIntended | src/rules.py:428-476 | "greater than" with the corrected parse: false for a missing or non-numeric value; otherwise exactly whether the value is above the threshold as read; raises only when `float()` would refuse the threshold |
| PropertyRules.IsParameterValueLessThanIntended | src/rules.py:428-504 | "less than" with the corrected parse, with the same guarantees |
| PropertyRules.TextThresholdAgrees | src/rules.py:428-504 | on a text threshold the as-written and the corrected predicates give the same outcome |
| PropertyRules.IntegerThresholdCompares | src/rules.py:428-504 | an integer threshold i gives exactly value > i and value < i, a boolean one compares with 1 or 0, and on integers the as-written and corrected predicates agree |
| PropertyRules.GreaterThanTruncatesThreshold | src/rules.py:428-504 | as-written half of the finding below: a float threshold r is compared as `int(r)`, so 2.2 passes "greater than 2.5", which the corrected predicates fail while passing "less than" |
| PropertyRules.NumericPredicatesOnNonNumbers | src/rules.py:452-536 | missing or non-numeric values never pass "greater than", "less than" or "in range" |
| PropertyRules.RangeParsedFirst | src/rules.py:507-536 | a malformed range raises whatever the object holds |
| PropertyRules.ThresholdParsedAfterLookup | src/rules.py:452-504 | a malformed threshold raises only when the value is numeric |
| PropertyRules.GreaterLessExclusive | src/rules.py:452-504 | "greater than" and "less than" never both hold |
| PropertyRules.InRangeBetween | src/rules.py:452-536 | "in range lo,hi" holds exactly when the value is numeric and neither below lo nor above hi |
| PropertyRules.GreaterThanReadsFloat | src/rules.py:428-504 | corrected half of the finding below: the intended "greater than" and "less than" compare the value with the threshold as `float()` reads it |
| PropertyRules.LikeProperties | src/rules.py:539-570 | a missing value is never like anything; a fuzzy match survives lowering the threshold |
| PropertyRules.LikeOwnText | src/rules.py:539-570 | a value is fuzzily like its own text when the ratio of equal texts is 1 |
| PropertyRules.IsParameterValueLike | src/rules.py:539-570 | a missing parameter is never like anything; for a present one it raises exactly when the pattern is not text or, outside fuzzy mode, is a text `re` cannot compile, and a text pattern raises only `re.error` |
| PropertyRules.CsvItems | src/rules.py:573-598 | the items are non-blank texts, no more than the pieces |
| PropertyRules.CsvItemsComplete | src/rules.py:573-598 | every non-blank piece appears, stripped, among the items |
| PropertyRules.InListMembers | src/rules.py:573-598 | a value whose text is one of the comma-separated items is in the list; an argument that is neither text nor a list matches nothing |
| PropertyRules.MissingInNoneList | src/rules.py:573-598 | a missing parameter is in any list holding the text "None" |
| PropertyRules.IsParameterValueInList | src/rules.py:573-598 | only a text or list argument can hold the value |
| PropertyRules.IsParameterValueTrue | src/rules.py:624-638 | only a boolean or a text value can be true |
| PropertyRules.IsParameterValueFalse | src/rules.py:641-655 | only a boolean or a text value can be false |
| PropertyRules.TrueFalseExclusive | src/rules.py:601-655 | no value is both true and false; only booleans and text can be either; a boolean is exactly one |
| PropertyRules.GetCategoryValue | src/rules.py:690-701 | a category other than None implies `has_category` |
| PropertyRules.IsCategoryMatches | src/rules.py:673-687 | `is_category` is "matches" on the "category" parameter |
| DisplayRules.Attr | src/rules.py:32-61 | only `Base` objects have attributes; the attribute is the object's member |
| DisplayRules.BaseItems | src/rules.py:32-61 | every item kept is a `Base` object |
| DisplayRules.DisplayValueShape | src/rules.py:32-61 | a display value, once found, is a non-empty list of `Base` objects drawn from the object's display list |
| DisplayRules.BaseItemsFilter | src/rules.py:32-61 | a display list keeps exactly its `Base` items, in order |
| DisplayRules.DisplayableMeaning | src/rules.py:64-90 | an object is displayable exactly when it, or its truthy definition, has a display value and an identifier |
| DisplayRules.DisplayableObjectsFilter | src/rules.py:93-109 | the result is the ordered subsequence of the input objects that are displayable with a truthy identifier |
| DisplayRules.DisplayableObjectsErrors | src/rules.py:93-109 | the filter raises exactly when some object's display test raises |
| Predicates.PredicateKeys | src/predicates.py:4-18 | the table's keys are exactly the thirteen predicate words, all distinct |
| Predicates.PredicateCount | src/predicates.py:4-18 | the table has thirteen entries |
| Predicates.PredicateKeysLowerCase | src/predicates.py:4-18 | every key is lower case, so a row must spell its word in lower case |
| Predicates.NoContainmentWord | src/predicates.py:4-18 | no word names the containment predicates |
| RuleProcessor.CountChecks | src/rule_processor.py:59 | the CHECK count is zero exactly when no row is a CHECK |
| RuleProcessor.ChecksOnlyLast | src/rule_processor.py:58-66 | "at most one CHECK, and that one last" is "no CHECK before the last row" |
| RuleProcessor.ValidateMeaning | src/rule_processor.py:30-72 | a non-empty group with a Logic column is accepted exactly when it is well formed; a rejection is a ValueError once the rule number can be read |
| RuleProcessor.ValidateEdges | src/rule_processor.py:44-49 | an empty group is accepted; a group without a Logic column is rejected with ValueError |
| RuleProcessor.ValidateRuleStructure | src/rule_processor.py:30-72 | an empty group is accepted; a rejection is a ValueError, or the KeyError of a missing Rule Number column; an accepted non-empty group has a Logic column, starts with WHERE and has at most one CHECK |
| RuleProcessor.FirstCheck | src/rule_processor.py:141-146 | the position of the first CHECK row, and none only when there is no CHECK |
| RuleProcessor.LastAnd | src/rule_processor.py:151-156 | the position of the last AND row, and none only when there is no AND |
| RuleProcessor.NonCheckRows | src/rule_processor.py:148 | every row kept is a row of the group and not a CHECK |
| RuleProcessor.NonCheckRowsAll | src/rule_processor.py:148 | a group without a CHECK keeps every row |
| RuleProcessor.FiltersAndCheckShape | src/rule_processor.py:119-163 | on a well-formed group: a CHECK is the last row and the rest are filters; an AND-terminated group checks its last AND after the rows before it; a WHERE-only group checks its first row after all rows |
| RuleProcessor.GetFiltersAndCheck | src/rule_processor.py:119-163 | the filters are rows of the group and no more than it has; the check of a non-empty group is one of its rows |
| RuleProcessor.EvaluateWord | src/rule_processor.py:98-116 | a word of the table evaluates by the method it names, when that method exists |
| RuleProcessor.EvaluateConditionDispatch | src/rule_processor.py:98-116 | unknown words, words in another case and "not identical" are false for every object; "true" and "false" always raise |
| RuleProcessor.EvaluateCondition | src/rule_processor.py:75-116 | a row without a Predicate column raises KeyError("Predicate"); a word that is not in the predicate table is false |
| RuleProcessor.TwoArgumentMethods | src/rule_processor.py:114 | the two-argument predicates refuse the row's value |
| RuleProcessor.EvaluateExists | src/rule_processor.py:98-116 | "exists" is `has_parameter` on the row's property name |
| RuleProcessor.EvaluateEqualsAndMatches | src/rule_processor.py:98-116 | "equals" is `is_equal_value` with its defaults; "matches" is plain `==` |
| RuleProcessor.FilterBySound | src/rule_processor.py:203-209 | a filter keeps, in order, exactly the objects its condition holds for |
| RuleProcessor.ApplyFiltersOrder | src/rule_processor.py:198-213 | the survivors of the filters are an ordered selection of the input |
| RuleProcessor.ApplyFiltersSound | src/rule_processor.py:198-213 | every surviving object satisfied every filter |
| RuleProcessor.PartitionCounts | src/rule_processor.py:217-226 | every survivor goes into exactly one of the two lists |
| RuleProcessor.PartitionOrder | src/rule_processor.py:217-226 | both lists keep the survivors' order |
| RuleProcessor.PartitionChecks | src/rule_processor.py:217-226 | the objects the check holds for pass, and the others fail |
| RuleProcessor.PartitionAllHold | src/rule_processor.py:217-226 | when the check holds for every survivor, nothing fails |
| RuleProcessor.ProcessRuleNothing | src/rule_processor.py:185-192 | no objects, an empty group or a group rejected with ValueError give two empty lists |
| RuleProcessor.ProcessRuleSound | src/rule_processor.py:166-228 | passed and failed objects are disjoint ordered selections of the input; each satisfied every filter; passed ones satisfy the check and failed ones do not |
| RuleProcessor.WhereOnlyNeverFails | src/rule_processor.py:158-161 | a group of WHERE rows only never fails an object |
| RuleProcessor.FilterObjects | src/rule_processor.py:203-209 | the comprehension loop computes the filter's specification |
| RuleProcessor.ApplyFilterConditions | src/rule_processor.py:198-213 | the filter loop computes the filters' specification, stopping at an empty list |
| RuleProcessor.PartitionObjects | src/rule_processor.py:217-226 | the final loop computes the pass/fail specification |
| RuleProcessor.ProcessRule | src/rule_processor.py:166-228 | `process_rule` computes its specification, whose properties are the lemmas above |
| RuleProcessor.ProcessRuleStopsWhenEmpty | src/rule_processor.py:211-213 | once the filters leave nothing, the check is never evaluated and nothing is reported |
| RuleProcessor.Rank | src/rule_processor.py:258 | INFO ranks lowest (0) and ERROR highest (2) |
| RuleProcessor.SeverityFromText | src/rule_processor.py:311-346 | the level is INFO for "INFO", WARNING for "WARNING" or "WARN", ERROR otherwise, after trimming and upper-casing |
| RuleProcessor.SeverityIgnoresCaseAndSpace | src/rule_processor.py:332 | texts that agree once trimmed and upper-cased give the same level |
| RuleProcessor.SeverityDefaultsToError | src/rule_processor.py:326-330 | a missing, empty or non-text severity is ERROR |
| RuleProcessor.SeverityRoundTrip | src/rule_processor.py:297-346 | each level's own name reads back as that level |
| RuleProcessor.GetSeverity | src/rule_processor.py:311-346 | a severity cell that is not text gives ERROR; INFO or WARNING only come from text reading, trimmed and upper-cased, INFO, WARNING or WARN |
| RuleProcessor.FormatMessage | src/rule_processor.py:440-456 | raises exactly when there is no Message column; a text message is returned as it is |
| RuleProcessor.ObjectIds | src/rule_processor.py:426 | one identifier per object |
| RuleProcessor.GetMetadata | src/rule_processor.py:349-384 | raises exactly when there is no Message column; gives the dictionary exactly when it serialises, holding the formatted message, the object count, the level of `get_severity` and PASS exactly for a pass |
| RuleProcessor.AttachResults | src/rule_processor.py:387-437 | no objects give no note; otherwise at most one note, in category "Rule <id>", naming one identifier per object |
| RuleProcessor.AttachResultsMeaning | src/rule_processor.py:387-437 | no objects emit nothing; otherwise one note in "Rule id" over every object, with the same message as its metadata and the object count, INFO and "PASS" exactly for a pass |
| RuleProcessor.PassNotesMeaning | src/rule_processor.py:276-277 | passes are reported, as one note with metadata, exactly under an INFO minimum when some object passed |
| RuleProcessor.FailNotesMeaning | src/rule_processor.py:280-281 | failures are reported, as one note with metadata, exactly when the rule's level reaches the minimum and some object failed |
| RuleProcessor.SkipNotesMeaning | src/rule_processor.py:283-289 | the skipped notice appears exactly when both lists are empty and skipped rules are shown; it is neither a pass nor a failure and has no metadata |
| RuleProcessor.RuleEntryResult | src/rule_processor.py:266-291 | a group's entry is its pass/fail split when it has both reporting columns, none otherwise |
| RuleProcessor.RuleEntryReports | src/rule_processor.py:269-291 | which notes a reportable group emits: passes under INFO, failures at or above the minimum, the skipped notice for empty results unless hidden |
| RuleProcessor.SkippedCategory | src/rule_processor.py:283-289 | the skipped notice has a category of its own |
| RuleProcessor.UnreportableSkipped | src/rule_processor.py:266-267 | a group without a Message or Report Severity column has no entry and emits nothing |
| RuleProcessor.FailingInfoIsError | src/rule_processor.py:416-423 | a failing rule whose severity is "Info" is reported at ERROR |
| RuleProcessor.PaddedWarningIsError | src/rule_processor.py:416-423 | " Warning" reads as WARNING for the metadata but is reported at ERROR |
| RuleProcessor.ReportSeverityLevels | src/rule_processor.py:311-346 | a non-empty severity text decides both the metadata level and the failure level |
| RuleProcessor.WarnIsWarning | src/rule_processor.py:416-423 | "warn" is reported at WARNING, as `get_severity` also reads it |
| RuleProcessor.ApplyRulesLast | src/rule_processor.py:261-291 | a successful run is the run of all but the last group, updated by the last group's entry |
| RuleProcessor.ApplyRulesEntries | src/rule_processor.py:256-294 | the result has an entry for exactly the reportable groups, and each entry is that group's pass/fail split |
| RuleProcessor.ReportSplitTrace | src/rule_processor.py:272-289 | under a minimum above INFO, every INFO note is a skipped notice without metadata; with skipped rules hidden, every note has metadata |
| RuleProcessor.RuleEntryTrace | src/rule_processor.py:261-291 | a group's notes keep that shape |
| RuleProcessor.ApplyRulesTrace | src/rule_processor.py:256-294 | all of a run's notes keep that shape |
| RuleProcessor.ApplyRulesStep | src/rule_processor.py:261-291 | one more group extends the run by that group's entry |
| RuleProcessor.ReportRule | src/rule_processor.py:271-289 | the reporting half of a loop pass emits the notes of its specification |
| RuleProcessor.ApplyRulesToObjects | src/rule_processor.py:231-294 | the loop computes the run's specification: result dictionary and emitted notes |
| RuleProcessor.ApplyRules | src/rule_processor.py:231-294 | a successful run has an entry for exactly the reportable rules |
| Filters.CategoryPartitionDefined | src/filters.py:6-31 | the category split never raises |
| Filters.FilterObjectsByCategory | src/filters.py:6-31 | the loop computes the split by the category test |
| Filters.CategorySplit | src/filters.py:6-31 | every element lands in exactly one list, the matching one exactly when its category equals the input; both lists keep input order and together make the input |
| Spreadsheet.ConvertMixedColumns | src/spreadsheet.py:179-203 | same columns and same number of rows |
| Spreadsheet.ConvertedCells | src/spreadsheet.py:179-203 | a column with a number-like cell keeps every cell; any other column holds text only, "" for a missing cell |
| Spreadsheet.ConvertKeepsKinds | src/spreadsheet.py:179-203 | converting keeps each column's kind |
| Spreadsheet.ConvertIdempotent | src/spreadsheet.py:179-203 | converting twice is converting once |
| Spreadsheet.NegativeIntIsNotDigitText | src/spreadsheet.py:197-201 | a negative number is not digit text |
| Spreadsheet.NatIsDigitText | src/spreadsheet.py:197-201 | a non-negative integer is digit text |
| Spreadsheet.NegativeColumnIsText | src/spreadsheet.py:179-203 | a column of negative integers only is turned into text |
| Spreadsheet.WhereIndices | src/spreadsheet.py:57 | the listed positions increase and are WHERE rows |
| Spreadsheet.WhereIndicesComplete | src/spreadsheet.py:57 | every WHERE row is listed |
| Spreadsheet.SliceNumber | src/spreadsheet.py:66-77 | a slice's number is never missing; it raises exactly when the row has no Rule Number column |
| Spreadsheet.Repeat | src/spreadsheet.py:84 | n copies of the label |
| Spreadsheet.WithRuleNumbers | src/spreadsheet.py:89 | every row gets its label as its Rule Number and keeps every other cell |
| Spreadsheet.NumberRules | src/spreadsheet.py:30-91 | a successful numbering numbers every row, keeps the row count and has a Rule Number column |
| Spreadsheet.CollectRuleNumbers | src/spreadsheet.py:60-86 | the loop computes the number list of its specification, and the used set is the set of its entries |
| Spreadsheet.ProcessRuleNumbers | src/spreadsheet.py:30-91 | the method computes the numbering of its specification |
| Spreadsheet.NumberRulesMeaning | src/spreadsheet.py:30-91 | numbering succeeds exactly when the table is empty or starts with a WHERE row; otherwise it raises ValueError |
| Spreadsheet.NumberRulesSlices | src/spreadsheet.py:60-89 | every row from one WHERE to the next is numbered with that slice's number and keeps its other cells |
| Spreadsheet.SliceTextMeaning | src/spreadsheet.py:66-84 | a missing number gives "Rule #"; text stays as it is; an integer becomes its digits |
| Spreadsheet.WhereNumbers | src/spreadsheet.py:118-123 | one rule number at most per row |
| Spreadsheet.ValidateRuleNumbers | src/spreadsheet.py:94-128 | the method computes the warnings of its specification |
| Spreadsheet.DuplicatedCounts | src/spreadsheet.py:123-126 | each value is listed as a duplicate once for every occurrence after its first |
| Spreadsheet.DuplicatedEmpty | src/spreadsheet.py:123-126 | no duplicate is listed exactly when no value repeats |
| Spreadsheet.NumberedWarnings | src/spreadsheet.py:94-128 | a numbered table warns only about repeated numbers of WHERE rows |
| Spreadsheet.InsertKeySorted | src/spreadsheet.py:169 | inserting into sorted distinct keys keeps them sorted and distinct and adds exactly the key |
| Spreadsheet.SortedKeysMeaning | src/spreadsheet.py:169 | the group keys are strictly sorted and are exactly the rule numbers |
| Spreadsheet.Labels | src/spreadsheet.py:169 | one rule number per row, in order |
| Spreadsheet.RowsNumberedMembers | src/spreadsheet.py:169 | a group holds exactly the rows of its number |
| Spreadsheet.RowsNumberedConcat | src/spreadsheet.py:169 | splitting the table splits every group the same way, so groups keep table order |
| Spreadsheet.GroupByMeaning | src/spreadsheet.py:169 | groups come in increasing, distinct rule-number order, none is empty, and every row is in the group of its number |
| Spreadsheet.ReadRulesMeaning | src/spreadsheet.py:131-176 | any failure gives no rules and exactly one message naming the exception; success gives sorted, distinct, non-empty groups and no missing-number warning |
| Spreadsheet.ReadRules | src/spreadsheet.py:131-176 | a failed read gives no rules and one message naming the exception; rules come back only when the read and the loading both succeed |
| Spreadsheet.RuleNumberWarnings | src/spreadsheet.py:94-128 | a table without a Rule Number column raises KeyError; otherwise at most two warnings, the missing-number warning first whenever a WHERE row lacks a number |
| Spreadsheet.LoadRulesSucceeds | src/spreadsheet.py:153-169 | with Logic and Rule Number present, loading succeeds exactly when the table is empty or starts with WHERE |
| LegacyRules.ContainsAt | src/rules_old.py:629-635 | substring containment holds exactly when the needle starts at some position |
| LegacyRules.MatchesNameModes | src/rules_old.py:629-635 | STRICT is case-insensitive equality; FUZZY is case-insensitive containment; every STRICT match is FUZZY, so MIXED is FUZZY |
| LegacyRules.TryGetValueThenConvert | src/rules_old.py:594-652 | the current `get_obj_value` is this extraction followed by the Yes/No conversion |
| LegacyRules.IsV3 | src/rules_old.py:125-135 | only an object with a properties member is a v3 object |
| LegacyRules.TryMatchPathSound | src/rules_old.py:658-681 | whatever the path search returns lies at the end of a way down through dicts matching the segments in order |
| LegacyRules.TryMatchPathFromSound | src/rules_old.py:668-681 | the same, for the item loop from item k on |
| LegacyRules.TryMatchPathComplete | src/rules_old.py:658-681 | whenever a way down exists, the path search finds something |
| LegacyRules.TryMatchPathFromComplete | src/rules_old.py:668-681 | the same, for the item loop from item k on |
| LegacyRules.FirstNameHit | src/rules_old.py:701-704 | the first searched member from k on whose name matches, and none only when none does |
| LegacyRules.LevelBeforeDescent | src/rules_old.py:701-711 | a match on a level wins over any match below it |
| LegacyRules.RecursiveSearchSound | src/rules_old.py:691-713 | whatever the search returns is the extracted value of a matching member somewhere below |
| LegacyRules.SearchBelowSound | src/rules_old.py:707-711 | the same, for the descent loop from member k on |
| LegacyRules.RecursiveSearchComplete | src/rules_old.py:691-713 | whenever a matching member exists somewhere below, the search finds something |
| LegacyRules.SearchBelowComplete | src/rules_old.py:707-711 | the same, for the descent loop from member k on |
| LegacyRules.SearchParametersMeaning | src/rules_old.py:611-715 | the result is a value at the end of a way down for a dotted name, else a member named like the last segment; a found path is preferred, and the search is complete |
| LegacyRules.SearchParameters | src/rules_old.py:611-715 | a found path is returned as it is; nothing is found only when the search for the last segment finds nothing |
| LegacyRules.LookupParameterMeaning | src/rules_old.py:718-756 | a direct member comes first, unwrapped when it is a dict with a value; otherwise the v3 tree or else the v2 tree is searched; found exactly when one of these succeeds |
| LegacyRules.LookupParameter | src/rules_old.py:718-756 | a direct member is always found; without one and without a parameter tree nothing is |
| LegacyRules.RequireNumber | src/rules_old.py:411-414 | passes exactly the numbers; anything else raises ValueError naming its type |
| LegacyRules.IsParameterValueLike | src/rules_old.py:345-374 | a missing parameter is never like anything; for a present one it raises exactly when the pattern is not text or, outside fuzzy mode, is a text `re` cannot compile, and a text pattern raises only `re.error` |
| LegacyRules.NumericPredicatesRaise | src/rules_old.py:398-487 | a present non-number makes every numeric predicate raise ValueError; a missing value makes each false |
| LegacyRules.IsParameterValueGreaterThan | src/rules_old.py:398-415 | passes only a numeric value; for a numeric value and a threshold that parses, the outcome is exactly whether the value is above the threshold |
| LegacyRules.IsParameterValueLessThan | src/rules_old.py:418-434 | passes only a numeric value; for a numeric value and a threshold that parses, the outcome is exactly whether the value is below the threshold |
| LegacyRules.IsParameterValueInRange | src/rules_old.py:437-458 | passes only a numeric value; for a numeric value and bounds that parse, the outcome is exactly min <= value <= max |
| LegacyRules.IsParameterValueInRangeExpanded | src/rules_old.py:461-487 | passes only a numeric value; for a numeric value the outcome is exactly lo <= value <= hi when inclusive and lo < value < hi otherwise |
| LegacyRules.RangeExpandedStrict | src/rules_old.py:437-487 | the strict range holds only where the inclusive one does and never at a bound; the text range is the inclusive range of its parsed bounds |
| LegacyRules.GreaterLessExclusive | src/rules_old.py:398-434 | no value is both above and below one threshold |
| LegacyRules.ListItems | src/rules_old.py:502-505 | a text list becomes one stripped item per comma-separated piece, blank ones included; a list stays as it is |
| LegacyRules.InListKeepsBlankItems | src/rules_old.py:490-515 | a value whose text is one of the pieces is in the list, even an empty one |
| LegacyRules.IsParameterValueInList | src/rules_old.py:490-515 | only a text or list argument can hold the value |
| LegacyRules.TrueFalseExclusive | src/rules_old.py:518-538 | no value is both true and false, and a boolean is exactly one |
| LegacyRules.IsParameterValueTrue | src/rules_old.py:518-532 | only a boolean or a text value can be true |
| LegacyRules.IsParameterValueFalse | src/rules_old.py:518-538 | only a boolean or a text value can be false |
| LegacyRules.GetCategoryValue | src/rules_old.py:574-587 | an object without a category gives None |

## Left out

- Reading the spreadsheet over HTTP (`pandas.read_csv`) is not modelled. `Spreadsheet.ReadRules` takes the outcome of the read as a parameter: a table, or the exception it raised.
- `speckle_print`, `print` and logging are left out. They change nothing the core returns.
- The annotations sent to the automation context are modelled as a trace of `Annotation` values returned with the result. The calls to `attach_result_to_objects` and `attach_info_to_objects` themselves are not modelled.
- The `rules_processed` counter of `apply_rules_to_objects` is not modelled, because it is never read.
- RuleProcessor.GetMetadata: JSON serialisability is a parameter. The metadata holds only text and integers, so in the model it always serialises and the empty-dictionary fallback is never taken.
- Regular-expression compilation and matching and the Levenshtein similarity ratio of `is_parameter_value_like` are parameters (`Matchers`). They are external library calls, so the model proves nothing about which patterns compile or what they match; an invalid pattern raises `re.error` as in the source.
- Floating-point numbers are real numbers plus NaN. Rounding, infinities, exponent notation and `repr` beyond 17 fractional digits are not modelled.
- Letter case and white space cover ASCII only. Unicode case folding and Unicode white space are not modelled.
- Spreadsheet cells are `None`, booleans, numbers or text. A list or dict cell cannot come out of a TSV file.
- The auto-numbering branch of `process_rule_numbers` (src/spreadsheet.py:72-77) and its `next_auto_num` counter are not modelled separately. A missing cell already becomes the text "Rule #", so that branch is never taken.
- The pandas `.str` accessor raises on a Logic column that holds no text at all. The model instead reads a non-text cell as no Logic word.
- `groupby` is modelled over text keys only. Numbering always makes the keys text.
- Spreadsheet.Duplicated: compares cells by value identity, so it does not treat the integer 1 and the float 1.0 as duplicates, as pandas does.
- `dir()` lists `Base` members in alphabetical order and includes methods. The model iterates a `Base` object's members in their stored order, and those are data members only.
- src/helpers.py is not part of this model. `get_item` and `has_item` in src/rules_old.py are taken to be member lookup on dicts and `Base` objects.
- LegacyRules.RecursiveSearch and LegacyRules.TryMatchPath: a `Value` is a finite tree, so both always return. The source keeps no set of visited objects (src/rules_old.py:658-713), so on an object graph with a cycle it recurses until Python raises RecursionError; the model cannot express such a graph.
- PropertyRules.IsParameterValueGreaterThanIntended and PropertyRules.IsParameterValueLessThanIntended: the rule engine dispatches to the as-written predicates, as the source does, so the corrected ones are not reached from `RuleProcessor.EvaluateCondition`.
- The `try`/`except` around `try_match_path` (src/rules_old.py:683-688) is not modelled. The modelled path search never raises.
- LegacyRules.TypeText: a `Base` object's class name is written as "Base", not as its subclass name.
- PropertyRules.InSeq: `x in list` is `==` for every element. Python's identity shortcut, which makes a NaN object equal to itself inside `in`, is not modelled.
- The display class `Rules` of src/rules_old.py (lines 15-101) is the same as the one in src/rules.py, which `DisplayRules` models. It is not modelled a second time. The same goes for `ParameterSearch.convert_revit_boolean` (src/rules_old.py:594-608), which is `PropertyRules.ConvertRevitBoolean`.
- The commented-out functions of src/rules_old.py (lines 138-327) are not code and are not modelled.
- `is_not_identical_value` does not exist on `PropertyRules`. The model resolves "not identical" to no method, as `getattr` does.

## Findings

| source | as written | input that shows it | evidently intended | confidence | as-written member | corrected member |
|---|---|---|---|---|---|---|
| src/rules.py:428-504 | `parse_number_from_string` tries `int()` before `float()`, so a float threshold is truncated toward zero | threshold `2.5` (a float cell) is read as 2, so a value of 2.2 counts as "greater than 2.5" | keep the float threshold's value, as `float()` would | not executed | PropertyRules.GreaterThanTruncatesThreshold | PropertyRules.GreaterThanReadsFloat |
