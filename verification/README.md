# Rule engine core: matcher, rule ids and rule-set store

A Dafny model of the decision logic of a small business-rules service. Callers
register named rule sets, append rules to them, and submit an input record to
be matched against one rule set; the action of the first rule that passes is
returned.

- `models.dfy`: `Results` (Option, Result) and `Models`, the records:
  a JSON `Value`, `Rule` (id, condition map, action), `ConditionDictionary`
  (label, attribute, operator), and `RuleSet`. A rule set's `rules` field is
  `None` when the stored field is null, which is how a rule set created
  without rules is stored. The types allow duplicate labels in the dictionary
  and duplicate ids in the rule list. (The source's `label` field is called
  `labelName`, since `label` is a Dafny keyword.)
- `input_logic.dfy`: `InputLogic`, the matcher. `ScanConditions`,
  `RuleVerdict` and `MatchFrom` are a functional reference of the two nested
  loops. `Exec` is the loops themselves, proved equal to the reference. The
  comparison evaluator is a function parameter (`Evaluator`) about which
  nothing is assumed. It is called as (input value, operator, expected value).
- `matcher_properties.dfy`: `MatcherProperties`, what the matcher decides,
  stated without reference to its loops.
- `rule_ids.dfy`: `RuleIds`, id assignment for an appended batch. It holds
  the assignment as written and a corrected one.
- `store.dfy`: `Store`, the rule-set collection and its operations as pure
  transitions returning a result or an error. The collection is a sequence of
  documents, because an update overwrites the name too and can therefore
  leave two documents with one name. `View` reads the collection as a map
  from name to the first document with that name.
- `store_properties.dfy`: `StoreProperties`, the operations as map
  transitions on `View` while names are unique.

Three behaviours of the code are worth knowing before reading the contracts:

- With an empty condition dictionary the inner loop records nothing, so the
  first rule matches vacuously, including one with an empty condition map.
- The matcher returns a null action both when no rule matched and when the
  matching rule's action is null. `Report` models that pair. `Outcome` keeps
  the two cases apart.
- The count used for rule ids counts documents that have the name and a
  non-null rule list, not rules. For a uniquely named rule set whose rule
  list is non-null, an empty array included, it is 1, and every appended rule
  gets id 2. With duplicate names it can be 2 or more, and the ids follow.

## Model

| member | source | states |
|---|---|---|
| InputLogic.CheckBoolean | endpoints/logic/input_logic.go:27-34 | the result is true iff no element of the slice is false, so an empty slice gives true |
| InputLogic.Exec | endpoints/logic/input_logic.go:36-67 | the nested loops return exactly what the reference matcher decides: the first passing rule's action, a null action with the evaluator's error, or a null action and no error when nothing matched; the rule-set name has no effect |
| MatcherProperties.ScanAllTrue | endpoints/logic/input_logic.go:40-61 | for a rule with a non-empty condition map, the dictionary scan ends with all-true answers iff the answers so far are all true and every entry the rule names passes |
| MatcherProperties.ScanAborts | endpoints/logic/input_logic.go:40-58 | for a rule with a non-empty condition map, the dictionary scan aborts with e iff the first entry whose evaluation errors does so with e |
| MatcherProperties.FireIff | endpoints/logic/input_logic.go:40-63 | a rule passes iff every dictionary entry it names has a present, non-null input attribute and the evaluator answers true on it |
| MatcherProperties.AbortIff | endpoints/logic/input_logic.go:50-58 | a rule aborts the match with e iff the first named entry whose evaluation errors yields e; later entries are not consulted |
| MatcherProperties.VacuousMatch | endpoints/logic/input_logic.go:46-48 | dictionary entries whose label the rule does not mention are skipped, so a rule mentioning none of the dictionary's labels matches vacuously |
| MatcherProperties.MissingAttributeBlocks | endpoints/logic/input_logic.go:50-53 | a mentioned entry whose input attribute is absent or null records false, so the rule cannot pass |
| MatcherProperties.EmptyConditionsFire | endpoints/logic/input_logic.go:40-44 | with a non-empty dictionary a rule with an empty condition map passes immediately, whatever the input and evaluator |
| MatcherProperties.EmptyDictionaryFires | endpoints/logic/input_logic.go:40-63 | with an empty dictionary nothing is recorded and every rule passes |
| MatcherProperties.VerdictDependsOnlyOnQueries | endpoints/logic/input_logic.go:50-59 | the verdict depends on the evaluator only at the calls (input value, operator, expected value) for mentioned entries with a non-null attribute; absent or null attributes never reach it |
| MatcherProperties.FirstMatchWins | endpoints/logic/input_logic.go:38-64 | the matcher returns rule k's action iff rule k passes and every earlier rule declines |
| MatcherProperties.ErrorAbortsMatch | endpoints/logic/input_logic.go:55-58 | the matcher fails with e at rule k iff rule k aborts with e and every earlier rule declines; the caller then gets a null action and that error |
| MatcherProperties.NoMatchIff | endpoints/logic/input_logic.go:38-66 | no rule matches iff every rule declines |
| MatcherProperties.EmptyConditionRuleReturnsAction | endpoints/logic/input_logic.go:38-44 | with a non-empty dictionary, a reached rule with an empty condition map returns its action whatever the input |
| MatcherProperties.EmptyDictionaryFirstRuleMatches | endpoints/logic/input_logic.go:38-63 | with an empty dictionary the first rule, if any, matches whatever its conditions |
| MatcherProperties.LaterRulesNotExamined | endpoints/logic/input_logic.go:38-64 | once rule k passes or aborts, replacing later rules, or changing the evaluator anywhere outside the calls rules 0..k can make, leaves the outcome unchanged |
| MatcherProperties.NilActionIndistinguishable | endpoints/logic/input_logic.go:61-66 | "no rule matched" and "a rule with a null action matched" are reported as the same pair |
| RuleIds.AssignIds | endpoints/api/db_handler.go:70-92 | ids only change, order and length kept; with count 0 the batch is numbered 1..N, otherwise every rule gets count+1 |
| RuleIds.AsWrittenDuplicateIds | endpoints/api/db_handler.go:80-83 | with count > 0 a batch of two or more carries duplicate ids |
| RuleIds.AsWrittenBreaksNumbering | endpoints/api/db_handler.go:80-83 | appending a non-empty batch with count 1 to a non-empty list numbered 1..n repeats id 2 when the list or the batch has two rules or more |
| RuleIds.MaxId | endpoints/api/db_handler.go:80-83 | the bound the corrected assignment numbers from: the largest id in the list, or 0 when no id is positive, and n for a list numbered 1..n |
| RuleIds.AssignFreshIds | endpoints/api/db_handler.go:80-83 | corrected assignment: only ids change, and rule i of the batch gets the largest existing id plus i+1 |
| RuleIds.FreshIdsStayDistinct | endpoints/api/db_handler.go:80-83 | with the corrected assignment, ids of the merged list stay distinct |
| RuleIds.FreshIdsContinueNumbering | endpoints/api/db_handler.go:70-83 | with the corrected assignment, a list numbered 1..n becomes 1..n+N |
| Store.CountDocuments | endpoints/api/db_handler.go:56-63 | the count is exactly the number of documents the filter selects, so it is zero iff none is selected |
| Store.FirstMatch | endpoints/api/db_handler.go:144-146 | the position returned is the first document the filter selects; none is returned iff none is selected |
| Store.InsertOneRule | endpoints/api/db_handler.go:26-35 | fails with "rule set already exists" iff a document has the name; otherwise the collection gains exactly that rule set at the end |
| Store.FindRuleSetByName | endpoints/api/db_handler.go:144-154 | fails with "rule does not exists" iff no document has the name; otherwise returns a stored rule set with that name |
| Store.UpdateRuleSet | endpoints/api/db_handler.go:167-180 | fails with "no data found" iff no document has the name; otherwise one document with the name is replaced by the supplied rule set |
| Store.DeleteRuleSet | endpoints/api/db_handler.go:195-205 | fails with "no data exists to be deleted" iff no document has the name; otherwise one document with the name is removed |
| Store.InsertRulesToRuleSet | endpoints/api/db_handler.go:56-104 | a name nobody has leaves the collection unchanged and succeeds; the append fails, with the database's own refusal, iff some document with the name has a rule list and the first one with the name has a null list; otherwise only that first document changes, its rule list becoming the old list (empty when the count is 0) followed by the batch with ids from the count |
| Store.InsertRulesFixed | endpoints/api/db_handler.go:70-92 | corrected append: an unknown name changes nothing; otherwise every document but the first with the name is unchanged, and that document's rule list becomes the old list followed by the batch numbered on from its largest id |
| StoreProperties.ViewIsFirstMatch | endpoints/api/db_handler.go:144-154 | the map view holds exactly the stored names, each bound to the first document with it |
| StoreProperties.FindIsLookup | endpoints/api/db_handler.go:144-154 | find is map lookup on the view: the entry, or "not found" |
| StoreProperties.InsertIsMapInsert | endpoints/api/db_handler.go:26-35 | insert fails iff the name is in the view; otherwise the view gains exactly that entry and names stay unique |
| StoreProperties.DeleteIsMapRemove | endpoints/api/db_handler.go:195-205 | with unique names delete fails iff the name is absent; otherwise the view loses exactly that name and names stay unique |
| StoreProperties.UpdateIsMapReplace | endpoints/api/db_handler.go:167-180 | with unique names update fails iff the name is absent; when the supplied name is the same or unused, a success removes the entry and enters the supplied rule set under its own name, and names stay unique |
| StoreProperties.UpdateRenameDuplicatesName | endpoints/api/db_handler.go:167-180 | an update that renames a rule set to another existing name succeeds and leaves two documents with one name |
| StoreProperties.AppendUnderDuplicateNames | endpoints/api/db_handler.go:56-92 | when two documents share the name, both have rule lists and the first of them is the first document with the name, the append succeeds and every rule it adds gets an id of 3 or more |
| StoreProperties.PushOntoNullRulesFails | endpoints/api/db_handler.go:56-101 | when the first document with the name has a null rule list and a later one with the name has a list, the append pushes onto the null list and fails |
| StoreProperties.CountWithRulesUnique | endpoints/api/db_handler.go:56-63 | with unique names the id count is 1 if the named rule set has a rule list and 0 otherwise |
| StoreProperties.AppendWithoutRules | endpoints/api/db_handler.go:70-79 | with unique names, appending to a rule set with a null rule list sets it to the batch numbered 1..N; nothing else changes |
| StoreProperties.AppendWithRules | endpoints/api/db_handler.go:80-91 | with unique names, appending to a rule set with a rule list pushes the batch after the existing rules in order, every new id being 2; nothing else changes |
| StoreProperties.AppendTwiceRepeatsIds | endpoints/api/db_handler.go:70-91 | with unique names, two appends, each adding at least one rule and together three or more, to a rule set created without rules leave duplicate ids |
| StoreProperties.FixedAppendIsMapUpdate | endpoints/api/db_handler.go:70-92 | the corrected append changes only the named rule list, to the old list followed by the renumbered batch |
| StoreProperties.FixedAppendKeepsIdsDistinct | endpoints/api/db_handler.go:70-92 | the corrected append keeps the named rule set's ids distinct |
| StoreProperties.FixedAppendTwiceNumbersOn | endpoints/api/db_handler.go:70-92 | two corrected appends to a rule set created without rules number its rules 1..N+M |

The record types follow endpoints/models/model.go:3-39. A rule is an id, a
map from label to value and an action (lines 3-7). A dictionary entry binds
one label to one attribute and one operator (lines 9-13). A rule set holds its
dictionary and rules as ordered sequences, and `rules` carries no validation
tag (lines 31-39).

## Left out

- ValidateRule (endpoints/logic/input_logic.go:10-25): the evaluator is a parameter. Expression rendering, parsing and evaluation by the foreign expression library are not modelled. Neither is the panic when it yields a non-boolean.
- JSON numbers are integers in `Value`. The source decodes them as floating point, but only the evaluator looks at them.
- HTTP handlers are not modelled: method checks, body and query parsing, the required-field validation of a rule set, and the mapping of error strings to status codes. Without that validation, the store operations accept any rule set.
- Database plumbing is not modelled: connections, timeouts, and driver errors other than the push onto a null rule list. The count-then-write sequences are not atomic, and the model treats each operation as one step.
- Store.Message: a refusal by the database, the push onto a null rule list, carries the database's own text, which is not modelled; `Message` gives `None` for it.
- Store.InsertOneRule: returns the new collection, not the inserted document's object id string.
- Store.FindRuleSetByName, Store.UpdateRuleSet, Store.DeleteRuleSet, Store.InsertRulesToRuleSet, Store.InsertRulesFixed, StoreProperties.AppendUnderDuplicateNames, StoreProperties.PushOntoNullRulesFails: the "first" document with a name is the first in sequence order. The database promises no order, so which document is read, replaced, removed or appended to is fixed by the model only once names are duplicated.
- Store.InsertRulesToRuleSet: a JSON null batch is treated as an empty batch, which the source does not do. With count 0, the source sets the rule list to a nil slice, which the driver stores as null. The list therefore stays null, and the next append numbers from 1 again. The model stores an empty list instead, so its next append gives id 2. With a positive count, the source pushes `$each` with a null value, which is the database's to refuse. The model appends nothing. Nil and empty slices are not modelled as distinct.
- Nil and empty slices are not distinguished for a rule set's bodies and dictionary either.
- RuleIds.AssignFreshIds: ids are unbounded integers, and 64-bit overflow of the largest id plus the batch length is not modelled.
- FetchAllRules: it only lists documents, so there is no logic to model.
- Repeated matching of the same rule set and input gives the same result by construction, since every member is a pure function. No lemma states it.
- Application setup, middleware, configuration loading and the log file are not modelled.

## Findings

| source | as written | input that shows it | evidently intended | confidence | as-written member | corrected member |
|---|---|---|---|---|---|---|
| endpoints/api/db_handler.go:80-83 | every rule of a batch appended to a rule set that already has rules gets the id `count + 1`, where `count` counts documents (1 for a uniquely named rule set) | create a rule set without rules, append three rules (ids 1, 2, 3), then append two more: both get id 2 | new rules continue the numbering (4 and 5), keeping ids unique within the rule set | high; not executed | StoreProperties.AppendTwiceRepeatsIds | StoreProperties.FixedAppendTwiceNumbersOn |
