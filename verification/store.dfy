/**
 The rule-set collection and the operations the handlers perform on it,
 as pure transitions.

 The collection is a sequence of documents in natural order. Names are meant
 to be unique, and insertion checks that, but an update overwrites every field
 of the matched document, its name included, so a rename can make two
 documents share a name; the sequence can show that where a map keyed by name
 could not. `View` reads the collection as a map from name to the first
 document with that name, which is the rule set a lookup by name returns.
 */
module Store {
  import opened Results
  import opened Models
  import opened RuleIds

  type Collection = seq<RuleSet>

  datatype StoreError =
    | AlreadyExists      // insert: the name is taken
    | NotFound           // find: no rule set has the name
    | NoDataFound        // update: no rule set has the name
    | NothingToDelete    // delete: no rule set has the name
    | RulesNotAnArray    // append: the database refuses to push onto a null rule list

  /** The error text the route handlers compare against to choose a status
      code. A refusal by the database is passed through with the database's
      own text, which is not modelled. */
  function Message(e: StoreError): Option<string>
  {
    match e
    case AlreadyExists => Some("rule set already exists")
    case NotFound => Some("rule does not exists")
    case NoDataFound => Some("no data found")
    case NothingToDelete => Some("no data exists to be deleted")
    case RulesNotAnArray => None
  }

  /** The document filters used: by name, and by name with a non-null rule list. */
  datatype Filter = ByName(name: string) | ByNameWithRules(name: string)

  predicate Selects(f: Filter, rs: RuleSet)
  {
    match f
    case ByName(n) => rs.name == n
    case ByNameWithRules(n) => rs.name == n && rs.rules.Some?
  }

  function Names(c: Collection): set<string>
  {
    set i | 0 <= i < |c| :: c[i].name
  }

  predicate UniqueNames(c: Collection)
  {
    forall i, j :: 0 <= i < j < |c| ==> c[i].name != c[j].name
  }

  /** The positions of the documents the filter selects. */
  function Selected(c: Collection, f: Filter): set<int>
  {
    set i | 0 <= i < |c| && Selects(f, c[i])
  }

  /** The number of documents the filter selects. */
  function CountDocuments(c: Collection, f: Filter): (n: nat)
    ensures n == |Selected(c, f)|
    ensures n <= |c|
    ensures n == 0 <==> forall i :: 0 <= i < |c| ==> !Selects(f, c[i])
    decreases |c|
  {
    if c == [] then 0
    else
      var k := |c| - 1;
      assert forall i :: 0 <= i < k ==> c[..k][i] == c[i];
      assert Selected(c, f) == Selected(c[..k], f) + (if Selects(f, c[k]) then {k} else {});
      CountDocuments(c[..k], f) + (if Selects(f, c[k]) then 1 else 0)
  }

  /** The position of the first document the filter selects. */
  function FirstMatch(c: Collection, f: Filter): (r: Option<nat>)
    ensures r.Some? ==> r.value < |c| && Selects(f, c[r.value])
                        && forall j :: 0 <= j < r.value ==> !Selects(f, c[j])
    ensures r.None? ==> forall j :: 0 <= j < |c| ==> !Selects(f, c[j])
    decreases |c|
  {
    if c == [] then None
    else if Selects(f, c[0]) then Some(0)
    else
      assert forall i :: 1 <= i < |c| ==> c[i] == c[1..][i - 1];
      match FirstMatch(c[1..], f)
      case None => None
      case Some(i) => Some(i + 1)
  }

  /** The collection as a map from name to the first document with that name. */
  function View(c: Collection): map<string, RuleSet>
    decreases |c|
  {
    if c == [] then map[] else View(c[1..])[c[0].name := c[0]]
  }

  // ---------------------------------------------------------------------------
  // Operations

  /** Insert a new rule set; refused when a document already has its name. */
  function InsertOneRule(c: Collection, rs: RuleSet): (r: Result<Collection, StoreError>)
    ensures r.Err? <==> rs.name in Names(c)
    ensures r.Err? ==> r.error == AlreadyExists && Message(r.error) == Some("rule set already exists")
    ensures r.Ok? ==> |r.value| == |c| + 1 && r.value[..|c|] == c && r.value[|c|] == rs
  {
    if CountDocuments(c, ByName(rs.name)) > 0 then Err(AlreadyExists) else Ok(c + [rs])
  }

  /** Look a rule set up by name. */
  function FindRuleSetByName(c: Collection, name: string): (r: Result<RuleSet, StoreError>)
    ensures r.Err? <==> name !in Names(c)
    ensures r.Err? ==> r.error == NotFound && Message(r.error) == Some("rule does not exists")
    ensures r.Ok? ==> r.value.name == name && r.value in c
  {
    match FirstMatch(c, ByName(name))
    case None => Err(NotFound)
    case Some(i) => Ok(c[i])
  }

  /** Overwrite every field of the first document with the name, the name
      included, by the supplied rule set. */
  function UpdateRuleSet(c: Collection, name: string, updated: RuleSet): (r: Result<Collection, StoreError>)
    ensures r.Err? <==> name !in Names(c)
    ensures r.Err? ==> r.error == NoDataFound && Message(r.error) == Some("no data found")
    ensures r.Ok? ==> exists i :: 0 <= i < |c| && c[i].name == name && r.value == c[i := updated]
  {
    match FirstMatch(c, ByName(name))
    case None => Err(NoDataFound)
    case Some(i) => Ok(c[i := updated])
  }

  /** Delete the first document with the name. */
  function DeleteRuleSet(c: Collection, name: string): (r: Result<Collection, StoreError>)
    ensures r.Err? <==> name !in Names(c)
    ensures r.Err? ==> r.error == NothingToDelete && Message(r.error) == Some("no data exists to be deleted")
    ensures r.Ok? ==> exists i :: 0 <= i < |c| && c[i].name == name && r.value == c[..i] + c[i + 1..]
  {
    match FirstMatch(c, ByName(name))
    case None => Err(NothingToDelete)
    case Some(i) => Ok(c[..i] + c[i + 1..])
  }

  /** Append a batch of rules to the rule set with the name. The ids come from
      the number of documents with that name and a non-null rule list. With
      none, the rule list is set to the batch; otherwise the batch is pushed
      after the existing rules, which fails when the first document with the
      name has a null rule list. No document with the name: nothing changes.
      With duplicate names the count, and so every new id, can exceed 2. */
  function InsertRulesToRuleSet(c: Collection, name: string, batch: seq<Rule>): (r: Result<Collection, StoreError>)
    ensures name !in Names(c) ==> r == Ok(c)
    ensures name in Names(c) ==> FirstMatch(c, ByName(name)).Some?
    ensures r.Err? <==> name in Names(c) && CountDocuments(c, ByNameWithRules(name)) > 0
                        && c[FirstMatch(c, ByName(name)).value].rules.None?
    ensures r.Err? ==> r.error == RulesNotAnArray && Message(r.error).None?
    ensures r.Ok? ==> |r.value| == |c| && forall i :: 0 <= i < |c| ==> r.value[i].name == c[i].name
    ensures r.Ok? && name in Names(c) ==>
              var i := FirstMatch(c, ByName(name)).value;
              && (forall j :: 0 <= j < |c| && j != i ==> r.value[j] == c[j])
              && r.value[i] == c[i].(rules := Some(RulesOf(c[i]) + AssignIds(CountDocuments(c, ByNameWithRules(name)), batch)))
  {
    var count := CountDocuments(c, ByNameWithRules(name));
    var numbered := AssignIds(count, batch);
    match FirstMatch(c, ByName(name))
    case None => Ok(c)
    case Some(i) =>
      if count == 0 then
        assert !Selects(ByNameWithRules(name), c[i]);
        assert RulesOf(c[i]) + numbered == numbered;
        Ok(c[i := c[i].(rules := Some(numbered))])
      else match c[i].rules
        case None => Err(RulesNotAnArray)
        case Some(existing) => Ok(c[i := c[i].(rules := Some(existing + numbered))])
  }

  /** The append with the corrected id assignment: the batch is numbered on
      from the largest id already in the rule list. */
  function InsertRulesFixed(c: Collection, name: string, batch: seq<Rule>): (r: Collection)
    ensures name !in Names(c) ==> r == c
    ensures |r| == |c| && forall i :: 0 <= i < |c| ==> r[i].name == c[i].name
    ensures name in Names(c) ==> FirstMatch(c, ByName(name)).Some?
    ensures name in Names(c) ==>
              var i := FirstMatch(c, ByName(name)).value;
              && (forall j :: 0 <= j < |c| && j != i ==> r[j] == c[j])
              && r[i] == c[i].(rules := Some(RulesOf(c[i]) + AssignFreshIds(RulesOf(c[i]), batch)))
  {
    match FirstMatch(c, ByName(name))
    case None => c
    case Some(i) =>
      var existing := RulesOf(c[i]);
      c[i := c[i].(rules := Some(existing + AssignFreshIds(existing, batch)))]
  }
}
