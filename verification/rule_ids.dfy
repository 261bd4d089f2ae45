/**
 Ids for a batch of rules appended to a rule set.

 `AssignIds` is the assignment as the append computes it: `count` is the number
 of stored documents that carry the rule set's name and a non-null rule list
 (0 or 1 while names are unique). With `count == 0` the batch is numbered
 1..N; otherwise every rule of the batch gets the same id `count + 1`.

 `AssignFreshIds` is the corrected assignment: the batch continues after the
 largest id already in the list, so ids stay distinct and a list numbered
 1..n is extended to 1..n+N.
 */
module RuleIds {
  import opened Models

  /** Two rules agree on everything but their ids. */
  predicate SameContent(r: Rule, s: Rule)
  {
    r.conditions == s.conditions && r.action == s.action
  }

  predicate DistinctIds(rules: seq<Rule>)
  {
    forall i, j :: 0 <= i < j < |rules| ==> rules[i].id != rules[j].id
  }

  /** The rules are numbered 1, 2, 3, ... in list order. */
  predicate Sequential(rules: seq<Rule>)
  {
    forall i :: 0 <= i < |rules| ==> rules[i].id == i + 1
  }

  // ---------------------------------------------------------------------------
  // As written

  /** The batch with ids filled in from the document count `count`; only the
      ids change and the order is kept. */
  function AssignIds(count: nat, batch: seq<Rule>): (r: seq<Rule>)
    ensures |r| == |batch|
    ensures forall i :: 0 <= i < |r| ==> SameContent(r[i], batch[i])
    ensures count == 0 ==> Sequential(r)
    ensures count > 0 ==> forall i :: 0 <= i < |r| ==> r[i].id == count + 1
    decreases |batch|
  {
    if batch == [] then []
    else
      var last := batch[|batch| - 1];
      AssignIds(count, batch[..|batch| - 1]) + [last.(id := if count == 0 then |batch| else count + 1)]
  }

  /** Appended to a non-empty list, a batch of two or more rules carries
      duplicate ids. */
  lemma AsWrittenDuplicateIds(count: nat, batch: seq<Rule>)
    requires count > 0 && |batch| >= 2
    ensures !DistinctIds(AssignIds(count, batch))
    ensures AssignIds(count, batch)[0].id == AssignIds(count, batch)[1].id
  {
  }

  /** With the document count 1 of a uniquely named rule set that has rules,
      appending to a list numbered 1..n repeats an id as soon as the list has
      two rules or the batch has two rules: the new ids are all 2. */
  lemma AsWrittenBreaksNumbering(existing: seq<Rule>, batch: seq<Rule>)
    requires Sequential(existing) && |existing| >= 1 && |batch| >= 1
    requires |existing| >= 2 || |batch| >= 2
    ensures !DistinctIds(existing + AssignIds(1, batch))
  {
    var merged := existing + AssignIds(1, batch);
    if |existing| >= 2 {
      assert merged[1].id == 2 == merged[|existing|].id;
    } else {
      assert merged[1].id == 2 == merged[2].id;
    }
  }

  // ---------------------------------------------------------------------------
  // Corrected

  /** The largest id in the list, or 0 when there is none larger. */
  function MaxId(rules: seq<Rule>): (m: int)
    ensures m >= 0
    ensures forall i :: 0 <= i < |rules| ==> rules[i].id <= m
    ensures Sequential(rules) ==> m == |rules|
    ensures m == 0 || exists i :: 0 <= i < |rules| && rules[i].id == m
    decreases |rules|
  {
    if rules == [] then 0
    else
      var rest := MaxId(rules[..|rules| - 1]);
      var last := rules[|rules| - 1].id;
      if last > rest then last else rest
  }

  /** The batch numbered on from the largest id already present. */
  function AssignFreshIds(existing: seq<Rule>, batch: seq<Rule>): (r: seq<Rule>)
    ensures |r| == |batch|
    ensures forall i :: 0 <= i < |r| ==> SameContent(r[i], batch[i])
    ensures forall i :: 0 <= i < |r| ==> r[i].id == MaxId(existing) + i + 1
    decreases |batch|
  {
    if batch == [] then []
    else
      var last := batch[|batch| - 1];
      AssignFreshIds(existing, batch[..|batch| - 1]) + [last.(id := MaxId(existing) + |batch|)]
  }

  /** The corrected assignment keeps every id in the merged list distinct. */
  lemma FreshIdsStayDistinct(existing: seq<Rule>, batch: seq<Rule>)
    requires DistinctIds(existing)
    ensures DistinctIds(existing + AssignFreshIds(existing, batch))
  {
    var added := AssignFreshIds(existing, batch);
    var merged := existing + added;
    forall i, j | 0 <= i < j < |merged|
      ensures merged[i].id != merged[j].id
    {
      if j >= |existing| {
        assert merged[j] == added[j - |existing|];
        if i < |existing| {
          assert merged[i].id <= MaxId(existing);
        } else {
          assert merged[i] == added[i - |existing|];
        }
      }
    }
  }

  /** The corrected assignment extends a list numbered 1..n to 1..n+N. */
  lemma FreshIdsContinueNumbering(existing: seq<Rule>, batch: seq<Rule>)
    requires Sequential(existing)
    ensures Sequential(existing + AssignFreshIds(existing, batch))
  {
    var added := AssignFreshIds(existing, batch);
    var merged := existing + added;
    forall i | |existing| <= i < |merged|
      ensures merged[i].id == i + 1
    {
      assert merged[i] == added[i - |existing|];
    }
  }
}
