/**
 The store operations read as transitions of a map from name to rule set:
 insert adds a name, find looks one up, update replaces one entry, delete
 removes one, and append changes only the named rule set's rule list.
 */
module StoreProperties {
  import opened Results
  import opened Models
  import opened RuleIds
  import opened Store

  // ---------------------------------------------------------------------------
  // The map view

  lemma NamesCons(c: Collection)
    requires c != []
    ensures Names(c) == {c[0].name} + Names(c[1..])
  {
    forall k | k in Names(c)
      ensures k == c[0].name || k in Names(c[1..])
    {
      var i :| 0 <= i < |c| && c[i].name == k;
      if i > 0 {
        assert c[1..][i - 1].name == k;
      }
    }
    forall k | k in Names(c[1..])
      ensures k in Names(c)
    {
      var i :| 0 <= i < |c[1..]| && c[1..][i].name == k;
      assert c[i + 1].name == k;
    }
  }

  /** The view holds exactly the stored names, each bound to the first
      document that carries it. */
  lemma {:induction false} ViewIsFirstMatch(c: Collection, name: string)
    ensures name in View(c) <==> name in Names(c)
    ensures name in View(c) ==> FirstMatch(c, ByName(name)).Some?
                                && View(c)[name] == c[FirstMatch(c, ByName(name)).value]
    decreases |c|
  {
    if c != [] {
      NamesCons(c);
      ViewIsFirstMatch(c[1..], name);
    }
  }

  /** With unique names every document is the view's entry for its name. */
  lemma ViewOfUnique(c: Collection)
    requires UniqueNames(c)
    ensures forall i :: 0 <= i < |c| ==> c[i].name in View(c) && View(c)[c[i].name] == c[i]
  {
    forall i | 0 <= i < |c|
      ensures c[i].name in View(c) && View(c)[c[i].name] == c[i]
    {
      assert c[i].name in Names(c);
      ViewIsFirstMatch(c, c[i].name);
    }
  }

  /** A collection with unique names has as view any map with the same names
      whose entries are the documents. */
  lemma ViewEquals(d: Collection, m: map<string, RuleSet>)
    requires UniqueNames(d)
    requires forall k :: k in m <==> k in Names(d)
    requires forall i :: 0 <= i < |d| ==> d[i].name in m && m[d[i].name] == d[i]
    ensures View(d) == m
  {
    forall k
      ensures k in View(d) <==> k in m
    {
      ViewIsFirstMatch(d, k);
    }
    forall k | k in m
      ensures View(d)[k] == m[k]
    {
      var i :| 0 <= i < |d| && d[i].name == k;
      ViewIsFirstMatch(d, k);
      var f := FirstMatch(d, ByName(k)).value;
      assert f == i;
    }
    assert View(d).Keys == m.Keys;
  }

  lemma {:induction false} ViewSnoc(c: Collection, x: RuleSet)
    requires x.name !in Names(c)
    ensures View(c + [x]) == View(c)[x.name := x]
    decreases |c|
  {
    if c == [] {
      assert (c + [x])[1..] == [];
    } else {
      NamesCons(c);
      assert (c + [x])[1..] == c[1..] + [x];
      ViewSnoc(c[1..], x);
      assert c[0].name != x.name;
    }
  }

  // ---------------------------------------------------------------------------
  // Operations as map transitions

  /** Find returns the view's entry for the name, and "not found" exactly when
      no document has the name. */
  lemma FindIsLookup(c: Collection, name: string)
    ensures FindRuleSetByName(c, name)
         == if name in View(c) then Ok(View(c)[name]) else Err(NotFound)
  {
    ViewIsFirstMatch(c, name);
  }

  /** A successful insert adds exactly the new rule set under its name, and
      keeps names unique. */
  lemma InsertIsMapInsert(c: Collection, rs: RuleSet)
    ensures InsertOneRule(c, rs).Err? <==> rs.name in View(c)
    ensures InsertOneRule(c, rs).Ok? ==> View(InsertOneRule(c, rs).value) == View(c)[rs.name := rs]
    ensures UniqueNames(c) && InsertOneRule(c, rs).Ok? ==> UniqueNames(InsertOneRule(c, rs).value)
  {
    ViewIsFirstMatch(c, rs.name);
    if rs.name !in Names(c) {
      ViewSnoc(c, rs);
      var d := c + [rs];
      forall i, j | 0 <= i < j < |d|
        ensures UniqueNames(c) ==> d[i].name != d[j].name
      {
        if j == |c| {
          assert d[i].name in Names(c);
        }
      }
    }
  }

  lemma RemoveAt(c: Collection, i: nat)
    requires UniqueNames(c) && i < |c|
    ensures var d := c[..i] + c[i + 1..];
            && (forall m :: 0 <= m < |d| ==> d[m] == c[if m < i then m else m + 1])
            && UniqueNames(d)
            && Names(d) == Names(c) - {c[i].name}
  {
    var d := c[..i] + c[i + 1..];
    assert forall m :: 0 <= m < |d| ==> d[m] == c[if m < i then m else m + 1];
    forall k | k in Names(c) - {c[i].name}
      ensures k in Names(d)
    {
      var m :| 0 <= m < |c| && c[m].name == k;
      assert d[if m < i then m else m - 1].name == k;
    }
  }

  /** With unique names, a successful delete removes exactly the named rule
      set and leaves every other one unchanged. */
  lemma DeleteIsMapRemove(c: Collection, name: string)
    requires UniqueNames(c)
    ensures DeleteRuleSet(c, name).Err? <==> name !in View(c)
    ensures DeleteRuleSet(c, name).Ok? ==>
              UniqueNames(DeleteRuleSet(c, name).value) && View(DeleteRuleSet(c, name).value) == View(c) - {name}
  {
    ViewIsFirstMatch(c, name);
    if name in Names(c) {
      var i := FirstMatch(c, ByName(name)).value;
      var d := c[..i] + c[i + 1..];
      RemoveAt(c, i);
      ViewOfUnique(c);
      var v := View(c) - {name};
      forall k
        ensures k in v <==> k in Names(d)
      {
        ViewIsFirstMatch(c, k);
      }
      forall m | 0 <= m < |d|
        ensures d[m].name in v && v[d[m].name] == d[m]
      {
        assert d[m] == c[if m < i then m else m + 1];
      }
      ViewEquals(d, v);
      assert DeleteRuleSet(c, name) == Ok(d);
    }
  }

  /** With unique names, a successful update replaces the named rule set by
      the supplied one, under the supplied one's name. When that name is the
      same or unused, names stay unique. */
  lemma UpdateIsMapReplace(c: Collection, name: string, updated: RuleSet)
    requires UniqueNames(c)
    requires updated.name == name || updated.name !in Names(c)
    ensures UpdateRuleSet(c, name, updated).Err? <==> name !in View(c)
    ensures UpdateRuleSet(c, name, updated).Ok? ==>
              UniqueNames(UpdateRuleSet(c, name, updated).value)
              && View(UpdateRuleSet(c, name, updated).value) == (View(c) - {name})[updated.name := updated]
  {
    ViewIsFirstMatch(c, name);
    ViewOfUnique(c);
    if name in Names(c) {
      var i := FirstMatch(c, ByName(name)).value;
      var d := c[i := updated];
      forall m, n | 0 <= m < n < |d|
        ensures d[m].name != d[n].name
      {
        if m == i {
          assert c[n].name in Names(c);
        } else if n == i {
          assert c[m].name in Names(c);
        }
      }
      var v := (View(c) - {name})[updated.name := updated];
      forall k
        ensures k in v <==> k in Names(d)
      {
        ViewIsFirstMatch(c, k);
        if k in Names(d) {
          var m :| 0 <= m < |d| && d[m].name == k;
        }
        if k in Names(c) && k != name {
          var m :| 0 <= m < |c| && c[m].name == k;
          assert d[m].name == k;
        }
        if k == updated.name {
          assert d[i].name == k;
        }
      }
      forall m | 0 <= m < |d|
        ensures d[m].name in v && v[d[m].name] == d[m]
      {
        if m != i {
          assert c[m].name in Names(c);
        }
      }
      ViewEquals(d, v);
    }
  }

  /** An update that renames a rule set to the name of another one succeeds
      and leaves two documents with the same name. */
  lemma UpdateRenameDuplicatesName(c: Collection, name: string, updated: RuleSet)
    requires UniqueNames(c)
    requires name in Names(c) && updated.name in Names(c) && updated.name != name
    ensures UpdateRuleSet(c, name, updated).Ok?
    ensures !UniqueNames(UpdateRuleSet(c, name, updated).value)
  {
    var i := FirstMatch(c, ByName(name)).value;
    var j :| 0 <= j < |c| && c[j].name == updated.name;
    var d := c[i := updated];
    assert d[i].name == d[j].name && i != j;
  }

  // ---------------------------------------------------------------------------
  // Append

  /** With unique names the count of documents that have the name and a
      non-null rule list is 1 or 0, according to the named rule set. */
  lemma CountWithRulesUnique(c: Collection, name: string)
    requires UniqueNames(c) && name in View(c)
    ensures CountDocuments(c, ByNameWithRules(name)) == if View(c)[name].rules.Some? then 1 else 0
  {
    ViewIsFirstMatch(c, name);
    var i := FirstMatch(c, ByName(name)).value;
    assert Selected(c, ByNameWithRules(name)) == if c[i].rules.Some? then {i} else {};
  }

  /** Appending to a rule set whose rule list is null sets the list to the
      batch numbered 1..N; nothing else changes. */
  lemma AppendWithoutRules(c: Collection, name: string, batch: seq<Rule>)
    requires UniqueNames(c) && name in View(c) && View(c)[name].rules.None?
    ensures InsertRulesToRuleSet(c, name, batch).Ok?
    ensures var d := InsertRulesToRuleSet(c, name, batch).value;
            && UniqueNames(d)
            && View(d) == View(c)[name := View(c)[name].(rules := Some(AssignIds(0, batch)))]
            && Sequential(RulesOf(View(d)[name]))
  {
    CountWithRulesUnique(c, name);
    ViewIsFirstMatch(c, name);
    var i := FirstMatch(c, ByName(name)).value;
    AppendChangesOnlyRules(c, name, Some(AssignIds(0, batch)));
    assert InsertRulesToRuleSet(c, name, batch) == Ok(c[i := c[i].(rules := Some(AssignIds(0, batch)))]);
  }

  /** Appending to a rule set that has a rule list pushes the batch after the
      existing rules, every new rule carrying the id 2; nothing else changes. */
  lemma AppendWithRules(c: Collection, name: string, batch: seq<Rule>, existing: seq<Rule>)
    requires UniqueNames(c) && name in View(c) && View(c)[name].rules == Some(existing)
    ensures InsertRulesToRuleSet(c, name, batch).Ok?
    ensures var d := InsertRulesToRuleSet(c, name, batch).value;
            && UniqueNames(d)
            && View(d) == View(c)[name := View(c)[name].(rules := Some(existing + AssignIds(1, batch)))]
            && forall i :: |existing| <= i < |RulesOf(View(d)[name])| ==> RulesOf(View(d)[name])[i].id == 2
  {
    CountWithRulesUnique(c, name);
    ViewIsFirstMatch(c, name);
    var i := FirstMatch(c, ByName(name)).value;
    AppendChangesOnlyRules(c, name, Some(existing + AssignIds(1, batch)));
    assert InsertRulesToRuleSet(c, name, batch) == Ok(c[i := c[i].(rules := Some(existing + AssignIds(1, batch)))]);
  }

  /** Two selected positions make a count of at least 2. */
  lemma CountAtLeastTwo(c: Collection, f: Filter, i: nat, j: nat)
    requires i < j < |c| && Selects(f, c[i]) && Selects(f, c[j])
    ensures CountDocuments(c, f) >= 2
  {
    var s := Selected(c, f);
    assert s == (s - {i, j}) + {i, j};
  }

  /** Two documents sharing a name, which a renaming update can produce
      (`UpdateRenameDuplicatesName`), both with rule lists: the count is at
      least 2, so every rule appended to the first of them gets an id of 3 or
      more. */
  lemma AppendUnderDuplicateNames(c: Collection, name: string, batch: seq<Rule>, i: nat, j: nat)
    requires i < j < |c| && c[i].name == name && c[j].name == name
    requires (forall m :: 0 <= m < i ==> c[m].name != name)
    requires c[i].rules.Some? && c[j].rules.Some?
    ensures InsertRulesToRuleSet(c, name, batch).Ok?
    ensures var rules := RulesOf(InsertRulesToRuleSet(c, name, batch).value[i]);
            forall m :: |RulesOf(c[i])| <= m < |rules| ==> rules[m].id >= 3
  {
    CountAtLeastTwo(c, ByNameWithRules(name), i, j);
    assert c[i].name in Names(c);
    assert FirstMatch(c, ByName(name)) == Some(i);
  }

  /** Two documents sharing a name, the first with a null rule list and a
      later one with a rule list: the count is positive, so the append pushes
      onto the first document's null list and the database refuses. */
  lemma PushOntoNullRulesFails(c: Collection, name: string, batch: seq<Rule>, i: nat, j: nat)
    requires i < j < |c| && c[i].name == name && c[j].name == name
    requires (forall m :: 0 <= m < i ==> c[m].name != name)
    requires c[i].rules.None? && c[j].rules.Some?
    ensures InsertRulesToRuleSet(c, name, batch) == Err(RulesNotAnArray)
  {
    assert j in Selected(c, ByNameWithRules(name));
    assert c[i].name in Names(c);
  }

  /** Replacing the rule list of the first document with the name is the map
      update of that entry. */
  lemma AppendChangesOnlyRules(c: Collection, name: string, rules: Option<seq<Rule>>)
    requires UniqueNames(c) && name in View(c)
    ensures FirstMatch(c, ByName(name)).Some?
    ensures var d := c[FirstMatch(c, ByName(name)).value := View(c)[name].(rules := rules)];
            UniqueNames(d) && View(d) == View(c)[name := View(c)[name].(rules := rules)]
  {
    ViewIsFirstMatch(c, name);
    ViewOfUnique(c);
    var i := FirstMatch(c, ByName(name)).value;
    var d := c[i := View(c)[name].(rules := rules)];
    assert forall m :: 0 <= m < |d| ==> d[m].name == c[m].name;
    assert Names(d) == Names(c) by {
      forall k | k in Names(c) ensures k in Names(d) {
        var m :| 0 <= m < |c| && c[m].name == k;
        assert d[m].name == k;
      }
    }
    var v := View(c)[name := View(c)[name].(rules := rules)];
    forall k
      ensures k in v <==> k in Names(d)
    {
      ViewIsFirstMatch(c, k);
    }
    ViewEquals(d, v);
  }

  // ---------------------------------------------------------------------------
  // Repeated appends: as written and corrected

  /** As written: two appends to a rule set created without rules, together
      adding three rules or more, leave duplicate ids in its rule list. */
  lemma AppendTwiceRepeatsIds(c: Collection, name: string, first: seq<Rule>, second: seq<Rule>)
    requires UniqueNames(c) && name in View(c) && View(c)[name].rules.None?
    requires |first| >= 1 && |second| >= 1 && |first| + |second| >= 3
    ensures InsertRulesToRuleSet(c, name, first).Ok?
    ensures var c1 := InsertRulesToRuleSet(c, name, first).value;
            && InsertRulesToRuleSet(c1, name, second).Ok?
            && name in View(InsertRulesToRuleSet(c1, name, second).value)
            && !DistinctIds(RulesOf(View(InsertRulesToRuleSet(c1, name, second).value)[name]))
  {
    AppendWithoutRules(c, name, first);
    var c1 := InsertRulesToRuleSet(c, name, first).value;
    var numbered := AssignIds(0, first);
    AppendWithRules(c1, name, second, numbered);
    AsWrittenBreaksNumbering(numbered, second);
  }

  /** Corrected: an append changes only the named rule set's rule list,
      which becomes the old list followed by the renumbered batch. */
  lemma FixedAppendIsMapUpdate(c: Collection, name: string, batch: seq<Rule>)
    requires UniqueNames(c) && name in View(c)
    ensures var d := InsertRulesFixed(c, name, batch);
            var existing := RulesOf(View(c)[name]);
            && UniqueNames(d)
            && View(d) == View(c)[name := View(c)[name].(rules := Some(existing + AssignFreshIds(existing, batch)))]
  {
    var existing := RulesOf(View(c)[name]);
    ViewIsFirstMatch(c, name);
    var i := FirstMatch(c, ByName(name)).value;
    AppendChangesOnlyRules(c, name, Some(existing + AssignFreshIds(existing, batch)));
    assert InsertRulesFixed(c, name, batch) == c[i := c[i].(rules := Some(existing + AssignFreshIds(existing, batch)))];
  }

  /** Corrected: appends keep the named rule set's ids distinct. */
  lemma FixedAppendKeepsIdsDistinct(c: Collection, name: string, batch: seq<Rule>)
    requires UniqueNames(c) && name in View(c) && DistinctIds(RulesOf(View(c)[name]))
    ensures name in View(InsertRulesFixed(c, name, batch))
    ensures DistinctIds(RulesOf(View(InsertRulesFixed(c, name, batch))[name]))
  {
    FixedAppendIsMapUpdate(c, name, batch);
    FreshIdsStayDistinct(RulesOf(View(c)[name]), batch);
  }

  /** Corrected: two appends to a rule set created without rules number its
      rules 1..N+M, as three and then two rules give ids 1..5. */
  lemma FixedAppendTwiceNumbersOn(c: Collection, name: string, first: seq<Rule>, second: seq<Rule>)
    requires UniqueNames(c) && name in View(c) && View(c)[name].rules.None?
    ensures var c2 := InsertRulesFixed(InsertRulesFixed(c, name, first), name, second);
            && name in View(c2)
            && |RulesOf(View(c2)[name])| == |first| + |second|
            && Sequential(RulesOf(View(c2)[name]))
  {
    FixedAppendIsMapUpdate(c, name, first);
    FreshIdsContinueNumbering([], first);
    var c1 := InsertRulesFixed(c, name, first);
    FixedAppendIsMapUpdate(c1, name, second);
    FreshIdsContinueNumbering(RulesOf(View(c1)[name]), second);
  }
}
