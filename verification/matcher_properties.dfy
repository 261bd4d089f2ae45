/**
 Properties of the rule matcher: the verdict on one rule in terms of the
 dictionary entries it names, first-match-wins over the rule list, and the
 evaluator calls the outcome depends on.
 */
module MatcherProperties {
  import opened Results
  import opened Models
  import opened InputLogic

  // ---------------------------------------------------------------------------
  // Scanning the dictionary

  lemma {:induction false} ScanNeverUnconditional(conds: seq<ConditionDictionary>, rule: Rule,
                                                 input: map<string, Value>, eval: Evaluator, rec: seq<bool>)
    requires |rule.conditions| > 0
    ensures !ScanConditions(conds, rule, input, eval, rec).Unconditional?
    decreases |conds|
  {
    if conds != [] {
      var c := conds[0];
      if !Applies(c, rule) {
        ScanNeverUnconditional(conds[1..], rule, input, eval, rec);
      } else if IsNil(input, c.attribute) {
        ScanNeverUnconditional(conds[1..], rule, input, eval, rec + [false]);
      } else if Call(eval, QueryOf(c, rule, input)).Ok? {
        ScanNeverUnconditional(conds[1..], rule, input, eval, rec + [Call(eval, QueryOf(c, rule, input)).value]);
      }
    }
  }

  /** Every entry of `conds` that the rule names passes. */
  predicate AllApplicablePass(conds: seq<ConditionDictionary>, rule: Rule, input: map<string, Value>, eval: Evaluator)
  {
    forall j :: 0 <= j < |conds| && Applies(conds[j], rule) ==> Passes(conds[j], rule, input, eval)
  }

  lemma AllApplicablePassTail(conds: seq<ConditionDictionary>, rule: Rule, input: map<string, Value>, eval: Evaluator)
    requires conds != []
    ensures AllApplicablePass(conds, rule, input, eval)
        <==> (Applies(conds[0], rule) ==> Passes(conds[0], rule, input, eval))
             && AllApplicablePass(conds[1..], rule, input, eval)
  {
    if AllApplicablePass(conds[1..], rule, input, eval) && (Applies(conds[0], rule) ==> Passes(conds[0], rule, input, eval)) {
      forall j | 0 <= j < |conds| && Applies(conds[j], rule)
        ensures Passes(conds[j], rule, input, eval)
      {
        if j > 0 {
          assert conds[j] == conds[1..][j - 1];
        }
      }
    }
  }

  /** The scan ends with answers that are all true exactly when the answers
      recorded so far are, and every entry the rule names passes. */
  lemma {:induction false} ScanAllTrue(conds: seq<ConditionDictionary>, rule: Rule,
                                      input: map<string, Value>, eval: Evaluator, rec: seq<bool>)
    requires |rule.conditions| > 0
    ensures var s := ScanConditions(conds, rule, input, eval, rec);
            (s.Recorded? && CheckBoolean(s.results))
              <==> CheckBoolean(rec) && AllApplicablePass(conds, rule, input, eval)
    decreases |conds|
  {
    if conds != [] {
      var c := conds[0];
      AllApplicablePassTail(conds, rule, input, eval);
      if !Applies(c, rule) {
        ScanAllTrue(conds[1..], rule, input, eval, rec);
      } else if IsNil(input, c.attribute) {
        ScanAllTrue(conds[1..], rule, input, eval, rec + [false]);
        assert false in rec + [false];
      } else if Call(eval, QueryOf(c, rule, input)).Ok? {
        var b := Call(eval, QueryOf(c, rule, input)).value;
        ScanAllTrue(conds[1..], rule, input, eval, rec + [b]);
        assert (false !in rec + [b]) <==> (false !in rec) && b;
      }
    }
  }

  /** The entry at `k` is the first of `conds` whose evaluation errors, with `e`. */
  predicate FailsFirstAt(conds: seq<ConditionDictionary>, k: int, rule: Rule, input: map<string, Value>,
                         eval: Evaluator, e: EvalError)
  {
    && 0 <= k < |conds|
    && Fails(conds[k], rule, input, eval)
    && Call(eval, QueryOf(conds[k], rule, input)).error == e
    && forall j :: 0 <= j < k ==> !Fails(conds[j], rule, input, eval)
  }

  lemma FailsFirstShift(conds: seq<ConditionDictionary>, k: int, rule: Rule, input: map<string, Value>,
                        eval: Evaluator, e: EvalError)
    requires conds != [] && !Fails(conds[0], rule, input, eval)
    ensures FailsFirstAt(conds, k + 1, rule, input, eval, e) <==> FailsFirstAt(conds[1..], k, rule, input, eval, e)
  {
    if FailsFirstAt(conds[1..], k, rule, input, eval, e) {
      forall j | 0 <= j < k + 1
        ensures !Fails(conds[j], rule, input, eval)
      {
        if j > 0 {
          assert conds[j] == conds[1..][j - 1];
        }
      }
    }
    if FailsFirstAt(conds, k + 1, rule, input, eval, e) {
      forall j | 0 <= j < k
        ensures !Fails(conds[1..][j], rule, input, eval)
      {
        assert conds[1..][j] == conds[j + 1];
      }
    }
  }

  /** The scan aborts with `e` exactly when some entry's evaluation errors
      with `e` and no earlier entry's evaluation errors. */
  lemma {:induction false} ScanAborts(conds: seq<ConditionDictionary>, rule: Rule,
                                     input: map<string, Value>, eval: Evaluator, rec: seq<bool>, e: EvalError)
    requires |rule.conditions| > 0
    ensures ScanConditions(conds, rule, input, eval, rec) == Aborted(e)
        <==> exists k :: FailsFirstAt(conds, k, rule, input, eval, e)
    decreases |conds|
  {
    if conds != [] {
      var c := conds[0];
      if Fails(c, rule, input, eval) {
        if exists k :: FailsFirstAt(conds, k, rule, input, eval, e) {
          var k :| FailsFirstAt(conds, k, rule, input, eval, e);
          assert k == 0;
        } else {
          assert !FailsFirstAt(conds, 0, rule, input, eval, e);
        }
      } else {
        var rec' := if !Applies(c, rule) then rec
                    else if IsNil(input, c.attribute) then rec + [false]
                    else rec + [Call(eval, QueryOf(c, rule, input)).value];
        assert ScanConditions(conds, rule, input, eval, rec) == ScanConditions(conds[1..], rule, input, eval, rec');
        ScanAborts(conds[1..], rule, input, eval, rec', e);
        if exists k :: FailsFirstAt(conds, k, rule, input, eval, e) {
          var k :| FailsFirstAt(conds, k, rule, input, eval, e);
          FailsFirstShift(conds, k - 1, rule, input, eval, e);
        }
        if exists k :: FailsFirstAt(conds[1..], k, rule, input, eval, e) {
          var k :| FailsFirstAt(conds[1..], k, rule, input, eval, e);
          FailsFirstShift(conds, k, rule, input, eval, e);
        }
      }
    }
  }

  // ---------------------------------------------------------------------------
  // The verdict on one rule

  /** A rule fires exactly when every dictionary entry it names has a present,
      non-null input attribute and the evaluator answers true for it. In
      particular a rule that names no dictionary label fires whatever the
      input, and so does a rule with an empty condition map. */
  lemma FireIff(dict: seq<ConditionDictionary>, rule: Rule, input: map<string, Value>, eval: Evaluator)
    ensures RuleVerdict(dict, rule, input, eval) == Fire
        <==> forall j :: 0 <= j < |dict| && Applies(dict[j], rule) ==> Passes(dict[j], rule, input, eval)
  {
    if |rule.conditions| > 0 {
      ScanNeverUnconditional(dict, rule, input, eval, []);
      ScanAllTrue(dict, rule, input, eval, []);
    }
  }

  /** A rule aborts the match with `e` exactly when the first dictionary entry
      whose evaluation errors does so with `e`. */
  lemma AbortIff(dict: seq<ConditionDictionary>, rule: Rule, input: map<string, Value>, eval: Evaluator, e: EvalError)
    ensures RuleVerdict(dict, rule, input, eval) == Abort(e)
        <==> exists k :: FailsFirstAt(dict, k, rule, input, eval, e)
  {
    if |rule.conditions| > 0 {
      ScanAborts(dict, rule, input, eval, [], e);
    } else {
      assert forall k :: 0 <= k < |dict| ==> !Applies(dict[k], rule);
    }
  }

  /** A rule that names no label of the dictionary matches vacuously. */
  lemma VacuousMatch(dict: seq<ConditionDictionary>, rule: Rule, input: map<string, Value>, eval: Evaluator)
    requires forall j :: 0 <= j < |dict| ==> !Applies(dict[j], rule)
    ensures RuleVerdict(dict, rule, input, eval) == Fire
  {
    FireIff(dict, rule, input, eval);
  }

  /** An entry the rule names whose input attribute is absent or null records
      false, so the rule cannot fire. */
  lemma MissingAttributeBlocks(dict: seq<ConditionDictionary>, rule: Rule, input: map<string, Value>,
                               eval: Evaluator, k: nat)
    requires k < |dict| && Applies(dict[k], rule) && IsNil(input, dict[k].attribute)
    ensures RuleVerdict(dict, rule, input, eval) != Fire
  {
    FireIff(dict, rule, input, eval);
  }

  /** With a non-empty dictionary a rule whose condition map is empty fires,
      whatever the input and the evaluator. */
  lemma EmptyConditionsFire(dict: seq<ConditionDictionary>, rule: Rule, input: map<string, Value>, eval: Evaluator)
    requires dict != [] && rule.conditions == map[]
    ensures RuleVerdict(dict, rule, input, eval) == Fire
    ensures ScanConditions(dict, rule, input, eval, []) == Unconditional
  {
  }

  /** With an empty dictionary nothing is recorded, so every rule fires. */
  lemma EmptyDictionaryFires(rule: Rule, input: map<string, Value>, eval: Evaluator)
    ensures ScanConditions([], rule, input, eval, []) == Recorded([])
    ensures RuleVerdict([], rule, input, eval) == Fire
  {
  }

  /** The evaluator calls the rule could make against this input: one per
      dictionary entry it names whose attribute is present and non-null. */
  function Queries(dict: seq<ConditionDictionary>, rule: Rule, input: map<string, Value>): set<Query>
  {
    set j | 0 <= j < |dict| && Asks(dict[j], rule, input) :: QueryOf(dict[j], rule, input)
  }

  predicate Agree(eval: Evaluator, eval': Evaluator, qs: set<Query>)
  {
    forall q :: q in qs ==> Call(eval, q) == Call(eval', q)
  }

  lemma {:induction false} ScanAgree(conds: seq<ConditionDictionary>, rule: Rule, input: map<string, Value>,
                                    eval: Evaluator, eval': Evaluator, rec: seq<bool>)
    requires forall j :: 0 <= j < |conds| && Asks(conds[j], rule, input) ==>
               Call(eval, QueryOf(conds[j], rule, input)) == Call(eval', QueryOf(conds[j], rule, input))
    ensures ScanConditions(conds, rule, input, eval, rec) == ScanConditions(conds, rule, input, eval', rec)
    decreases |conds|
  {
    if conds != [] && |rule.conditions| > 0 {
      var c := conds[0];
      forall j | 0 <= j < |conds[1..]| && Asks(conds[1..][j], rule, input)
        ensures Call(eval, QueryOf(conds[1..][j], rule, input)) == Call(eval', QueryOf(conds[1..][j], rule, input))
      {
        assert conds[1..][j] == conds[j + 1];
      }
      if !Applies(c, rule) {
        ScanAgree(conds[1..], rule, input, eval, eval', rec);
      } else if IsNil(input, c.attribute) {
        ScanAgree(conds[1..], rule, input, eval, eval', rec + [false]);
      } else {
        assert Asks(conds[0], rule, input);
        if Call(eval, QueryOf(c, rule, input)).Ok? {
          ScanAgree(conds[1..], rule, input, eval, eval', rec + [Call(eval, QueryOf(c, rule, input)).value]);
        }
      }
    }
  }

  /** The verdict on a rule depends on the evaluator only through the calls
      listed by `Queries`: entries the rule does not name, and entries whose
      attribute is absent or null, never reach the evaluator. */
  lemma VerdictDependsOnlyOnQueries(dict: seq<ConditionDictionary>, rule: Rule, input: map<string, Value>,
                                    eval: Evaluator, eval': Evaluator)
    requires Agree(eval, eval', Queries(dict, rule, input))
    ensures RuleVerdict(dict, rule, input, eval) == RuleVerdict(dict, rule, input, eval')
  {
    forall j | 0 <= j < |dict| && Asks(dict[j], rule, input)
      ensures Call(eval, QueryOf(dict[j], rule, input)) == Call(eval', QueryOf(dict[j], rule, input))
    {
      assert QueryOf(dict[j], rule, input) in Queries(dict, rule, input);
    }
    ScanAgree(dict, rule, input, eval, eval', []);
  }

  // ---------------------------------------------------------------------------
  // First match wins

  /** Every rule before position `k` declines. */
  predicate DeclinedBefore(dict: seq<ConditionDictionary>, rules: seq<Rule>, k: int,
                           input: map<string, Value>, eval: Evaluator)
    requires k <= |rules|
  {
    forall j :: 0 <= j < k ==> RuleVerdict(dict, rules[j], input, eval) == Decline
  }

  lemma {:induction false} MatchFromDecides(dict: seq<ConditionDictionary>, rules: seq<Rule>, i: nat,
                                           input: map<string, Value>, eval: Evaluator)
    requires i <= |rules|
    ensures var o := MatchFrom(dict, rules, i, input, eval);
      && (o.Matched? ==> i <= o.index < |rules| && o.action == rules[o.index].action
                         && RuleVerdict(dict, rules[o.index], input, eval) == Fire)
      && (o.Failed? ==> i <= o.index < |rules| && RuleVerdict(dict, rules[o.index], input, eval) == Abort(o.error))
      && (forall j :: i <= j < |rules| && (o.NoMatch? || j < o.index) ==>
            RuleVerdict(dict, rules[j], input, eval) == Decline)
    decreases |rules| - i
  {
    if i < |rules| && RuleVerdict(dict, rules[i], input, eval) == Decline {
      MatchFromDecides(dict, rules, i + 1, input, eval);
    }
  }

  /** The matcher returns the action of rule `k` exactly when rule `k` fires
      and every earlier rule declines. */
  lemma FirstMatchWins(rs: RuleSet, input: map<string, Value>, eval: Evaluator, k: nat, a: Value)
    ensures Match(rs, input, eval) == Matched(k, a)
        <==> && k < |RulesOf(rs)|
             && RuleVerdict(rs.conditions, RulesOf(rs)[k], input, eval) == Fire
             && a == RulesOf(rs)[k].action
             && DeclinedBefore(rs.conditions, RulesOf(rs), k, input, eval)
  {
    MatchFromDecides(rs.conditions, RulesOf(rs), 0, input, eval);
  }

  /** The matcher fails with `e` exactly when some rule aborts with `e` and
      every earlier rule declines; the caller then receives a null action. */
  lemma ErrorAbortsMatch(rs: RuleSet, input: map<string, Value>, eval: Evaluator, k: nat, e: EvalError)
    ensures Match(rs, input, eval) == Failed(k, e)
        <==> && k < |RulesOf(rs)|
             && RuleVerdict(rs.conditions, RulesOf(rs)[k], input, eval) == Abort(e)
             && DeclinedBefore(rs.conditions, RulesOf(rs), k, input, eval)
    ensures Match(rs, input, eval) == Failed(k, e) ==> Report(Match(rs, input, eval)) == (Null, Some(e))
  {
    MatchFromDecides(rs.conditions, RulesOf(rs), 0, input, eval);
  }

  /** No rule matches exactly when every rule declines. */
  lemma NoMatchIff(rs: RuleSet, input: map<string, Value>, eval: Evaluator)
    ensures Match(rs, input, eval) == NoMatch
        <==> DeclinedBefore(rs.conditions, RulesOf(rs), |RulesOf(rs)|, input, eval)
  {
    MatchFromDecides(rs.conditions, RulesOf(rs), 0, input, eval);
  }

  /** With a non-empty dictionary, a rule with an empty condition map that is
      reached returns its action whatever the input. */
  lemma EmptyConditionRuleReturnsAction(rs: RuleSet, input: map<string, Value>, eval: Evaluator, k: nat)
    requires rs.conditions != [] && k < |RulesOf(rs)| && RulesOf(rs)[k].conditions == map[]
    requires DeclinedBefore(rs.conditions, RulesOf(rs), k, input, eval)
    ensures Match(rs, input, eval) == Matched(k, RulesOf(rs)[k].action)
  {
    EmptyConditionsFire(rs.conditions, RulesOf(rs)[k], input, eval);
    FirstMatchWins(rs, input, eval, k, RulesOf(rs)[k].action);
  }

  /** With an empty dictionary the first rule, if any, matches whatever its
      conditions and the input. */
  lemma EmptyDictionaryFirstRuleMatches(rs: RuleSet, input: map<string, Value>, eval: Evaluator)
    requires rs.conditions == [] && RulesOf(rs) != []
    ensures Match(rs, input, eval) == Matched(0, RulesOf(rs)[0].action)
  {
    EmptyDictionaryFires(RulesOf(rs)[0], input, eval);
  }

  lemma {:induction false} MatchFromAgree(dict: seq<ConditionDictionary>, rules: seq<Rule>, rules': seq<Rule>,
                                         i: nat, k: nat, input: map<string, Value>, eval: Evaluator, eval': Evaluator)
    requires i <= k < |rules| && k < |rules'|
    requires forall j :: i <= j <= k ==> rules'[j] == rules[j]
    requires forall j :: i <= j <= k ==>
               RuleVerdict(dict, rules[j], input, eval) == RuleVerdict(dict, rules[j], input, eval')
    requires forall j :: i <= j < k ==> RuleVerdict(dict, rules[j], input, eval) == Decline
    requires RuleVerdict(dict, rules[k], input, eval) != Decline
    ensures MatchFrom(dict, rules, i, input, eval) == MatchFrom(dict, rules', i, input, eval')
    decreases k - i
  {
    if i < k {
      MatchFromAgree(dict, rules, rules', i + 1, k, input, eval, eval');
    }
  }

  /** Once rule `k` decides the outcome (it fires or aborts), the rules after
      it are never examined and the evaluator is never consulted for them:
      replacing them, and changing the evaluator anywhere outside the calls
      rules `0..k` can make, leaves the outcome unchanged. */
  lemma LaterRulesNotExamined(rs: RuleSet, rs': RuleSet, input: map<string, Value>,
                              eval: Evaluator, eval': Evaluator, k: nat)
    requires !Match(rs, input, eval).NoMatch? && Match(rs, input, eval).index == k
    requires rs'.conditions == rs.conditions
    requires k < |RulesOf(rs)| && k < |RulesOf(rs')|
    requires RulesOf(rs')[..k + 1] == RulesOf(rs)[..k + 1]
    requires forall j :: 0 <= j <= k ==> Agree(eval, eval', Queries(rs.conditions, RulesOf(rs)[j], input))
    ensures Match(rs', input, eval') == Match(rs, input, eval)
  {
    var rules, rules', dict := RulesOf(rs), RulesOf(rs'), rs.conditions;
    MatchFromDecides(dict, rules, 0, input, eval);
    forall j | 0 <= j <= k
      ensures rules'[j] == rules[j]
      ensures RuleVerdict(dict, rules[j], input, eval) == RuleVerdict(dict, rules[j], input, eval')
    {
      assert rules'[j] == rules'[..k + 1][j];
      VerdictDependsOnlyOnQueries(dict, rules[j], input, eval, eval');
    }
    MatchFromAgree(dict, rules, rules', 0, k, input, eval, eval');
  }

  /** The reported pair cannot tell "no rule matched" from "a rule with a null
      action matched": both report a null action and no error. */
  lemma NilActionIndistinguishable(rs: RuleSet, rs': RuleSet, input: map<string, Value>, eval: Evaluator)
    requires Match(rs, input, eval) == NoMatch
    requires Match(rs', input, eval).Matched? && Match(rs', input, eval).action == Null
    ensures Report(Match(rs, input, eval)) == Report(Match(rs', input, eval)) == (Null, None)
  {
  }
}
