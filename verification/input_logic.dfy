/**
 The rule matcher: a rule set's rules are tried in list order against an input
 record and the action of the first rule that passes is returned.

 For each rule the matcher walks the rule set's condition dictionary (not the
 rule's own labels). An entry whose label the rule does not name is skipped; an
 entry whose input attribute is absent or null records `false`; any other entry
 asks the evaluator to compare the input value with the rule's expected value
 and records the answer. The rule passes when no recorded answer is `false`, so
 a rule that records nothing passes vacuously. A rule with an empty condition
 map passes at once, but only when the dictionary is non-empty, since that test
 sits inside the dictionary loop.
 */
module InputLogic {
  import opened Results
  import opened Models

  datatype EvalError = EvalError(message: string)

  /** The comparison evaluator, applied to (input value, operator, expected
      value). It renders and evaluates an expression with a foreign library,
      so the model takes it as a parameter and assumes nothing about it. */
  type Evaluator = (Value, string, Value) -> Result<bool, EvalError>

  /** One call of the evaluator: left operand, operator, right operand. */
  datatype Query = Query(left: Value, operator: string, right: Value)

  function Call(eval: Evaluator, q: Query): Result<bool, EvalError>
  {
    eval(q.left, q.operator, q.right)
  }

  /** True iff no element of the slice is false. */
  function CheckBoolean(slice: seq<bool>): (r: bool)
    ensures r <==> false !in slice
  {
    if slice == [] then true
    else if !slice[0] then false
    else
      assert slice == [slice[0]] + slice[1..];
      CheckBoolean(slice[1..])
  }

  // ---------------------------------------------------------------------------
  // One dictionary entry against one rule

  /** The rule names the entry's label, so the entry is considered for it. */
  predicate Applies(c: ConditionDictionary, rule: Rule)
  {
    c.labelName in rule.conditions
  }

  /** The entry applies and its input attribute is present and non-null, so
      the evaluator is called for it. */
  predicate Asks(c: ConditionDictionary, rule: Rule, input: map<string, Value>)
  {
    Applies(c, rule) && !IsNil(input, c.attribute)
  }

  /** The call made for an entry: the input value on the left, the rule's
      expected value on the right. */
  function QueryOf(c: ConditionDictionary, rule: Rule, input: map<string, Value>): Query
    requires Asks(c, rule, input)
  {
    Query(input[c.attribute], c.operator, rule.conditions[c.labelName])
  }

  /** The entry is evaluated and the evaluator answers true. */
  predicate Passes(c: ConditionDictionary, rule: Rule, input: map<string, Value>, eval: Evaluator)
  {
    Asks(c, rule, input) && Call(eval, QueryOf(c, rule, input)) == Ok(true)
  }

  /** The entry is evaluated and the evaluator reports an error. */
  predicate Fails(c: ConditionDictionary, rule: Rule, input: map<string, Value>, eval: Evaluator)
  {
    Asks(c, rule, input) && Call(eval, QueryOf(c, rule, input)).Err?
  }

  // ---------------------------------------------------------------------------
  // The inner loop: scanning the dictionary for one rule

  datatype ScanResult =
    | Unconditional               // the rule's condition map is empty
    | Recorded(results: seq<bool>)
    | Aborted(error: EvalError)

  /** The dictionary loop for one rule, continuing from `conds` with the
      answers recorded so far. */
  function ScanConditions(conds: seq<ConditionDictionary>, rule: Rule, input: map<string, Value>,
                          eval: Evaluator, recorded: seq<bool>): ScanResult
    decreases |conds|
  {
    if conds == [] then Recorded(recorded)
    else if |rule.conditions| == 0 then Unconditional
    else
      var c := conds[0];
      if !Applies(c, rule) then ScanConditions(conds[1..], rule, input, eval, recorded)
      else if IsNil(input, c.attribute) then ScanConditions(conds[1..], rule, input, eval, recorded + [false])
      else match Call(eval, QueryOf(c, rule, input))
        case Err(e) => Aborted(e)
        case Ok(b) => ScanConditions(conds[1..], rule, input, eval, recorded + [b])
  }

  datatype Verdict = Fire | Decline | Abort(error: EvalError)

  /** What the matcher concludes about one rule. */
  function RuleVerdict(dict: seq<ConditionDictionary>, rule: Rule, input: map<string, Value>,
                       eval: Evaluator): Verdict
  {
    match ScanConditions(dict, rule, input, eval, [])
    case Unconditional => Fire
    case Recorded(results) => if CheckBoolean(results) then Fire else Decline
    case Aborted(e) => Abort(e)
  }

  // ---------------------------------------------------------------------------
  // The outer loop: first match wins

  /** The matcher's outcome; `index` is the position of the deciding rule. */
  datatype Outcome =
    | Matched(index: nat, action: Value)
    | NoMatch
    | Failed(index: nat, error: EvalError)

  function MatchFrom(dict: seq<ConditionDictionary>, rules: seq<Rule>, i: nat,
                     input: map<string, Value>, eval: Evaluator): Outcome
    requires i <= |rules|
    decreases |rules| - i
  {
    if i == |rules| then NoMatch
    else match RuleVerdict(dict, rules[i], input, eval)
      case Fire => Matched(i, rules[i].action)
      case Abort(e) => Failed(i, e)
      case Decline => MatchFrom(dict, rules, i + 1, input, eval)
  }

  /** The matcher applied to a stored rule set. */
  function Match(rs: RuleSet, input: map<string, Value>, eval: Evaluator): Outcome
  {
    MatchFrom(rs.conditions, RulesOf(rs), 0, input, eval)
  }

  /** The pair the matcher hands back to its caller: the action, which is null
      when no rule matched or on error, and the error, if any. */
  function Report(o: Outcome): (Value, Option<EvalError>)
  {
    match o
    case Matched(_, a) => (a, None)
    case NoMatch => (Null, None)
    case Failed(_, e) => (Null, Some(e))
  }

  /** The matcher as the nested loops compute it. The rule set's name is
      accepted and not used. */
  method Exec(ruleSetName: string, rulesSelected: RuleSet, input: map<string, Value>, eval: Evaluator)
    returns (action: Value, err: Option<EvalError>)
    ensures (action, err) == Report(Match(rulesSelected, input, eval))
    ensures err.Some? ==> action == Null
  {
    var rules := RulesOf(rulesSelected);
    var dict := rulesSelected.conditions;
    var i := 0;
    while i < |rules|
      invariant 0 <= i <= |rules|
      invariant Match(rulesSelected, input, eval) == MatchFrom(dict, rules, i, input, eval)
    {
      var rule := rules[i];
      var boolComplete: seq<bool> := [];
      var j := 0;
      while j < |dict|
        invariant 0 <= j <= |dict|
        invariant ScanConditions(dict, rule, input, eval, [])
               == ScanConditions(dict[j..], rule, input, eval, boolComplete)
      {
        assert dict[j..][1..] == dict[j + 1..];
        var condition := dict[j];
        if |rule.conditions| == 0 {
          return rule.action, None;
        }
        if condition.labelName !in rule.conditions {
          j := j + 1;
          continue;
        }
        if IsNil(input, condition.attribute) {
          boolComplete := boolComplete + [false];
          j := j + 1;
          continue;
        }
        var result := eval(input[condition.attribute], condition.operator, rule.conditions[condition.labelName]);
        if result.Err? {
          return Null, Some(result.error);
        }
        boolComplete := boolComplete + [result.value];
        j := j + 1;
      }
      if CheckBoolean(boolComplete) {
        return rule.action, None;
      }
      i := i + 1;
    }
    return Null, None;
  }
}
