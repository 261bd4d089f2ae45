/** Option and Result, used for absent fields and for operations that can fail. */
module Results {

  datatype Option<T> = None | Some(value: T)

  datatype Result<T, E> = Ok(value: T) | Err(error: E)
}

/**
 The records of the rule engine: rules, condition-dictionary entries and rule
 sets, as they are decoded from JSON request bodies and stored documents.
 */
module Models {
  import opened Results

  /** A dynamically typed JSON value, the `interface{}` of condition values,
      input attributes and actions. */
  datatype Value =
    | Null
    | Bool(b: bool)
    | Num(n: int)
    | Str(s: string)
    | Arr(items: seq<Value>)
    | Obj(fields: map<string, Value>)

  /** One branch of the decision list: an id, the expected value per
      condition label, and the action returned when the rule fires. */
  datatype Rule = Rule(id: int, conditions: map<string, Value>, action: Value)

  /** One entry of a rule set's condition dictionary: the label rules use,
      the input attribute it reads and the comparison operator it applies. */
  datatype ConditionDictionary = ConditionDictionary(labelName: string, attribute: string, operator: string)

  /** Declared shape of one expected input attribute (advisory only). */
  datatype Body = Body(name: string, typeName: string)

  /** Declared shape of the action values (advisory only). */
  datatype ActionDecl = ActionDecl(labelName: string, attribute: string, typeName: string)

  datatype Description = Description(condition: string, action: string)

  /** A named rule set. `rules` is `None` when the stored field is null,
      which is how a rule set created without rules is stored. */
  datatype RuleSet = RuleSet(
    name: string,
    endpoint: string,
    bodies: seq<Body>,
    conditions: seq<ConditionDictionary>,
    action: ActionDecl,
    rules: Option<seq<Rule>>,
    description: Description)

  /** The rules a matcher iterates: a null rule list is iterated as empty. */
  function RulesOf(rs: RuleSet): seq<Rule>
  {
    match rs.rules
    case None => []
    case Some(list) => list
  }

  /** An input attribute that is absent, or present with a JSON null. */
  predicate IsNil(input: map<string, Value>, attribute: string)
  {
    attribute !in input || input[attribute] == Null
  }
}
