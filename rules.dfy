/** The rule records shared by the content script and the popup editor. */
module Rules {
  import opened Dom
  import opened Comparator

  /** `triggerMode`: only the string 'manual' makes a rule manual. */
  datatype TriggerMode = Auto | Manual

  /**
   * How a condition's target or an action's value is obtained: 'static' is a
   * literal, 'control' reads another element; `Unspecified` stands for an
   * absent or unknown type, which is used as a literal too.
   */
  datatype SourceType = Static | Control | Unspecified

  /** A target or value as stored: a string, or a locator record (the picker's result). */
  datatype Operand = Literal(text: string) | Ref(locator: Locator)

  datatype Condition = Condition(locator: Locator, operator: Operator, targetType: SourceType, targetValue: Operand)

  datatype Action = Action(locator: Locator, valueType: SourceType, value: Operand)

  datatype Rule = Rule(
    name: string,
    enabled: bool,
    triggerMode: TriggerMode,
    conditions: seq<Condition>,
    actions: seq<Action>,
    lastMatched: bool)
}
