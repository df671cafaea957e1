/**
 * The live document and the two content-script routines that change it:
 * `setElementValue` and `processRule` (content.js).
 */
module PageModel {
  import opened Options
  import opened Dom
  import opened Comparator
  import opened Rules
  import opened Evaluation

  /**
   * The document: its elements in document order, which writes update in
   * place, the browser's query engines, and a record of every event dispatched.
   */
  class Page {
    var dom: seq<Element>
    const browser: Browser
    ghost var log: seq<Event>

    constructor (elements: seq<Element>, b: Browser)
      ensures dom == elements && browser == b && log == []
    {
      dom := elements;
      browser := b;
      log := [];
    }

    /**
     * `setElementValue(el, value)` on the element at position `i`: skipped when
     * the current value is identical, otherwise the element is written and its
     * events are dispatched.
     */
    method SetElementValue(i: nat, value: Value)
      requires i < |dom|
      modifies this
      ensures dom == old(dom)[i := AfterWrite(old(dom)[i], value)]
      ensures log == old(log) + WriteEvents(i, old(dom)[i], value)
    {
      var el := dom[i];
      var valToSet := if value.Dual? then Str(value.value) else value;
      if StrictEquals(Read(el), valToSet) {
        return;
      }
      match el.tag {
        case Input =>
          dom := dom[i := el.(value := JsString(valToSet))];
          log := log + [Event(InputEvent, i), Event(ChangeEvent, i)];
        case TextArea =>
          dom := dom[i := el.(value := JsString(valToSet))];
          log := log + [Event(InputEvent, i), Event(ChangeEvent, i)];
        case Select =>
          el := el.(selectedIndex := IndexOfValue(el.options, JsString(valToSet)));
          ghost var byValue := el;
          if !(valToSet.Str? && SelectValue(el) == valToSet.s) {
            for k := 0 to |el.options|
              invariant el == byValue
              invariant forall j :: 0 <= j < k ==> !TextMatches(el.options[j], valToSet)
            {
              if valToSet.Str? && el.options[k].text == valToSet.s {
                el := el.(selectedIndex := k);
                assert IndexOfText(byValue.options, valToSet) == Some(k) by {
                  FindOptionIs(byValue.options, WithText(valToSet), k);
                }
                break;
              }
            }
          }
          dom := dom[i := el];
          log := log + [Event(ChangeEvent, i)];
        case Other =>
          dom := dom[i := el.(innerText := JsString(valToSet))];
      }
    }

    /**
     * One turn of the `rule.actions.forEach` of processRule: the action's
     * element is located, and when found it is written the value obtained at
     * this moment; when not found the action is skipped.
     */
    method PerformAction(a: Action)
      modifies this
      ensures dom == RunAction(old(dom), browser, a).dom
      ensures log == old(log) + RunAction(old(dom), browser, a).events
    {
      var el := Locate(dom, browser, a.locator);
      if el.Some? {
        var valueToSet := TargetValue(dom, browser, a.valueType, a.value);
        SetElementValue(el.value, valueToSet);
      }
    }

    /**
     * The `rule.actions.forEach` of processRule: each action in list order
     * writes the value obtained at that moment to its element, or is skipped
     * when its element is missing.
     */
    method RunActionList(actions: seq<Action>)
      modifies this
      ensures dom == RunActions(old(dom), browser, actions).dom
      ensures log == old(log) + RunActions(old(dom), browser, actions).events
    {
      ghost var dom0, log0 := dom, log;
      ghost var done := RunActions(dom0, browser, []);
      for k := 0 to |actions|
        invariant done == RunActions(dom0, browser, actions[..k])
        invariant dom == done.dom && log == log0 + done.events
      {
        RunActionsExtend(dom0, browser, actions, k);
        PerformAction(actions[k]);
        ghost var step := RunAction(done.dom, browser, actions[k]);
        AppendTwice(log0, done.events, step.events);
        done := Effect(step.dom, done.events + step.events);
      }
      assert actions[..|actions|] == actions;
    }

    /**
     * One turn of the condition loop of `processRule`: locate the element
     * (a missing one fails the condition), read it, obtain the target now, compare.
     */
    method EvaluateCondition(c: Condition) returns (holds: bool)
      ensures holds == ConditionHolds(dom, browser, c)
    {
      var el := Locate(dom, browser, c.locator);
      if el.None? {
        return false;
      }
      var elValue := Read(dom[el.value]);
      var targetValue := TargetValue(dom, browser, c.targetType, c.targetValue);
      holds := Compare(elValue, c.operator, targetValue);
    }

    /**
     * The condition loop of `processRule`: the conditions in order, stopping
     * at the first one that fails.
     */
    method CheckConditions(conditions: seq<Condition>) returns (matched: bool)
      ensures matched == AllConditionsHold(dom, browser, conditions)
    {
      matched := true;
      for k := 0 to |conditions|
        invariant matched
        invariant AllConditionsHold(dom, browser, conditions) == AllConditionsHold(dom, browser, conditions[k..])
      {
        var holds := EvaluateCondition(conditions[k]);
        assert conditions[k..][1..] == conditions[k + 1..];
        if !holds {
          matched := false;
          break;
        }
      }
    }

    /**
     * `processRule(rule)`: the conditions in order, stopping at the first one
     * that fails; when none fails, the actions in order, each skipped when its
     * element is missing. Returns the match and the rule with `lastMatched` set.
     */
    method ProcessRule(rule: Rule) returns (matched: bool, updated: Rule)
      modifies this
      ensures matched == AllConditionsHold(old(dom), browser, rule.conditions)
      ensures updated == rule.(lastMatched := matched)
      ensures dom == RuleEffect(old(dom), browser, rule).dom
      ensures log == old(log) + RuleEffect(old(dom), browser, rule).events
    {
      matched := CheckConditions(rule.conditions);
      if matched {
        RunActionList(rule.actions);
      }
      updated := rule.(lastMatched := matched);
    }
  }
}
