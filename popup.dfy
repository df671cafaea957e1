/**
 * The popup's rule editor (popup.js): the list of rules of the site being
 * viewed, the draft of the rule being edited, and the list and draft updates
 * made by its buttons and by the element picker's result.
 */
module Popup {
  import opened Options
  import opened Dom
  import opened Comparator
  import opened Rules

  /** `pickerTarget.type`: what the picked element is for — 'condition', 'action' or 'action_value'. */
  datatype PickerKind = ConditionLocator | ActionLocator | ActionValue

  /** Which row of the draft the picker was started from. */
  datatype PickerTarget = PickerTarget(kind: PickerKind, index: nat)

  /**
   * `draftState`: the rule being edited, for which site, whether it is new,
   * its position in the list (-1 when new), and the pending picker request.
   */
  datatype Draft = Draft(domain: string, rule: Rule, isNew: bool, index: int, pickerTarget: Option<PickerTarget>)

  /** The editor's form fields read back by `updateDraftFromDOM`. */
  datatype FormFields = FormFields(name: string, enabled: bool, triggerMode: TriggerMode)

  /** The rule a new draft starts from: named "新规则", enabled, automatic, with no conditions or actions. */
  const NewRule := Rule("\U{65B0}\U{89C4}\U{5219}", true, Auto, [], [], false)

  /** The row the add-condition button appends: an empty locator, `equals`, an empty target. */
  const DefaultCondition := Condition(Locator(Unrecognised, ""), Equals, Unspecified, Literal(""))

  /** The row the add-action button appends: an empty locator and an empty static value. */
  const DefaultAction := Action(Locator(Unrecognised, ""), Static, Literal(""))

  /** The copy `copyRule` appends: the same rule, renamed with " (Copy)" and not marked as matched. */
  function CopyOf(rule: Rule): (r: Rule)
    ensures r.name == rule.name + " (Copy)" && !r.lastMatched
    ensures r.(name := rule.name, lastMatched := rule.lastMatched) == rule
  {
    rule.(name := rule.name + " (Copy)", lastMatched := false)
  }

  /** `updateDraftFromDOM`: the name, enabled flag and trigger mode come from the form; the rest of the rule stays. */
  function FromForm(rule: Rule, form: FormFields): (r: Rule)
    ensures r.name == form.name && r.enabled == form.enabled && r.triggerMode == form.triggerMode
    ensures r.conditions == rule.conditions && r.actions == rule.actions && r.lastMatched == rule.lastMatched
  {
    rule.(name := form.name, enabled := form.enabled, triggerMode := form.triggerMode)
  }

  /**
   * The array `splice(start, 1)` leaves: a negative start counts from the
   * end, and a start past the end removes nothing.
   */
  function Splice<T>(s: seq<T>, start: int): (r: seq<T>)
    ensures 0 <= start < |s| ==> |r| == |s| - 1 && r[..start] == s[..start] && r[start..] == s[start + 1..]
    ensures start >= |s| ==> r == s
    ensures -|s| <= start < 0 ==> r == s[..|s| + start] + s[|s| + start + 1..]
    ensures start < -|s| ==> r == if s == [] then s else s[1..]
  {
    var k := if start < 0 then (if |s| + start < 0 then 0 else |s| + start) else start;
    if k < |s| then s[..k] + s[k + 1..] else s
  }

  /** Removing one element removes exactly that occurrence and keeps every other one. */
  lemma SpliceRemovesOne<T>(s: seq<T>, i: nat)
    requires i < |s|
    ensures multiset(Splice(s, i)) + multiset{s[i]} == multiset(s)
  {
    assert s == s[..i] + [s[i]] + s[i + 1..];
  }

  /** Removing the last element undoes appending it, so deleting a fresh copy restores the list. */
  lemma SpliceUndoesAppend<T>(s: seq<T>, x: T)
    ensures Splice(s + [x], |s|) == s
  {
    assert (s + [x])[..|s|] == s;
  }

  /** The editor's state: the site viewed, its rules, and the draft if one is open. */
  class Editor {
    var viewDomain: string
    var currentRules: seq<Rule>
    var draft: Option<Draft>

    /** An open draft is new exactly when its index is -1, and otherwise points into the list. */
    ghost predicate Valid()
      reads this
    {
      draft.Some? ==>
        && (draft.value.isNew <==> draft.value.index == -1)
        && (!draft.value.isNew ==> 0 <= draft.value.index < |currentRules|)
    }

    constructor (domain: string, rules: seq<Rule>)
      ensures viewDomain == domain && currentRules == rules && draft == None
      ensures Valid()
    {
      viewDomain := domain;
      currentRules := rules;
      draft := None;
    }

    /**
     * `applyPickerResult(draftState, result)`: nothing without a pending
     * picker request; otherwise the locator (or, for an action's value, the
     * value) of the requested row becomes the picked locator and the request
     * is cleared. A row index past the end of its list throws, which leaves
     * the draft as it was; `ok` is false then.
     */
    method ApplyPickerResult(picked: Locator) returns (ok: bool)
      requires draft.Some?
      modifies this
      ensures viewDomain == old(viewDomain) && currentRules == old(currentRules)
      ensures var d := old(draft).value;
        match d.pickerTarget
        case None => ok && draft == old(draft)
        case Some(t) =>
          match t.kind
          case ConditionLocator =>
            if t.index < |d.rule.conditions| then
              var c := d.rule.conditions[t.index];
              ok && draft == Some(d.(rule := d.rule.(conditions := d.rule.conditions[t.index := c.(locator := picked)]), pickerTarget := None))
            else !ok && draft == old(draft)
          case ActionLocator =>
            if t.index < |d.rule.actions| then
              var a := d.rule.actions[t.index];
              ok && draft == Some(d.(rule := d.rule.(actions := d.rule.actions[t.index := a.(locator := picked)]), pickerTarget := None))
            else !ok && draft == old(draft)
          case ActionValue =>
            if t.index < |d.rule.actions| then
              var a := d.rule.actions[t.index];
              ok && draft == Some(d.(rule := d.rule.(actions := d.rule.actions[t.index := a.(value := Ref(picked))]), pickerTarget := None))
            else !ok && draft == old(draft)
      ensures ok ==> draft.Some? && draft.value.pickerTarget.None?
      ensures draft.Some? && draft.value.domain == old(draft).value.domain && draft.value.isNew == old(draft).value.isNew
      ensures draft.value.index == old(draft).value.index && draft.value.rule.name == old(draft).value.rule.name
      ensures old(Valid()) ==> Valid()
    {
      var d := draft.value;
      if d.pickerTarget.None? {
        return true;
      }
      var t := d.pickerTarget.value;
      var rule := d.rule;
      match t.kind {
        case ConditionLocator =>
          if t.index >= |rule.conditions| {
            return false;
          }
          rule := rule.(conditions := rule.conditions[t.index := rule.conditions[t.index].(locator := picked)]);
        case ActionLocator =>
          if t.index >= |rule.actions| {
            return false;
          }
          rule := rule.(actions := rule.actions[t.index := rule.actions[t.index].(locator := picked)]);
        case ActionValue =>
          if t.index >= |rule.actions| {
            return false;
          }
          rule := rule.(actions := rule.actions[t.index := rule.actions[t.index].(value := Ref(picked))]);
      }
      draft := Some(d.(rule := rule, pickerTarget := None));
      ok := true;
    }

    /** `copyRule(index)`: a copy of the rule, renamed and not matched, is appended; every earlier rule stays. */
    method CopyRule(index: nat)
      requires index < |currentRules|
      modifies this
      ensures currentRules == old(currentRules) + [CopyOf(old(currentRules)[index])]
      ensures |currentRules| == |old(currentRules)| + 1 && currentRules[..|old(currentRules)|] == old(currentRules)
      ensures viewDomain == old(viewDomain) && draft == old(draft)
      ensures old(Valid()) ==> Valid()
    {
      var copy := CopyOf(currentRules[index]);
      currentRules := currentRules + [copy];
    }

    /**
     * `startEdit(index)`: -1 opens a draft of a new rule, any other index a
     * draft of a copy of that rule, for the site being viewed and with no
     * picker request pending.
     */
    method StartEdit(index: int)
      requires index == -1 || 0 <= index < |currentRules|
      modifies this
      ensures draft.Some? && draft.value.domain == viewDomain && draft.value.index == index
      ensures draft.value.isNew <==> index == -1
      ensures draft.value.pickerTarget.None?
      ensures draft.value.rule == if index == -1 then NewRule else old(currentRules)[index]
      ensures index == -1 ==> var r := draft.value.rule;
        r.enabled && r.triggerMode == Auto && r.conditions == [] && r.actions == [] && !r.lastMatched
      ensures viewDomain == old(viewDomain) && currentRules == old(currentRules)
      ensures Valid()
    {
      var isNew := index == -1;
      var rule := if isNew then NewRule else currentRules[index];
      draft := Some(Draft(viewDomain, rule, isNew, index, None));
    }

    /**
     * `saveFinalRule`: the form's fields go into the draft's rule, which is
     * appended when new and otherwise replaces the rule at the draft's
     * index; then the draft is closed.
     */
    method SaveFinalRule(form: FormFields)
      requires draft.Some? && (!draft.value.isNew ==> 0 <= draft.value.index < |currentRules|)
      modifies this
      ensures var d := old(draft).value;
        var saved := FromForm(d.rule, form);
        currentRules == if d.isNew then old(currentRules) + [saved] else old(currentRules)[d.index := saved]
      ensures old(draft).value.isNew ==> |currentRules| == |old(currentRules)| + 1 && currentRules[..|old(currentRules)|] == old(currentRules)
      ensures !old(draft).value.isNew ==>
        && |currentRules| == |old(currentRules)|
        && forall j :: 0 <= j < |currentRules| && j != old(draft).value.index ==> currentRules[j] == old(currentRules)[j]
      ensures draft == None && viewDomain == old(viewDomain)
      ensures Valid()
    {
      var d := draft.value;
      var saved := FromForm(d.rule, form);
      if d.isNew {
        currentRules := currentRules + [saved];
      } else {
        currentRules := currentRules[d.index := saved];
      }
      draft := None;
    }

    /**
     * The delete button: a draft of an existing rule is deleted from the list
     * once the user confirms, and the draft is closed; a new draft is only
     * closed; an unconfirmed deletion changes nothing.
     */
    method DeleteRule(confirmed: bool)
      requires draft.Some?
      modifies this
      ensures var d := old(draft).value;
        if !d.isNew && confirmed then currentRules == Splice(old(currentRules), d.index) && draft == None
        else if d.isNew then currentRules == old(currentRules) && draft == None
        else currentRules == old(currentRules) && draft == old(draft)
      ensures old(Valid()) && !old(draft).value.isNew && confirmed ==>
        var i := old(draft).value.index;
        |currentRules| == |old(currentRules)| - 1
        && currentRules[..i] == old(currentRules)[..i] && currentRules[i..] == old(currentRules)[i + 1..]
      ensures viewDomain == old(viewDomain)
      ensures old(Valid()) ==> Valid()
    {
      var d := draft.value;
      if !d.isNew && confirmed {
        currentRules := Splice(currentRules, d.index);
        draft := None;
      } else if d.isNew {
        draft := None;
      }
    }

    /** The add-condition button: the form's fields are taken in, and one default condition is appended. */
    method AddCondition(form: FormFields)
      requires draft.Some?
      modifies this
      ensures var d := old(draft).value;
        var r := FromForm(d.rule, form);
        draft == Some(d.(rule := r.(conditions := r.conditions + [DefaultCondition])))
      ensures |draft.value.rule.conditions| == |old(draft).value.rule.conditions| + 1
      ensures draft.value.rule.actions == old(draft).value.rule.actions
      ensures currentRules == old(currentRules) && viewDomain == old(viewDomain)
      ensures old(Valid()) ==> Valid()
    {
      var d := draft.value;
      var rule := FromForm(d.rule, form);
      draft := Some(d.(rule := rule.(conditions := rule.conditions + [DefaultCondition])));
    }

    /** The add-action button: the form's fields are taken in, and one default action is appended. */
    method AddAction(form: FormFields)
      requires draft.Some?
      modifies this
      ensures var d := old(draft).value;
        var r := FromForm(d.rule, form);
        draft == Some(d.(rule := r.(actions := r.actions + [DefaultAction])))
      ensures |draft.value.rule.actions| == |old(draft).value.rule.actions| + 1
      ensures draft.value.rule.conditions == old(draft).value.rule.conditions
      ensures currentRules == old(currentRules) && viewDomain == old(viewDomain)
      ensures old(Valid()) ==> Valid()
    {
      var d := draft.value;
      var rule := FromForm(d.rule, form);
      draft := Some(d.(rule := rule.(actions := rule.actions + [DefaultAction])));
    }
  }

  /** Deleting the copy just made, by its position at the end, gives back the list as it was before copying. */
  lemma DeleteUndoesCopy(rules: seq<Rule>, i: nat)
    requires i < |rules|
    ensures Splice(rules + [CopyOf(rules[i])], |rules|) == rules
  {
    SpliceUndoesAppend(rules, CopyOf(rules[i]));
  }
}
