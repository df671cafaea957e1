/**
 * The meaning of a rule on a page (content.js, getTargetValue, processRule,
 * checkAndExecuteAll): what a condition tests, what an action writes, and what
 * a whole pass over the rule list does. The methods of `PageModel` and
 * `ContentScript` are proved to do exactly this.
 */
module Evaluation {
  import opened Options
  import opened JsStrings
  import opened Dom
  import opened Comparator
  import opened Rules

  /** A stored operand used as it is: a string, or the locator record itself. */
  function OperandValue(v: Operand): Value {
    match v
    case Literal(s) => Str(s)
    case Ref(l) => LocatorObject(l)
  }

  /**
   * `getTargetValue(type, value)`, read in the current page. A control
   * reference reads the referenced element now: a SELECT's plain value, another
   * element's value, or "" when nothing is found (a string is no locator and
   * finds nothing).
   */
  function TargetValue(dom: seq<Element>, b: Browser, t: SourceType, v: Operand): (r: Value)
    ensures !r.Dual?
    ensures t != Control ==> r == OperandValue(v)
    ensures t == Control ==> r.Str?
    ensures t == Control && (v.Literal? || Locate(dom, b, v.locator).None?) ==> r == Str("")
    ensures t == Control && v.Ref? && Locate(dom, b, v.locator).Some? ==>
      var e := dom[Locate(dom, b, v.locator).value];
      r == (if e.tag == Select then Str(SelectValue(e)) else Read(e))
  {
    if t != Control then OperandValue(v)
    else if v.Literal? then Str("")
    else match Locate(dom, b, v.locator)
      case None => Str("")
      case Some(i) => if dom[i].tag == Select then Str(SelectValue(dom[i])) else Read(dom[i])
  }

  /** One condition: its element is found and its value compares true against the target. */
  predicate ConditionHolds(dom: seq<Element>, b: Browser, c: Condition): (r: bool)
    ensures r ==> Locate(dom, b, c.locator).Some?
    ensures Locate(dom, b, c.locator).Some? ==>
      (r <==> Compare(Read(dom[Locate(dom, b, c.locator).value]), c.operator, TargetValue(dom, b, c.targetType, c.targetValue)))
  {
    match Locate(dom, b, c.locator)
    case None => false
    case Some(i) => Compare(Read(dom[i]), c.operator, TargetValue(dom, b, c.targetType, c.targetValue))
  }

  /**
   * A rule's conditions, tested in order: the first one that fails decides
   * the rule; the empty list holds.
   */
  predicate AllConditionsHold(dom: seq<Element>, b: Browser, cs: seq<Condition>): (r: bool)
    ensures |cs| > 0 && !ConditionHolds(dom, b, cs[0]) ==> !r
    ensures r ==> forall k :: 0 <= k < |cs| ==> Locate(dom, b, cs[k].locator).Some?
    decreases |cs|
  {
    cs == [] || (ConditionHolds(dom, b, cs[0]) && AllConditionsHold(dom, b, cs[1..]))
  }

  /** The conditions are ANDed: they all hold exactly when each one does, whatever the order. */
  lemma {:induction false} AllConditionsHoldEach(dom: seq<Element>, b: Browser, cs: seq<Condition>)
    ensures AllConditionsHold(dom, b, cs) <==> forall k :: 0 <= k < |cs| ==> ConditionHolds(dom, b, cs[k])
    decreases |cs|
  {
    if cs != [] {
      var rest := cs[1..];
      AllConditionsHoldEach(dom, b, rest);
      if forall k :: 0 <= k < |cs| ==> ConditionHolds(dom, b, cs[k]) {
        forall k | 0 <= k < |rest|
          ensures ConditionHolds(dom, b, rest[k])
        {
          assert rest[k] == cs[k + 1];
        }
      }
      if AllConditionsHold(dom, b, cs) {
        forall k | 0 <= k < |cs|
          ensures ConditionHolds(dom, b, cs[k])
        {
          if k > 0 {
            assert cs[k] == rest[k - 1];
          }
        }
      }
    }
  }

  /** A condition whose element cannot be found fails the whole rule, whatever the others say. */
  lemma UnresolvedConditionFailsRule(dom: seq<Element>, b: Browser, cs: seq<Condition>, k: nat)
    requires k < |cs| && Locate(dom, b, cs[k].locator).None?
    ensures !AllConditionsHold(dom, b, cs)
  {
    AllConditionsHoldEach(dom, b, cs);
  }

  /** The page after some writes, and the events those writes dispatched. */
  datatype Effect = Effect(dom: seq<Element>, events: seq<Event>)

  /** Writes leave an element's kind, attributes and options alone. */
  predicate SameShape(e: Element, f: Element) {
    e.tag == f.tag && e.id == f.id && e.name == f.name && e.options == f.options
  }

  /**
   * One action: when its element is found, the value obtained at this moment
   * is written to it; when it is not found, the action is skipped.
   */
  function RunAction(dom: seq<Element>, b: Browser, a: Action): (r: Effect)
    ensures |r.dom| == |dom|
    ensures forall i :: 0 <= i < |dom| ==> SameShape(r.dom[i], dom[i])
    ensures forall k :: 0 <= k < |r.events| ==> r.events[k].target < |dom|
    ensures Locate(dom, b, a.locator).None? ==> r == Effect(dom, [])
    ensures forall i :: 0 <= i < |dom| && Some(i) != Locate(dom, b, a.locator) ==> r.dom[i] == dom[i]
    ensures Locate(dom, b, a.locator).Some? ==>
      var i := Locate(dom, b, a.locator).value;
      var v := TargetValue(dom, b, a.valueType, a.value);
      r == Effect(dom[i := AfterWrite(dom[i], v)], WriteEvents(i, dom[i], v))
  {
    match Locate(dom, b, a.locator)
    case None => Effect(dom, [])
    case Some(i) =>
      var v := TargetValue(dom, b, a.valueType, a.value);
      Effect(dom[i := AfterWrite(dom[i], v)], WriteEvents(i, dom[i], v))
  }

  /** The actions in list order, each one seeing the page as the previous ones left it. */
  function RunActions(dom: seq<Element>, b: Browser, acts: seq<Action>): (r: Effect)
    decreases |acts|
    ensures |r.dom| == |dom|
    ensures forall i :: 0 <= i < |dom| ==> SameShape(r.dom[i], dom[i])
    ensures forall k :: 0 <= k < |r.events| ==> r.events[k].target < |dom|
  {
    if acts == [] then Effect(dom, [])
    else
      var prev := RunActions(dom, b, acts[..|acts| - 1]);
      var last := RunAction(prev.dom, b, acts[|acts| - 1]);
      Effect(last.dom, prev.events + last.events)
  }

  /** Appending to a log in two steps or in one. */
  lemma AppendTwice(log0: seq<Event>, e1: seq<Event>, e2: seq<Event>)
    ensures log0 + e1 + e2 == log0 + (e1 + e2)
  {
  }

  /** The actions up to `k + 1`: those up to `k`, then action `k` on the page they left. */
  lemma RunActionsExtend(dom: seq<Element>, b: Browser, acts: seq<Action>, k: nat)
    requires k < |acts|
    ensures var prev := RunActions(dom, b, acts[..k]);
      var step := RunAction(prev.dom, b, acts[k]);
      RunActions(dom, b, acts[..k + 1]) == Effect(step.dom, prev.events + step.events)
  {
    assert acts[..k + 1][..k] == acts[..k];
  }

  /**
   * Running two lists of actions one after the other is running their
   * concatenation: the second list sees the page the first one left, and
   * its events follow the first list's.
   */
  lemma {:induction false} RunActionsAppend(dom: seq<Element>, b: Browser, xs: seq<Action>, ys: seq<Action>)
    ensures var first := RunActions(dom, b, xs);
      var second := RunActions(first.dom, b, ys);
      RunActions(dom, b, xs + ys) == Effect(second.dom, first.events + second.events)
    decreases |ys|
  {
    var first := RunActions(dom, b, xs);
    if ys == [] {
      assert xs + ys == xs;
    } else {
      var front := ys[..|ys| - 1];
      assert (xs + ys)[..|xs + ys| - 1] == xs + front;
      assert (xs + ys)[|xs + ys| - 1] == ys[|ys| - 1];
      RunActionsAppend(dom, b, xs, front);
      var mid := RunActions(first.dom, b, front);
      var step := RunAction(mid.dom, b, ys[|ys| - 1]);
      var whole := RunActions(dom, b, xs + ys);
      assert RunActions(dom, b, xs + front) == Effect(mid.dom, first.events + mid.events);
      assert whole == Effect(step.dom, first.events + mid.events + step.events);
      var second := RunActions(first.dom, b, ys);
      assert second == Effect(step.dom, mid.events + step.events);
      AppendTwice(first.events, mid.events, step.events);
    }
  }

  /** What evaluating one rule does to the page: its actions when all conditions hold, nothing otherwise. */
  function RuleEffect(dom: seq<Element>, b: Browser, rule: Rule): (r: Effect)
    ensures |r.dom| == |dom|
    ensures !AllConditionsHold(dom, b, rule.conditions) ==> r == Effect(dom, [])
    ensures AllConditionsHold(dom, b, rule.conditions) ==> r == RunActions(dom, b, rule.actions)
  {
    if AllConditionsHold(dom, b, rule.conditions) then RunActions(dom, b, rule.actions) else Effect(dom, [])
  }

  /**
   * After an action writes the string `s` to an element, an `equals s`
   * condition on that element holds; for a SELECT this needs `s` to be empty
   * or to be the value or the label of one of its options.
   */
  lemma WrittenValueMatches(e: Element, s: string)
    requires e.tag == Select ==> s == "" || exists j :: 0 <= j < |e.options| && (e.options[j].value == s || e.options[j].text == s)
    ensures Compare(Read(AfterWrite(e, Str(s))), Equals, Str(s))
  {
    var r := AfterWrite(e, Str(s));
    if e.tag == Select {
      SelectWriteChoosesOption(e, s);
      if exists j :: 0 <= j < |e.options| && e.options[j].value == s {
        assert SelectValue(r) == s;
      } else if s == "" {
        assert SelectValue(r) == "";
      } else {
        var j :| 0 <= j < |e.options| && e.options[j].text == s;
        assert TextMatches(e.options[j], Str(s));
        assert SelectedText(r) == s;
      }
    }
  }

  /** A rule takes part in a pass when it is enabled and, unless the pass is forced, not manual. */
  predicate Eligible(rule: Rule, force: bool): (r: bool)
    ensures !rule.enabled ==> !r
    ensures rule.enabled && rule.triggerMode != Manual ==> r
    ensures force ==> (r <==> rule.enabled)
    ensures !force && rule.triggerMode == Manual ==> !r
  {
    rule.enabled && (force || rule.triggerMode != Manual)
  }

  /** The outcome of a pass: the match count, the rules with their new `lastMatched`, the page, the events. */
  datatype PassResult = PassResult(count: nat, rules: seq<Rule>, dom: seq<Element>, events: seq<Event>)

  /**
   * The loop of `checkAndExecuteAll(force)`: the rules in list order, each
   * eligible one evaluated on the page the earlier ones left.
   */
  function Pass(dom: seq<Element>, b: Browser, rules: seq<Rule>, force: bool): (r: PassResult)
    decreases |rules|
    ensures |r.rules| == |rules| && |r.dom| == |dom|
    ensures r.count <= |rules|
  {
    if rules == [] then PassResult(0, [], dom, [])
    else
      var prev := Pass(dom, b, rules[..|rules| - 1], force);
      var rule := rules[|rules| - 1];
      if !Eligible(rule, force) then prev.(rules := prev.rules + [rule])
      else
        var matched := AllConditionsHold(prev.dom, b, rule.conditions);
        var eff := RuleEffect(prev.dom, b, rule);
        PassResult(
          prev.count + (if matched then 1 else 0),
          prev.rules + [rule.(lastMatched := matched)],
          eff.dom,
          prev.events + eff.events)
  }

  /** A pass changes no rule but in its `lastMatched`, and leaves the rules that take no part in it untouched. */
  lemma {:induction false} PassOnlySetsLastMatched(dom: seq<Element>, b: Browser, rules: seq<Rule>, force: bool)
    ensures var r := Pass(dom, b, rules, force);
      forall k :: 0 <= k < |rules| ==> r.rules[k] == rules[k].(lastMatched := r.rules[k].lastMatched)
    ensures var r := Pass(dom, b, rules, force);
      forall k :: 0 <= k < |rules| && !Eligible(rules[k], force) ==> r.rules[k] == rules[k]
    decreases |rules|
  {
    if rules != [] {
      var n := |rules| - 1;
      var front := rules[..n];
      PassOnlySetsLastMatched(dom, b, front, force);
      var r, p := Pass(dom, b, rules, force), Pass(dom, b, front, force);
      assert r.rules == p.rules + [r.rules[n]];
      forall k | 0 <= k < n
        ensures r.rules[k] == p.rules[k] && rules[k] == front[k]
      {
      }
    }
  }

  /** The number of eligible rules among `rules` whose outcome in `results` is a match. */
  function MatchedEligible(rules: seq<Rule>, results: seq<Rule>, force: bool): (n: nat)
    requires |rules| == |results|
    decreases |rules|
    ensures n <= |rules|
  {
    if rules == [] then 0
    else
      var k := |rules| - 1;
      MatchedEligible(rules[..k], results[..k], force) + (if Eligible(rules[k], force) && results[k].lastMatched then 1 else 0)
  }

  /** A pass returns the number of eligible rules that matched. */
  lemma {:induction false} PassCountsMatches(dom: seq<Element>, b: Browser, rules: seq<Rule>, force: bool)
    ensures Pass(dom, b, rules, force).count == MatchedEligible(rules, Pass(dom, b, rules, force).rules, force)
    decreases |rules|
  {
    if rules != [] {
      var k := |rules| - 1;
      var r := Pass(dom, b, rules, force);
      var prev := Pass(dom, b, rules[..k], force);
      PassCountsMatches(dom, b, rules[..k], force);
      assert r.rules[..k] == prev.rules;
    }
  }

  /** The first `j` rules of a pass come out as a pass over those rules alone leaves them. */
  lemma {:induction false} PassPrefix(dom: seq<Element>, b: Browser, rules: seq<Rule>, force: bool, j: nat)
    requires j <= |rules|
    ensures Pass(dom, b, rules, force).rules[..j] == Pass(dom, b, rules[..j], force).rules
    decreases |rules|
  {
    if j < |rules| {
      var k := |rules| - 1;
      PassPrefix(dom, b, rules[..k], force, j);
      assert rules[..k][..j] == rules[..j];
      assert Pass(dom, b, rules, force).rules[..k] == Pass(dom, b, rules[..k], force).rules;
    } else {
      assert rules[..j] == rules;
    }
  }

  /** The last rule of a pass, when eligible, records its conditions on the page the others left. */
  lemma PassLastRule(dom: seq<Element>, b: Browser, front: seq<Rule>, rule: Rule, force: bool)
    requires Eligible(rule, force)
    ensures Pass(dom, b, front + [rule], force).rules[|front|].lastMatched
        == AllConditionsHold(Pass(dom, b, front, force).dom, b, rule.conditions)
  {
    var rules := front + [rule];
    assert rules[..|rules| - 1] == front;
    var prev := Pass(dom, b, front, force);
    assert |prev.rules| == |front|;
  }

  /**
   * Every eligible rule, manual ones included in a forced pass, is evaluated
   * on the page as the rules before it left it, and records that outcome.
   */
  lemma PassEvaluatesInOrder(dom: seq<Element>, b: Browser, rules: seq<Rule>, force: bool, k: nat)
    requires k < |rules| && Eligible(rules[k], force)
    ensures Pass(dom, b, rules, force).rules[k].lastMatched
        == AllConditionsHold(Pass(dom, b, rules[..k], force).dom, b, rules[k].conditions)
  {
    PassPrefix(dom, b, rules, force, k + 1);
    assert rules[..k + 1] == rules[..k] + [rules[k]];
    PassLastRule(dom, b, rules[..k], rules[k], force);
    var whole := Pass(dom, b, rules, force);
    assert whole.rules[k] == whole.rules[..k + 1][k];
  }

  /** A pass in which no rule is eligible matches nothing and leaves the page and the rules alone. */
  lemma {:induction false} PassWithoutEligibleRules(dom: seq<Element>, b: Browser, rules: seq<Rule>, force: bool)
    requires forall k :: 0 <= k < |rules| ==> !Eligible(rules[k], force)
    ensures Pass(dom, b, rules, force) == PassResult(0, rules, dom, [])
    decreases |rules|
  {
    if rules != [] {
      var k := |rules| - 1;
      PassWithoutEligibleRules(dom, b, rules[..k], force);
      assert rules[..k] + [rules[k]] == rules;
    }
  }

  /** A page with a country SELECT (value "US" or "CA" selected) and a zip code INPUT. */
  function CountryPage(selected: int): seq<Element> {
    [ Element(Select, "country", "", "", [SelectOption("US", "United States"), SelectOption("CA", "Canada")], selected, ""),
      Element(Input, "zip", "", "", [], -1, "") ]
  }

  /** If the country equals "US", set the zip code to "00000". */
  function ZipRule(): Rule {
    Rule("zip", true, Auto,
      [Condition(Locator(ById, "country"), Equals, Unspecified, Literal("US"))],
      [Action(Locator(ById, "zip"), Static, Literal("00000"))],
      false)
  }

  /** The zip rule's condition holds on the page with "US" selected. */
  lemma ZipConditionForUS(b: Browser)
    ensures ConditionHolds(CountryPage(0), b, ZipRule().conditions[0])
  {
    var dom := CountryPage(0);
    LocateByIdIsFirst(dom, b, "country", 0);
    assert Trim("US") == "US" by { TrimFixedPoints("US"); }
  }

  /** The country codes and names of the example page have no surrounding white space. */
  lemma CountryNamesAreTrimmed()
    ensures Trim("US") == "US" && Trim("CA") == "CA" && Trim("Canada") == "Canada"
  {
    TrimFixedPoints("US");
    TrimFixedPoints("CA");
    TrimFixedPoints("Canada");
  }

  /** A SELECT showing "CA" / "Canada" does not equal "US": neither its value nor its label does. */
  lemma CanadaIsNotUS()
    ensures !Compare(Dual("CA", "Canada"), Equals, Str("US"))
  {
    CountryNamesAreTrimmed();
    assert "CA" != "US" && "Canada" != "US";
  }

  /** The zip rule's condition fails on the page with "CA" selected: neither "CA" nor "Canada" is "US". */
  lemma ZipConditionForCA(b: Browser)
    ensures !ConditionHolds(CountryPage(1), b, ZipRule().conditions[0])
  {
    var dom := CountryPage(1);
    LocateByIdIsFirst(dom, b, "country", 0);
    CanadaIsNotUS();
    var c := ZipRule().conditions[0];
    assert Locate(dom, b, c.locator) == Some(0);
    assert Read(dom[0]) == Dual("CA", "Canada");
    assert TargetValue(dom, b, c.targetType, c.targetValue) == Str("US");
  }

  /** The zip rule's action on the page with "US" selected writes "00000" into the zip INPUT. */
  lemma ZipActionForUS(b: Browser)
    ensures RunAction(CountryPage(0), b, ZipRule().actions[0])
         == Effect(CountryPage(0)[1 := CountryPage(0)[1].(value := "00000")], [Event(InputEvent, 1), Event(ChangeEvent, 1)])
  {
    var dom := CountryPage(0);
    LocateByIdIsFirst(dom, b, "zip", 1);
    var zip := dom[1];
    assert AfterWrite(zip, Str("00000")) == zip.(value := "00000");
    assert WriteEvents(1, zip, Str("00000")) == [Event(InputEvent, 1), Event(ChangeEvent, 1)];
  }

  /** With "US" selected the rule matches and fills the zip code, dispatching `input` then `change`. */
  lemma ZipRuleFiresForUS(b: Browser)
    ensures AllConditionsHold(CountryPage(0), b, ZipRule().conditions)
    ensures RuleEffect(CountryPage(0), b, ZipRule())
         == Effect(CountryPage(0)[1 := CountryPage(0)[1].(value := "00000")], [Event(InputEvent, 1), Event(ChangeEvent, 1)])
  {
    ZipConditionForUS(b);
    ZipActionForUS(b);
    var acts := ZipRule().actions;
    assert acts[..0] == [];
  }

  /** With "CA" selected the rule does not match and the zip code is left alone. */
  lemma ZipRuleIdleForCA(b: Browser)
    ensures !AllConditionsHold(CountryPage(1), b, ZipRule().conditions)
    ensures RuleEffect(CountryPage(1), b, ZipRule()) == Effect(CountryPage(1), [])
  {
    ZipConditionForCA(b);
  }
}
