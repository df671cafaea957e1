/**
 * The content script's own state and entry points (content.js, init,
 * startMonitoring, checkAndExecuteAll): the site's rules, the observer, the
 * debounce timer and the sticky "context invalidated" flag, held by one object
 * per page.
 */
module ContentScript {
  import opened Options
  import opened Dom
  import opened Rules
  import opened Evaluation
  import opened Scheduler
  import opened PageModel

  /** What one pass reports: the badge count and the rules stored for the site. */
  datatype Report = Report(count: nat, rules: seq<Rule>)

  /**
   * One more rule in a pass: when `hit`, `updated`, `dom1` and `events` are
   * what processing the next rule (or passing it over) gives on the page the
   * pass has left so far, the pass over one more rule is that pass extended by them.
   */
  lemma NextPass(dom0: seq<Element>, b: Browser, rules0: seq<Rule>, k: nat, force: bool, done: PassResult,
                 hit: bool, updated: Rule, dom1: seq<Element>, events: seq<Event>)
    requires k < |rules0| && done == Pass(dom0, b, rules0[..k], force)
    requires !Eligible(rules0[k], force) ==> !hit && updated == rules0[k] && dom1 == done.dom && events == []
    requires Eligible(rules0[k], force) ==>
      && hit == AllConditionsHold(done.dom, b, rules0[k].conditions)
      && updated == rules0[k].(lastMatched := hit)
      && dom1 == RuleEffect(done.dom, b, rules0[k]).dom
      && events == RuleEffect(done.dom, b, rules0[k]).events
    ensures Pass(dom0, b, rules0[..k + 1], force)
         == PassResult(done.count + (if hit then 1 else 0), done.rules + [updated], dom1, done.events + events)
  {
    assert rules0[..k + 1][..k] == rules0[..k];
  }

  /** A list whose first `k` entries have been replaced still holds the original entry `k`. */
  lemma NextIsOriginal<T>(cur: seq<T>, prefix: seq<T>, orig: seq<T>, k: nat)
    requires k < |orig| && |prefix| == k && cur == prefix + orig[k..]
    ensures cur[k] == orig[k]
  {
  }

  /** Replacing entry `k` of such a list extends the replaced part by one. */
  lemma ReplaceNext<T>(cur: seq<T>, prefix: seq<T>, orig: seq<T>, k: nat, x: T)
    requires k < |orig| && |prefix| == k && cur == prefix + orig[k..]
    ensures cur[k := x] == prefix + [x] + orig[k + 1..]
  {
    var t := prefix + [x] + orig[k + 1..];
    forall j | 0 <= j < |cur|
      ensures cur[k := x][j] == t[j]
    {
      if j > k {
        assert cur[j] == orig[k..][j - k];
      }
    }
  }

  class Monitor {
    var rules: seq<Rule>
    var observing: bool
    var armed: bool
    var invalidated: bool
    const page: Page
    /** Evaluation passes run so far. */
    ghost var passes: nat
    /** Reports delivered so far, one per pass at most. */
    ghost var reports: seq<Report>

    /** The scheduler's view of this object. */
    function State(): Sched
      reads this
    {
      Sched(observing, armed, invalidated)
    }

    constructor (p: Page)
      ensures page == p && rules == []
      ensures State() == Sched(false, false, false) && PhaseOf(State()) == Idle
      ensures passes == 0 && reports == []
    {
      page := p;
      rules := [];
      observing, armed, invalidated := false, false, false;
      passes := 0;
      reports := [];
    }

    /**
     * One turn of the `rules.forEach` of `checkAndExecuteAll(forceRun)`, on
     * the `k`-th of the rules `rules0` the pass started with, when the turns
     * before it have left `done`: a disabled rule, or a manual one in an
     * automatic pass, is passed over; any other is processed, which sets its
     * `lastMatched`. Either way the pass now covers one more rule.
     */
    method EvaluateOne(rule: Rule, forceRun: bool, ghost dom0: seq<Element>, ghost rules0: seq<Rule>, ghost k: nat, ghost done: PassResult)
      returns (hit: bool, updated: Rule, ghost events: seq<Event>)
      requires k < |rules0| && rule == rules0[k]
      requires done == Pass(dom0, page.browser, rules0[..k], forceRun) && page.dom == done.dom
      modifies page
      ensures Pass(dom0, page.browser, rules0[..k + 1], forceRun)
           == PassResult(done.count + (if hit then 1 else 0), done.rules + [updated], page.dom, done.events + events)
      ensures page.log == old(page.log) + events
    {
      if !rule.enabled || (!forceRun && rule.triggerMode == Manual) {
        hit, updated, events := false, rule, [];
      } else {
        hit, updated := page.ProcessRule(rule);
        events := RuleEffect(old(page.dom), page.browser, rule).events;
      }
      NextPass(dom0, page.browser, rules0, k, forceRun, done, hit, updated, page.dom, events);
    }

    /**
     * The `rules.forEach` of `checkAndExecuteAll(forceRun)`: each eligible rule
     * in list order is processed on the page the earlier ones left, its
     * `lastMatched` is updated in place, and the matches are counted.
     */
    method EvaluateRules(forceRun: bool) returns (count: nat)
      modifies this, page
      ensures var r := Pass(old(page.dom), page.browser, old(rules), forceRun);
        && count == r.count && rules == r.rules
        && page.dom == r.dom && page.log == old(page.log) + r.events
      ensures State() == old(State()) && passes == old(passes) && reports == old(reports)
    {
      count := 0;
      ghost var dom0, log0, rules0 := page.dom, page.log, rules;
      ghost var done := Pass(dom0, page.browser, [], forceRun);
      var n := |rules|;
      for k := 0 to n
        invariant n == |rules0| && done == Pass(dom0, page.browser, rules0[..k], forceRun)
        invariant rules == done.rules + rules0[k..] && count == done.count
        invariant page.dom == done.dom && page.log == log0 + done.events
        invariant State() == old(State()) && passes == old(passes) && reports == old(reports)
      {
        NextIsOriginal(rules, done.rules, rules0, k);
        var hit, updated, events := EvaluateOne(rules[k], forceRun, dom0, rules0, k, done);
        ReplaceNext(rules, done.rules, rules0, k, updated);
        rules := rules[k := updated];
        AppendTwice(log0, done.events, events);
        if hit {
          count := count + 1;
        }
        done := PassResult(done.count + (if hit then 1 else 0), done.rules + [updated], page.dom, done.events + events);
      }
      assert rules0[..|rules0|] == rules0;
    }

    /**
     * `checkAndExecuteAll(forceRun)`: nothing at all once invalidated;
     * otherwise every eligible rule in order, the count of matches, and one
     * report, whose failure through an invalidated context latches the
     * invalidated state and disconnects the observer.
     */
    method CheckAndExecuteAll(forceRun: bool, outcome: ReportOutcome) returns (count: nat)
      modifies this, page
      ensures State() == Step(old(State()), RunAll(outcome)).next
      ensures old(invalidated) ==> count == 0 && rules == old(rules) && passes == old(passes) && reports == old(reports)
      ensures old(invalidated) ==> page.dom == old(page.dom) && page.log == old(page.log)
      ensures !old(invalidated) ==>
        var r := Pass(old(page.dom), page.browser, old(rules), forceRun);
        && count == r.count && rules == r.rules
        && page.dom == r.dom && page.log == old(page.log) + r.events
        && passes == old(passes) + 1
        && reports == old(reports) + (if outcome == Delivered then [Report(count, rules)] else [])
    {
      if invalidated {
        return 0;
      }
      count := EvaluateRules(forceRun);
      passes := passes + 1;
      match outcome {
        case Delivered =>
          reports := reports + [Report(count, rules)];
        case ContextGone =>
          invalidated := true;
          observing := false;
        case OtherFailure =>
      }
    }

    /** `startMonitoring`: unless invalidated, an automatic pass and then a freshly connected observer. */
    method StartMonitoring(outcome: ReportOutcome)
      modifies this, page
      ensures State() == Step(old(State()), Start(outcome)).next
      ensures passes == old(passes) + (if Step(old(State()), Start(outcome)).ran then 1 else 0)
      ensures old(invalidated) ==>
        rules == old(rules) && page.dom == old(page.dom) && page.log == old(page.log) && reports == old(reports)
      ensures !old(invalidated) ==>
        var r := Pass(old(page.dom), page.browser, old(rules), false);
        && rules == r.rules && page.dom == r.dom && page.log == old(page.log) + r.events
        && reports == old(reports) + (if outcome == Delivered then [Report(r.count, r.rules)] else [])
    {
      if invalidated {
        return;
      }
      var _ := CheckAndExecuteAll(false, outcome);
      observing := true;
    }

    /** `init`: when the storage delivers rules for this site, take them and start monitoring. */
    method Init(stored: Option<seq<Rule>>, outcome: ReportOutcome)
      modifies this, page
      ensures stored.None? ==>
        && State() == old(State()) && rules == old(rules) && page.dom == old(page.dom) && page.log == old(page.log)
        && passes == old(passes) && reports == old(reports)
      ensures stored.Some? ==> State() == Step(old(State()), Start(outcome)).next
      ensures stored.Some? ==> passes == old(passes) + (if Step(old(State()), Start(outcome)).ran then 1 else 0)
      ensures stored.Some? && !old(invalidated) ==>
        var r := Pass(old(page.dom), page.browser, stored.value, false);
        && rules == r.rules && page.dom == r.dom && page.log == old(page.log) + r.events
        && reports == old(reports) + (if outcome == Delivered then [Report(r.count, r.rules)] else [])
      ensures stored.Some? && old(invalidated) ==>
        rules == stored.value && page.dom == old(page.dom) && page.log == old(page.log) && reports == old(reports)
    {
      if stored.Some? {
        rules := stored.value;
        StartMonitoring(outcome);
      }
    }

    /**
     * The observer's callback on a DOM mutation: once invalidated it
     * disconnects itself; otherwise it re-arms the one debounce timer. A
     * disconnected observer is not called.
     */
    method OnMutation()
      modifies this
      ensures State() == Step(old(State()), Mutation).next
      ensures rules == old(rules) && passes == old(passes) && reports == old(reports)
    {
      if !observing {
        return;
      }
      if invalidated {
        observing := false;
        return;
      }
      armed := true;
    }

    /** The debounce timer runs out: an automatic pass (which does nothing once invalidated). */
    method OnTimerFires(outcome: ReportOutcome)
      requires armed
      modifies this, page
      ensures State() == Step(old(State()), TimerFires(outcome)).next
      ensures passes == old(passes) + (if Step(old(State()), TimerFires(outcome)).ran then 1 else 0)
      ensures old(invalidated) ==>
        rules == old(rules) && page.dom == old(page.dom) && page.log == old(page.log) && reports == old(reports)
      ensures !old(invalidated) ==>
        var r := Pass(old(page.dom), page.browser, old(rules), false);
        && rules == r.rules && page.dom == r.dom && page.log == old(page.log) + r.events
        && reports == old(reports) + (if outcome == Delivered then [Report(r.count, r.rules)] else [])
    {
      armed := false;
      var _ := CheckAndExecuteAll(false, outcome);
    }
  }
}
