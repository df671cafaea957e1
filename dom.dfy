/**
 * The page as the rule engine sees it: elements in document order, the four
 * locator strategies, and the value adapter that reads an element's value and
 * writes a new one (content.js, locateElement, getElementValue, setElementValue).
 */
module Dom {
  import opened Options

  /** The element kinds the engine tells apart by `tagName`. */
  datatype Tag = Input | TextArea | Select | Other

  datatype SelectOption = SelectOption(value: string, text: string)

  /**
   * One element. `value` is the value of an INPUT or TEXTAREA; a SELECT's value
   * is not stored but derived from `options` and `selectedIndex`, as in HTML.
   * `id` and `name` are the attributes, "" when absent.
   */
  datatype Element = Element(
    tag: Tag,
    id: string,
    name: string,
    value: string,
    options: seq<SelectOption>,
    selectedIndex: int,
    innerText: string)

  /** A locator's `type`; `Unrecognised` stands for "" and every other string. */
  datatype LocatorKind = ById | ByName | BySelector | ByText | Unrecognised

  datatype Locator = Locator(kind: LocatorKind, value: string)

  /**
   * A JavaScript value the engine reads, compares or writes: a string, the
   * `{isSelect, value, text}` record read from a SELECT, or a locator record
   * that a rule supplies where a literal is expected.
   */
  datatype Value = Str(s: string) | Dual(value: string, text: string) | LocatorObject(locator: Locator)

  /** `String(v)`: a record converts to "[object Object]". */
  function JsString(v: Value): (r: string)
    ensures v.Str? ==> r == v.s
    ensures !v.Str? ==> r == "[object Object]"
  {
    match v
    case Str(s) => s
    case Dual(_, _) => "[object Object]"
    case LocatorObject(_) => "[object Object]"
  }

  /**
   * `a === b` between a freshly read element value `a` and `b`: only two
   * strings can be identical, since `getElementValue` builds a new record each time.
   */
  predicate StrictEquals(a: Value, b: Value): (r: bool)
    ensures r <==> a == b && a.Str?
  {
    a.Str? && b.Str? && a.s == b.s
  }

  /**
   * The browser's selector and XPath engines, which this model leaves
   * uninterpreted: the queries that parse (a query that does not parse throws,
   * and the engine catches it), and the triples of a document, a position in
   * it and a query that the element at that position matches.
   */
  datatype Browser = Browser(
    validSelectors: iset<string>,
    selectorMatches: iset<(seq<Element>, nat, string)>,
    validXPaths: iset<string>,
    xpathMatches: iset<(seq<Element>, nat, string)>)

  /** What a lookup in the document asks of an element. */
  datatype Query =
    | HasId(id: string)
    | HasName(name: string)
    | MatchesSelector(selector: string)
    | MatchesXPath(xpath: string)

  /** The element at position `j` answers the query. */
  predicate Matches(dom: seq<Element>, b: Browser, q: Query, j: nat)
    requires j < |dom|
  {
    match q
    case HasId(v) => dom[j].id == v
    case HasName(v) => dom[j].name == v
    case MatchesSelector(sel) => (dom, j, sel) in b.selectorMatches
    case MatchesXPath(x) => (dom, j, x) in b.xpathMatches
  }

  /** The first position at or after `k`, in document order, whose element answers the query. */
  function FindFrom(dom: seq<Element>, b: Browser, q: Query, k: nat): (r: Option<nat>)
    requires k <= |dom|
    decreases |dom| - k
    ensures r.Some? ==> k <= r.value < |dom| && Matches(dom, b, q, r.value)
    ensures r.Some? ==> forall j :: k <= j < r.value ==> !Matches(dom, b, q, j)
    ensures r.None? ==> forall j :: k <= j < |dom| ==> !Matches(dom, b, q, j)
  {
    if k == |dom| then None
    else if Matches(dom, b, q, k) then Some(k)
    else FindFrom(dom, b, q, k + 1)
  }

  /** The first element in document order that answers the query. */
  function Find(dom: seq<Element>, b: Browser, q: Query): (r: Option<nat>)
    ensures r.Some? ==> r.value < |dom| && Matches(dom, b, q, r.value)
    ensures r.Some? ==> forall j :: 0 <= j < r.value ==> !Matches(dom, b, q, j)
    ensures r.None? ==> forall j :: 0 <= j < |dom| ==> !Matches(dom, b, q, j)
  {
    FindFrom(dom, b, q, 0)
  }

  /** `Find` is determined by its contract: the first answering position, or none. */
  lemma FindIs(dom: seq<Element>, b: Browser, q: Query, i: nat)
    requires i < |dom| && Matches(dom, b, q, i)
    requires forall j :: 0 <= j < i ==> !Matches(dom, b, q, j)
    ensures Find(dom, b, q) == Some(i)
  {
  }

  /** `document.querySelector(q)`: the first matching element, none when `q` does not parse. */
  function QuerySelector(dom: seq<Element>, b: Browser, q: string): (r: Option<nat>)
    ensures r.Some? ==> r.value < |dom| && q in b.validSelectors && (dom, r.value, q) in b.selectorMatches
    ensures r.Some? ==> forall j :: 0 <= j < r.value ==> (dom, j, q) !in b.selectorMatches
    ensures q in b.validSelectors && r.None? ==> forall j :: 0 <= j < |dom| ==> (dom, j, q) !in b.selectorMatches
    ensures q !in b.validSelectors ==> r.None?
  {
    if q in b.validSelectors then
      assert forall j :: 0 <= j < |dom| ==> (Matches(dom, b, MatchesSelector(q), j) <==> (dom, j, q) in b.selectorMatches);
      Find(dom, b, MatchesSelector(q))
    else None
  }

  /** The selector `[name="v"]` that the name strategy builds around the locator's value. */
  function NameSelector(v: string): string {
    "[name=\"" + v + "\"]"
  }

  /** The XPath that the text strategy builds around the locator's value. */
  function TextXPath(v: string): string {
    "//*[contains(text(),'" + v + "')]"
  }

  /**
   * `v` can stand between double quotes in a CSS string as it is: it holds no
   * quote, backslash or line break, and no NUL (which the CSS parser reads as
   * U+FFFD), so `[name="v"]` selects the elements whose name is exactly `v`.
   */
  predicate IsPlainCssString(v: string) {
    forall c :: c in v ==> c != '"' && c != '\\' && c != '\n' && c != '\r' && c != '\U{000C}' && c != '\0'
  }

  /**
   * `locateElement`: the position of the element a locator names, or none. An
   * empty value and an unknown strategy name nothing; a query that does not
   * parse throws inside the engine and also names nothing.
   */
  function Locate(dom: seq<Element>, b: Browser, loc: Locator): (r: Option<nat>)
    ensures r.Some? ==> r.value < |dom| && loc.value != ""
    ensures r.Some? && loc.kind == ById ==> dom[r.value].id == loc.value
    ensures r.Some? && loc.kind == ByName && IsPlainCssString(loc.value) ==> dom[r.value].name == loc.value
    ensures loc.kind == Unrecognised ==> r.None?
  {
    if loc.value == "" then None
    else match loc.kind
      case ById => Find(dom, b, HasId(loc.value))
      case ByName =>
        if IsPlainCssString(loc.value) then Find(dom, b, HasName(loc.value))
        else QuerySelector(dom, b, NameSelector(loc.value))
      case BySelector => QuerySelector(dom, b, loc.value)
      case ByText =>
        var x := TextXPath(loc.value);
        if x in b.validXPaths then Find(dom, b, MatchesXPath(x)) else None
      case Unrecognised => None
  }

  /** The id strategy finds exactly the first element, in document order, carrying that id. */
  lemma LocateByIdIsFirst(dom: seq<Element>, b: Browser, v: string, i: nat)
    ensures Locate(dom, b, Locator(ById, v)) == Some(i)
        <==> v != "" && i < |dom| && dom[i].id == v && forall j :: 0 <= j < i ==> dom[j].id != v
  {
    if v != "" && i < |dom| && dom[i].id == v && forall j :: 0 <= j < i ==> dom[j].id != v {
      FindIs(dom, b, HasId(v), i);
    }
    if Locate(dom, b, Locator(ById, v)) == Some(i) {
      forall j | 0 <= j < i ensures dom[j].id != v {
        assert !Matches(dom, b, HasId(v), j);
      }
    }
  }

  /**
   * The name strategy, for a value that needs no quoting in `[name="v"]`,
   * finds exactly the first element, in document order, carrying that name.
   */
  lemma LocateByNameIsFirst(dom: seq<Element>, b: Browser, v: string, i: nat)
    requires IsPlainCssString(v)
    ensures Locate(dom, b, Locator(ByName, v)) == Some(i)
        <==> v != "" && i < |dom| && dom[i].name == v && forall j :: 0 <= j < i ==> dom[j].name != v
  {
    if v != "" && i < |dom| && dom[i].name == v && forall j :: 0 <= j < i ==> dom[j].name != v {
      FindIs(dom, b, HasName(v), i);
    }
    if Locate(dom, b, Locator(ByName, v)) == Some(i) {
      forall j | 0 <= j < i ensures dom[j].name != v {
        assert !Matches(dom, b, HasName(v), j);
      }
    }
  }

  /** A selector or text locator whose query does not parse resolves to nothing instead of failing. */
  lemma LocateIsFailSoft(dom: seq<Element>, b: Browser, loc: Locator)
    requires loc.kind == BySelector ==> loc.value !in b.validSelectors
    requires loc.kind == ByText ==> TextXPath(loc.value) !in b.validXPaths
    requires loc.kind == ByName ==> !IsPlainCssString(loc.value) && NameSelector(loc.value) !in b.validSelectors
    requires loc.kind == ById ==> forall j :: 0 <= j < |dom| ==> dom[j].id != loc.value
    ensures Locate(dom, b, loc).None?
  {
  }

  /** A SELECT's `value`: that of the selected option, "" when none is selected. */
  function SelectValue(e: Element): string {
    if 0 <= e.selectedIndex < |e.options| then e.options[e.selectedIndex].value else ""
  }

  /** The text of a SELECT's selected option, "" when none is selected. */
  function SelectedText(e: Element): string {
    if 0 <= e.selectedIndex < |e.options| then e.options[e.selectedIndex].text else ""
  }

  /** `getElementValue`: a SELECT yields its value and its label together; other elements a string. */
  function Read(e: Element): (r: Value)
    ensures r.Dual? <==> e.tag == Select
    ensures r.Dual? ==> r.value == SelectValue(e) && r.text == SelectedText(e)
    ensures e.tag in {Input, TextArea} ==> r == Str(e.value)
    ensures e.tag == Other ==> r == Str(e.innerText)
  {
    match e.tag
    case Select => Dual(SelectValue(e), SelectedText(e))
    case Input => Str(e.value)
    case TextArea => Str(e.value)
    case Other => Str(e.innerText)
  }

  /** The value a write works with: a SELECT's record is reduced to its value part. */
  function Unwrap(v: Value): (r: Value)
    ensures !r.Dual?
    ensures v.Dual? ==> r == Str(v.value)
    ensures !v.Dual? ==> r == v
  {
    if v.Dual? then Str(v.value) else v
  }

  /** The first option at or after `k` satisfying `p`: for a value or for a text. */
  datatype OptionQuery = WithValue(s: string) | WithText(v: Value)

  /** The option whose text is strictly equal to `v`; a record equals no text. */
  predicate TextMatches(o: SelectOption, v: Value) {
    v.Str? && o.text == v.s
  }

  predicate OptionMatches(o: SelectOption, q: OptionQuery) {
    match q
    case WithValue(s) => o.value == s
    case WithText(v) => TextMatches(o, v)
  }

  /** The first option at or after `k` answering the query. */
  function FindOptionFrom(options: seq<SelectOption>, q: OptionQuery, k: nat): (r: Option<nat>)
    requires k <= |options|
    decreases |options| - k
    ensures r.Some? ==> k <= r.value < |options| && OptionMatches(options[r.value], q)
    ensures r.Some? ==> forall j :: k <= j < r.value ==> !OptionMatches(options[j], q)
    ensures r.None? ==> forall j :: k <= j < |options| ==> !OptionMatches(options[j], q)
  {
    if k == |options| then None
    else if OptionMatches(options[k], q) then Some(k)
    else FindOptionFrom(options, q, k + 1)
  }

  /** `FindOptionFrom` from the first option is determined by its contract. */
  lemma FindOptionIs(options: seq<SelectOption>, q: OptionQuery, i: nat)
    requires i < |options| && OptionMatches(options[i], q)
    requires forall j :: 0 <= j < i ==> !OptionMatches(options[j], q)
    ensures FindOptionFrom(options, q, 0) == Some(i)
  {
  }

  /** Assigning `s` to a SELECT's `value` selects the first option with that value, or none (-1). */
  function IndexOfValue(options: seq<SelectOption>, s: string): (r: int)
    ensures -1 <= r < |options|
    ensures r >= 0 ==> options[r].value == s && forall j :: 0 <= j < r ==> options[j].value != s
    ensures r == -1 ==> forall j :: 0 <= j < |options| ==> options[j].value != s
  {
    match FindOptionFrom(options, WithValue(s), 0)
    case Some(k) =>
      assert forall j :: 0 <= j < k ==> options[j].value != s by {
        forall j | 0 <= j < k ensures options[j].value != s { assert !OptionMatches(options[j], WithValue(s)); }
      }
      k
    case None =>
      assert forall j :: 0 <= j < |options| ==> options[j].value != s by {
        forall j | 0 <= j < |options| ensures options[j].value != s { assert !OptionMatches(options[j], WithValue(s)); }
      }
      -1
  }

  /** The first option whose text is strictly equal to `v`. */
  function IndexOfText(options: seq<SelectOption>, v: Value): (r: Option<nat>)
    ensures r.Some? ==> r.value < |options| && TextMatches(options[r.value], v)
    ensures r.Some? ==> forall j :: 0 <= j < r.value ==> !TextMatches(options[j], v)
    ensures r.None? ==> forall j :: 0 <= j < |options| ==> !TextMatches(options[j], v)
  {
    var r := FindOptionFrom(options, WithText(v), 0);
    assert r.Some? ==> forall j :: 0 <= j < r.value ==> !TextMatches(options[j], v) by {
      if r.Some? {
        forall j | 0 <= j < r.value ensures !TextMatches(options[j], v) { assert !OptionMatches(options[j], WithText(v)); }
      }
    }
    assert r.None? ==> forall j :: 0 <= j < |options| ==> !TextMatches(options[j], v) by {
      if r.None? {
        forall j | 0 <= j < |options| ensures !TextMatches(options[j], v) { assert !OptionMatches(options[j], WithText(v)); }
      }
    }
    r
  }

  /**
   * A SELECT after `el.value = v`, followed by the fallback of setElementValue:
   * when the select's value did not become `v`, select the first option whose text is `v`.
   */
  function SelectWritten(e: Element, v: Value): (r: Element)
    requires !v.Dual?
    ensures r == e.(selectedIndex := r.selectedIndex)
    ensures -1 <= r.selectedIndex < |e.options|
  {
    var byValue := e.(selectedIndex := IndexOfValue(e.options, JsString(v)));
    if v.Str? && SelectValue(byValue) == v.s then byValue
    else match IndexOfText(e.options, v)
      case Some(k) => byValue.(selectedIndex := k)
      case None => byValue
  }

  /**
   * The element after `setElementValue(e, v)`. Nothing changes when the
   * element's current value is identical to the unwrapped `v`; otherwise each
   * kind changes only its own value-bearing field.
   */
  function AfterWrite(e: Element, v: Value): (r: Element)
    ensures StrictEquals(Read(e), Unwrap(v)) ==> r == e
    ensures e.tag in {Input, TextArea} ==> r == e.(value := r.value)
    ensures e.tag == Select ==> r == e.(selectedIndex := r.selectedIndex) && -1 <= r.selectedIndex < |e.options|
    ensures e.tag == Other ==> r == e.(innerText := r.innerText)
    ensures e.tag != Select ==> Read(r) == Str(JsString(Unwrap(v)))
  {
    var w := Unwrap(v);
    if StrictEquals(Read(e), w) then e
    else match e.tag
      case Input => e.(value := JsString(w))
      case TextArea => e.(value := JsString(w))
      case Select => SelectWritten(e, w)
      case Other => e.(innerText := JsString(w))
  }

  datatype EventKind = InputEvent | ChangeEvent

  /** A bubbling event dispatched on the element at position `target`. */
  datatype Event = Event(kind: EventKind, target: nat)

  /** The events `setElementValue(e, v)` dispatches on the element at position `i`. */
  function WriteEvents(i: nat, e: Element, v: Value): (r: seq<Event>)
    ensures forall k :: 0 <= k < |r| ==> r[k].target == i
    ensures StrictEquals(Read(e), Unwrap(v)) ==> r == []
    ensures e.tag == Other ==> r == []
  {
    if StrictEquals(Read(e), Unwrap(v)) then []
    else match e.tag
      case Input => [Event(InputEvent, i), Event(ChangeEvent, i)]
      case TextArea => [Event(InputEvent, i), Event(ChangeEvent, i)]
      case Select => [Event(ChangeEvent, i)]
      case Other => []
  }

  /**
   * The no-op guard never fires for a SELECT: its value is read as a record,
   * so every write to a SELECT dispatches exactly one `change` event.
   */
  lemma SelectWriteAlwaysSignals(i: nat, e: Element, v: Value)
    requires e.tag == Select
    ensures WriteEvents(i, e, v) == [Event(ChangeEvent, i)]
  {
  }

  /**
   * A text field or text area whose current value differs from the one written
   * dispatches `input` and then `change`, both on itself.
   */
  lemma TextWriteSignals(i: nat, e: Element, v: Value)
    requires e.tag in {Input, TextArea} && !StrictEquals(Read(e), Unwrap(v))
    ensures WriteEvents(i, e, v) == [Event(InputEvent, i), Event(ChangeEvent, i)]
  {
  }

  /**
   * A text field, text area or other element that is written a string twice
   * dispatches its events only the first time, and ends in the same state.
   */
  lemma TextWriteIdempotent(i: nat, e: Element, v: Value)
    requires e.tag != Select
    requires !v.LocatorObject?
    ensures AfterWrite(AfterWrite(e, v), v) == AfterWrite(e, v)
    ensures WriteEvents(i, AfterWrite(e, v), v) == []
  {
  }

  /**
   * Writing a SELECT ends in the same state whatever was selected before, so a
   * second identical write changes nothing in the element (but still signals).
   */
  lemma SelectWriteIdempotent(e: Element, v: Value)
    requires e.tag == Select
    ensures AfterWrite(AfterWrite(e, v), v) == AfterWrite(e, v)
  {
  }

  /**
   * Which option a write of the string `s` leaves selected: the first option
   * with value `s`; failing that, when `s` is not empty, the first option with
   * text `s`; failing that, none.
   */
  lemma SelectWriteChoosesOption(e: Element, s: string)
    requires e.tag == Select
    ensures var r := AfterWrite(e, Str(s));
      if exists j :: 0 <= j < |e.options| && e.options[j].value == s then
        r.selectedIndex == IndexOfValue(e.options, s)
      else if s != "" && IndexOfText(e.options, Str(s)).Some? then
        r.selectedIndex == IndexOfText(e.options, Str(s)).value
      else
        r.selectedIndex == -1
  {
    var idx := IndexOfValue(e.options, s);
    if exists j :: 0 <= j < |e.options| && e.options[j].value == s {
      assert idx >= 0;
    } else {
      assert idx == -1;
    }
  }
}
