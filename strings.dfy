/**
 * The two JavaScript string operations the comparator relies on:
 * `String.prototype.trim` and `String.prototype.includes`.
 */
module JsStrings {
  import opened Options

  /**
   * ECMAScript WhiteSpace and LineTerminator code points, the set `trim`
   * strips: space, TAB to CR (U+0009 to U+000D), and above U+009F the
   * no-break, Ogham, typographic, line, paragraph, ideographic spaces and the BOM.
   */
  predicate IsSpace(c: char) {
    if c <= ' ' then c == ' ' || ('\t' <= c <= '\r')
    else if c < '\U{00A0}' then false
    else
      || c == '\U{00A0}' || c == '\U{1680}'
      || ('\U{2000}' <= c <= '\U{200A}')
      || c == '\U{2028}' || c == '\U{2029}' || c == '\U{202F}' || c == '\U{205F}'
      || c == '\U{3000}' || c == '\U{FEFF}'
  }

  /** Number of white-space characters at the front of `s`. */
  function LeadingSpaces(s: string): (k: nat)
    ensures k <= |s|
    ensures forall j :: 0 <= j < k ==> IsSpace(s[j])
    ensures k < |s| ==> !IsSpace(s[k])
  {
    if s != [] && IsSpace(s[0]) then 1 + LeadingSpaces(s[1..]) else 0
  }

  /** Number of white-space characters at the back of `s`. */
  function TrailingSpaces(s: string): (k: nat)
    ensures k <= |s|
    ensures forall j :: |s| - k <= j < |s| ==> IsSpace(s[j])
    ensures k < |s| ==> !IsSpace(s[|s| - 1 - k])
  {
    if s != [] && IsSpace(s[|s| - 1]) then 1 + TrailingSpaces(s[..|s| - 1]) else 0
  }

  /** `s.trim()`: `s` without its leading and trailing white space. */
  function Trim(s: string): (r: string)
    ensures r == [] || (!IsSpace(r[0]) && !IsSpace(r[|r| - 1]))
  {
    var t := s[LeadingSpaces(s)..];
    t[..|t| - TrailingSpaces(t)]
  }

  /** What `trim` keeps is the run of `s` that starts after its leading white space. */
  lemma TrimIsSlice(s: string)
    ensures LeadingSpaces(s) + |Trim(s)| <= |s|
    ensures Trim(s) == s[LeadingSpaces(s)..LeadingSpaces(s) + |Trim(s)|]
    ensures forall j :: LeadingSpaces(s) + |Trim(s)| <= j < |s| ==> IsSpace(s[j])
  {
    var lead := LeadingSpaces(s);
    var t := s[lead..];
    var m := |t| - TrailingSpaces(t);
    assert Trim(s) == t[..m];
    assert t[..m] == s[lead..lead + m];
    SpacesAfterShift(s, t, lead, m);
  }

  /** White space after position `m` of the suffix `t` of `s` from `lead` is white space after `lead + m` in `s`. */
  lemma SpacesAfterShift(s: string, t: string, lead: nat, m: nat)
    requires lead <= |s| && t == s[lead..] && m <= |t|
    requires forall j :: m <= j < |t| ==> IsSpace(t[j])
    ensures forall j :: lead + m <= j < |s| ==> IsSpace(s[j])
  {
    forall j | lead + m <= j < |s|
      ensures IsSpace(s[j])
    {
      assert s[j] == t[j - lead];
    }
  }

  /** A string is left as it is by `trim` exactly when it neither starts nor ends with white space. */
  lemma TrimFixedPoints(s: string)
    ensures Trim(s) == s <==> (s == [] || (!IsSpace(s[0]) && !IsSpace(s[|s| - 1])))
  {
    if s != [] && !IsSpace(s[0]) && !IsSpace(s[|s| - 1]) {
      assert LeadingSpaces(s) == 0;
      assert TrailingSpaces(s) == 0;
    }
  }

  /** Trimming twice is trimming once. */
  lemma TrimIdempotent(s: string)
    ensures Trim(Trim(s)) == Trim(s)
  {
    TrimFixedPoints(Trim(s));
  }

  /** `t` occurs in `s` starting at position `i`. */
  predicate OccursAt(s: string, t: string, i: nat) {
    i + |t| <= |s| && s[i..i + |t|] == t
  }

  /** `s.indexOf(t, from)`: the first position at or after `from` where `t` occurs, if any. */
  function IndexOf(s: string, t: string, from: nat): (r: Option<nat>)
    decreases |s| + 1 - from
    ensures r.Some? ==> from <= r.value && OccursAt(s, t, r.value)
    ensures r.Some? ==> forall i :: from <= i < r.value ==> !OccursAt(s, t, i)
    ensures r.None? ==> forall i :: from <= i ==> !OccursAt(s, t, i)
  {
    if from + |t| > |s| then None
    else if OccursAt(s, t, from) then Some(from)
    else IndexOf(s, t, from + 1)
  }

  /** `s.includes(t)`. */
  predicate Includes(s: string, t: string) {
    IndexOf(s, t, 0).Some?
  }

  /** `includes` is the substring test: it holds exactly when `t` occurs somewhere in `s`. */
  lemma IncludesIsSubstring(s: string, t: string)
    ensures Includes(s, t) <==> exists i :: OccursAt(s, t, i)
  {
    if exists i :: OccursAt(s, t, i) {
      var i :| OccursAt(s, t, i);
      assert IndexOf(s, t, 0).Some?;
    }
  }

  /** Every string includes itself, so an `equals` match is also a `contains` match. */
  lemma IncludesItself(s: string)
    ensures Includes(s, s)
  {
    assert OccursAt(s, s, 0);
  }
}
