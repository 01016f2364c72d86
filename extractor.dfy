/**
 The server extractor of the helper bot: `findServers` applies the fixed pattern

     ss://[A-Za-z\d+/]+@.+:\d+|ss://[A-Za-z\d+/]+

 with leftmost-first semantics and collects every non-overlapping match, left to
 right. The pattern is not interpreted by a general engine: its one meaning is
 written out over indices (MatchAt), and proved equal to a declarative reading of
 the two alternatives (BareAt, LongAt) under the leftmost-first rule.
 */
module Extractor {
  import opened Text

  datatype Option<T> = None | Some(value: T)

  /** The literal prefix every match starts with. */
  const Scheme: string := "ss://"

  /** The class `[A-Za-z\d+/]`; note that `=` is not in it. */
  predicate IsTokenChar(c: char) {
    ('A' <= c <= 'Z') || ('a' <= c <= 'z') || IsDigit(c) || c == '+' || c == '/'
  }

  predicate AllToken(s: string, lo: int, hi: int)
    requires 0 <= lo <= hi <= |s|
  {
    forall k :: lo <= k < hi ==> IsTokenChar(s[k])
  }


  /** s[i..i + 5] is `ss://`, spelled out character by character. */
  predicate SchemeAt(s: string, i: int) {
    0 <= i && i + |Scheme| <= |s| &&
    s[i] == 's' && s[i + 1] == 's' && s[i + 2] == ':' && s[i + 3] == '/' && s[i + 4] == '/'
  }

  /** Both alternatives need `ss://` followed by at least one class character. */
  predicate TokenStart(s: string, i: int) {
    SchemeAt(s, i) && i + |Scheme| < |s| && IsTokenChar(s[i + |Scheme|])
  }

  /** A colon that the `:\d+` tail can use: a digit follows it. */
  predicate PortColon(s: string, p: int) {
    0 <= p && p + 1 < |s| && s[p] == ':' && IsDigit(s[p + 1])
  }

  // ---------------------------------------------------------------------------
  // Declarative reading of the two alternatives, as full matches of s[i..e].

  /** s[i..e] matches `ss://[A-Za-z\d+/]+`. */
  ghost predicate BareAt(s: string, i: int, e: int) {
    SchemeAt(s, i) && i + |Scheme| < e <= |s| && AllToken(s, i + |Scheme|, e)
  }

  /**
   s[i..e] matches `ss://[A-Za-z\d+/]+@.+:\d+`, with the `@` at a and the `:` at p.
   */
  ghost predicate LongAt(s: string, i: int, a: int, p: int, e: int) {
    SchemeAt(s, i) && i + |Scheme| < a && a + 1 < p && p + 1 < e <= |s| &&
    AllToken(s, i + |Scheme|, a) && s[a] == '@' &&
    NoNewline(s, a + 1, p) && s[p] == ':' && AllDigits(s, p + 1, e)
  }

  ghost predicate HasLongAt(s: string, i: int) {
    exists a, p, e :: LongAt(s, i, a, p, e)
  }

  /** Some alternative of the pattern matches s[i..e]. */
  ghost predicate PatternMatches(s: string, i: int, e: int) {
    BareAt(s, i, e) || exists a, p :: LongAt(s, i, a, p, e)
  }

  /**
   The match a backtracking engine reports at i: the first alternative that
   matches at all wins, and within it the greedy quantifiers give the longest
   match (for the first alternative, greedy `.+` picks the last usable colon and
   greedy `\d+` the whole digit run, which together is the longest match).
   */
  ghost predicate LeftmostFirstAt(s: string, i: int, e: int) {
    if HasLongAt(s, i) then
      (exists a, p :: LongAt(s, i, a, p, e)) &&
      (forall a, p, e' :: LongAt(s, i, a, p, e') ==> e' <= e)
    else
      BareAt(s, i, e) && (forall e' :: BareAt(s, i, e') ==> e' <= e)
  }

  // ---------------------------------------------------------------------------
  // The matcher over indices.

  /** End of the maximal run of class characters starting at j. */
  function TokenRunEnd(s: string, j: nat): (k: nat)
    requires j <= |s|
    ensures j <= k <= |s| && AllToken(s, j, k)
    ensures k == |s| || !IsTokenChar(s[k])
    decreases |s| - j
  {
    if j < |s| && IsTokenChar(s[j]) then TokenRunEnd(s, j + 1) else j
  }

  /** End of the maximal run of digits starting at j. */
  function DigitRunEnd(s: string, j: nat): (k: nat)
    requires j <= |s|
    ensures j <= k <= |s| && AllDigits(s, j, k)
    ensures k == |s| || !IsDigit(s[k])
    decreases |s| - j
  {
    if j < |s| && IsDigit(s[j]) then DigitRunEnd(s, j + 1) else j
  }

  /** Index of the first line feed at or after j, or |s| when there is none. */
  function LineEnd(s: string, j: nat): (k: nat)
    requires j <= |s|
    ensures j <= k <= |s| && NoNewline(s, j, k)
    ensures k == |s| || s[k] == '\n'
    decreases |s| - j
  {
    if j < |s| && s[j] != '\n' then LineEnd(s, j + 1) else j
  }

  /** The last usable colon p with lo <= p < hi, if any. */
  function LastPortColon(s: string, lo: nat, hi: nat): (r: Option<nat>)
    requires hi <= |s|
    ensures r.Some? ==> lo <= r.value < hi && PortColon(s, r.value)
    ensures r.Some? ==> forall q :: r.value < q < hi ==> !PortColon(s, q)
    ensures r.None? ==> forall q :: lo <= q < hi ==> !PortColon(s, q)
    decreases hi
  {
    if hi <= lo then None
    else if PortColon(s, hi - 1) then Some(hi - 1)
    else LastPortColon(s, lo, hi - 1)
  }

  /**
   The end of the match that starts at i, or None when the pattern does not
   match at i.
   */
  function MatchAt(s: string, i: nat): (r: Option<nat>)
    ensures r.None? <==> !TokenStart(s, i)
    ensures r.Some? ==> i + |Scheme| < r.value <= |s|
  {
    if !TokenStart(s, i) then None
    else
      var run := TokenRunEnd(s, i + |Scheme|);
      if run < |s| && s[run] == '@' then
        match LastPortColon(s, run + 2, LineEnd(s, run + 1))
        case Some(p) => Some(DigitRunEnd(s, p + 1))
        case None => Some(run)
      else
        Some(run)
  }

  // ---------------------------------------------------------------------------
  // MatchAt is the leftmost-first match of the pattern.

  lemma BareAtBound(s: string, i: int, e: int)
    requires BareAt(s, i, e)
    ensures TokenStart(s, i) && e <= TokenRunEnd(s, i + |Scheme|)
  {
    assert IsTokenChar(s[i + |Scheme|]);
  }

  lemma LongAtParts(s: string, i: int, a: int, p: int, e: int)
    requires LongAt(s, i, a, p, e)
    ensures TokenStart(s, i)
    ensures a == TokenRunEnd(s, i + |Scheme|) && a + 1 <= |s|
    ensures a + 2 <= p < LineEnd(s, a + 1) && PortColon(s, p)
    ensures e <= DigitRunEnd(s, p + 1)
  {
    BareAtBound(s, i, a);
    assert IsDigit(s[p + 1]);
  }

  lemma MatchAtLong(s: string, i: int, run: int, q: int)
    requires TokenStart(s, i) && run == TokenRunEnd(s, i + |Scheme|)
    requires run < |s| && s[run] == '@'
    requires LastPortColon(s, run + 2, LineEnd(s, run + 1)) == Some(q)
    ensures LongAt(s, i, run, q, DigitRunEnd(s, q + 1))
    ensures forall a, p, e' :: LongAt(s, i, a, p, e') ==> e' <= DigitRunEnd(s, q + 1)
  {
    var hi := LineEnd(s, run + 1);
    assert NoNewline(s, run + 1, q);
    forall a, p, e' | LongAt(s, i, a, p, e')
      ensures e' <= DigitRunEnd(s, q + 1)
    {
      LongAtParts(s, i, a, p, e');
    }
  }

  lemma MatchAtBare(s: string, i: int, run: int)
    requires TokenStart(s, i) && run == TokenRunEnd(s, i + |Scheme|)
    requires !(run < |s| && s[run] == '@') ||
             LastPortColon(s, run + 2, LineEnd(s, run + 1)).None?
    ensures !HasLongAt(s, i)
    ensures BareAt(s, i, run)
    ensures forall e' :: BareAt(s, i, e') ==> e' <= run
  {
    forall a, p, e ensures !LongAt(s, i, a, p, e) {
      if LongAt(s, i, a, p, e) {
        LongAtParts(s, i, a, p, e);
      }
    }
    forall e' | BareAt(s, i, e')
      ensures e' <= run
    {
      BareAtBound(s, i, e');
    }
  }

  lemma NoMatchWithoutTokenStart(s: string, i: int, e: int)
    requires !TokenStart(s, i)
    ensures !PatternMatches(s, i, e) && !LeftmostFirstAt(s, i, e)
  {
    if BareAt(s, i, e) {
      BareAtBound(s, i, e);
    }
    forall a, p ensures !LongAt(s, i, a, p, e) {
      if LongAt(s, i, a, p, e) {
        LongAtParts(s, i, a, p, e);
      }
    }
    assert !HasLongAt(s, i);
  }

  /** The leftmost-first end is unique. */
  lemma LeftmostFirstUnique(s: string, i: int, e1: int, e2: int)
    requires LeftmostFirstAt(s, i, e1) && LeftmostFirstAt(s, i, e2)
    ensures e1 == e2
  {
    if HasLongAt(s, i) {
      var a1, p1 :| LongAt(s, i, a1, p1, e1);
      var a2, p2 :| LongAt(s, i, a2, p2, e2);
    }
  }

  lemma MatchAtChosen(s: string, i: nat)
    requires TokenStart(s, i)
    ensures MatchAt(s, i).Some? && LeftmostFirstAt(s, i, MatchAt(s, i).value)
    ensures PatternMatches(s, i, MatchAt(s, i).value)
  {
    var run := TokenRunEnd(s, i + |Scheme|);
    if run < |s| && s[run] == '@' && LastPortColon(s, run + 2, LineEnd(s, run + 1)).Some? {
      var q := LastPortColon(s, run + 2, LineEnd(s, run + 1)).value;
      MatchAtLong(s, i, run, q);
    } else {
      MatchAtBare(s, i, run);
    }
  }

  /**
   MatchAt finds a match exactly where the pattern matches, and the match it
   finds is the leftmost-first one; no other end is reported.
   */
  lemma MatchAtIsLeftmostFirst(s: string, i: nat)
    ensures MatchAt(s, i).None? <==> forall e :: !PatternMatches(s, i, e)
    ensures forall e :: MatchAt(s, i) == Some(e) <==> LeftmostFirstAt(s, i, e)
  {
    if !TokenStart(s, i) {
      forall e ensures !PatternMatches(s, i, e) && !LeftmostFirstAt(s, i, e) {
        NoMatchWithoutTokenStart(s, i, e);
      }
    } else {
      MatchAtChosen(s, i);
      var m := MatchAt(s, i).value;
      forall e | LeftmostFirstAt(s, i, e) ensures e == m {
        LeftmostFirstUnique(s, i, e, m);
      }
    }
  }

  // ---------------------------------------------------------------------------
  // Scanning: FindAllString(input, -1).

  /** Where a match lies in the input: s[start..end]. */
  datatype Span = Span(start: nat, end: nat)

  /**
   The matches found when scanning from i: after a match ending at e the scan
   resumes at e; where nothing matches it moves on by one character.
   */
  function Spans(s: string, i: nat): (r: seq<Span>)
    requires i <= |s|
    ensures forall k :: 0 <= k < |r| ==>
      i <= r[k].start < r[k].end <= |s| && MatchAt(s, r[k].start) == Some(r[k].end)
    ensures forall k :: 0 <= k < |r| - 1 ==> r[k].end <= r[k + 1].start
    decreases |s| - i
  {
    if i == |s| then []
    else
      match MatchAt(s, i)
      case Some(e) => [Span(i, e)] + Spans(s, e)
      case None => Spans(s, i + 1)
  }

  predicate ValidSpans(s: string, spans: seq<Span>) {
    forall k :: 0 <= k < |spans| ==> spans[k].start <= spans[k].end <= |s|
  }

  /** The text of each span, in order. */
  function Slices(s: string, spans: seq<Span>): (r: seq<string>)
    requires ValidSpans(s, spans)
    ensures |r| == |spans|
    ensures forall k :: 0 <= k < |r| ==> r[k] == s[spans[k].start..spans[k].end]
  {
    seq(|spans|, k requires 0 <= k < |spans| => s[spans[k].start..spans[k].end])
  }

  /** The servers `findServers` returns for the input s. */
  function Extract(s: string): seq<string> {
    Slices(s, Spans(s, 0))
  }

  /**
   findServers: scan the input once, appending each match in turn to the
   result (a fresh, possibly empty list; never nil, since the pattern is a
   constant that compiles).
   */
  method FindServers(input: string) returns (servers: seq<string>)
    ensures servers == Extract(input)
  {
    servers := [];
    var pos := 0;
    ghost var found: seq<Span> := [];
    while pos < |input|
      invariant pos <= |input|
      invariant ValidSpans(input, found)
      invariant found + Spans(input, pos) == Spans(input, 0)
      invariant servers == Slices(input, found)
      decreases |input| - pos
    {
      match MatchAt(input, pos)
      case Some(e) =>
        ScanTakesMatch(input, found, pos, e);
        servers := servers + [input[pos..e]];
        found := found + [Span(pos, e)];
        pos := e;
      case None =>
        pos := pos + 1;
    }
  }

  /** One step of the scan when a match [i, e) is found. */
  lemma ScanTakesMatch(s: string, found: seq<Span>, i: nat, e: nat)
    requires i < |s| && MatchAt(s, i) == Some(e)
    requires ValidSpans(s, found) && found + Spans(s, i) == Spans(s, 0)
    ensures e <= |s| && ValidSpans(s, found + [Span(i, e)])
    ensures (found + [Span(i, e)]) + Spans(s, e) == Spans(s, 0)
    ensures Slices(s, found + [Span(i, e)]) == Slices(s, found) + [s[i..e]]
  {
    SpansAtMatch(s, i, e);
    SpansRegroup(found, Span(i, e), Spans(s, e));
    SlicesSnoc(s, found, Span(i, e));
  }

  lemma SpansAtMatch(s: string, i: nat, e: nat)
    requires i < |s| && MatchAt(s, i) == Some(e)
    ensures e <= |s| && Spans(s, i) == [Span(i, e)] + Spans(s, e)
  {
  }

  /**
   Regrouping a concatenation of spans. Kept apart from ScanTakesMatch: there
   the same step costs far more, as the solver also unfolds Spans.
   */
  lemma SpansRegroup(found: seq<Span>, sp: Span, rest: seq<Span>)
    ensures (found + [sp]) + rest == found + ([sp] + rest)
  {
  }

  lemma SlicesSnoc(s: string, spans: seq<Span>, sp: Span)
    requires ValidSpans(s, spans) && sp.start <= sp.end <= |s|
    ensures ValidSpans(s, spans + [sp])
    ensures Slices(s, spans + [sp]) == Slices(s, spans) + [s[sp.start..sp.end]]
  {
    var r := Slices(s, spans + [sp]);
    assert forall k :: 0 <= k < |spans| ==> (spans + [sp])[k] == spans[k];
    assert r[|spans|] == s[sp.start..sp.end];
  }

  // ---------------------------------------------------------------------------
  // Properties of the extraction.

  /**
   Leftmost: every position that no reported match covers is a position where
   the pattern does not match at all.
   */
  lemma {:induction false} UncoveredPositionsDoNotMatch(s: string, i: nat, q: nat)
    requires i <= q < |s|
    requires forall k :: 0 <= k < |Spans(s, i)| ==>
      !(Spans(s, i)[k].start <= q < Spans(s, i)[k].end)
    ensures !TokenStart(s, q)
    decreases |s| - i
  {
    var r := Spans(s, i);
    match MatchAt(s, i)
    case Some(e) =>
      assert r[0] == Span(i, e);
      if e <= q {
        assert r[1..] == Spans(s, e);
        forall k | 0 <= k < |Spans(s, e)|
          ensures !(Spans(s, e)[k].start <= q < Spans(s, e)[k].end)
        {
          assert Spans(s, e)[k] == r[k + 1];
        }
        UncoveredPositionsDoNotMatch(s, e, q);
      }
    case None =>
      if i < q {
        UncoveredPositionsDoNotMatch(s, i + 1, q);
      }
  }

  /** The first position at or after i where a match starts, or |s|. */
  function NextTokenStart(s: string, i: nat): (q: nat)
    requires i <= |s|
    ensures i <= q <= |s| && (q == |s| || TokenStart(s, q))
    ensures forall j :: i <= j < q ==> !TokenStart(s, j)
    decreases |s| - i
  {
    if i == |s| || TokenStart(s, i) then i else NextTokenStart(s, i + 1)
  }

  /** The scan passes over everything before the next token start. */
  lemma {:induction false} SpansFromNextStart(s: string, i: nat)
    requires i <= |s|
    ensures Spans(s, i) == Spans(s, NextTokenStart(s, i))
    decreases |s| - i
  {
    if i < |s| && !TokenStart(s, i) {
      SpansFromNextStart(s, i + 1);
    }
  }

  lemma {:induction false} NoTokenStartNoSpans(s: string, i: nat)
    requires i <= |s|
    requires forall q :: i <= q < |s| ==> !TokenStart(s, q)
    ensures Spans(s, i) == []
    decreases |s| - i
  {
    if i < |s| {
      NoTokenStartNoSpans(s, i + 1);
    }
  }

  /**
   The result is empty exactly when no `ss://` in the input is followed by a
   class character.
   */
  lemma ExtractEmptyIff(s: string)
    ensures Extract(s) == [] <==> forall q :: 0 <= q < |s| ==> !TokenStart(s, q)
  {
    if Extract(s) == [] {
      forall q | 0 <= q < |s| ensures !TokenStart(s, q) {
        UncoveredPositionsDoNotMatch(s, 0, q);
      }
    } else {
      var sp := Spans(s, 0)[0];
      assert TokenStart(s, sp.start);
    }
    if forall q :: 0 <= q < |s| ==> !TokenStart(s, q) {
      NoTokenStartNoSpans(s, 0);
    }
  }

  // The shape of one extracted element, read on the element alone.

  ghost predicate BareShape(t: string) {
    BareAt(t, 0, |t|)
  }

  ghost predicate LongShape(t: string) {
    exists a, p :: LongAt(t, 0, a, p, |t|)
  }

  lemma ShiftBare(s: string, i: int, e: int)
    requires BareAt(s, i, e)
    ensures BareShape(s[i..e])
  {
    var t := s[i..e];
    assert t[..|Scheme|] == s[i..i + |Scheme|];
    forall k | |Scheme| <= k < |t| ensures IsTokenChar(t[k]) {
      assert t[k] == s[i + k];
    }
  }

  lemma ShiftLong(s: string, i: int, a: int, p: int, e: int)
    requires LongAt(s, i, a, p, e)
    ensures LongAt(s[i..e], 0, a - i, p - i, e - i)
  {
    var t := s[i..e];
    assert t[..|Scheme|] == s[i..i + |Scheme|];
    forall k | |Scheme| <= k < a - i ensures IsTokenChar(t[k]) {
      assert t[k] == s[i + k];
    }
    forall k | a - i + 1 <= k < p - i ensures t[k] != '\n' {
      assert t[k] == s[i + k];
    }
    forall k | p - i + 1 <= k < |t| ensures IsDigit(t[k]) {
      assert t[k] == s[i + k];
    }
  }

  /**
   What every element of either shape looks like: the `ss://` prefix, no line
   feed, a class run that stops only at the end or at `@` (so never at `=`),
   and a trailing digit in the long form.
   */
  lemma ShapeFacts(t: string)
    requires BareShape(t) || LongShape(t)
    ensures |t| > |Scheme| && t[..|Scheme|] == Scheme
    ensures NoNewline(t, 0, |t|)
    ensures TokenRunEnd(t, |Scheme|) == |t| || t[TokenRunEnd(t, |Scheme|)] == '@'
    ensures LongShape(t) ==> IsDigit(t[|t| - 1])
    ensures BareShape(t) <==> !LongShape(t)
  {
    assert t[..|Scheme|] == Scheme;
    if LongShape(t) {
      var a, p :| LongAt(t, 0, a, p, |t|);
      LongAtParts(t, 0, a, p, |t|);
      forall k | 0 <= k < |t| ensures t[k] != '\n' {
        if k < |Scheme| {
          assert t[k] == t[..|Scheme|][k];
        } else if k < a {
          assert IsTokenChar(t[k]);
        } else if p < k {
          assert IsDigit(t[k]);
        }
      }
      if BareShape(t) {
        BareAtBound(t, 0, |t|);
      }
    } else {
      BareAtBound(t, 0, |t|);
      forall k | 0 <= k < |t| ensures t[k] != '\n' {
        if k < |Scheme| {
          assert t[k] == t[..|Scheme|][k];
        } else {
          assert IsTokenChar(t[k]);
        }
      }
    }
  }

  /**
   Every server is a contiguous piece s[start..end] of the input, the pieces
   come left to right without overlapping, and each piece has the shape of one
   of the two alternatives.
   */
  lemma ExtractElements(s: string)
    ensures |Extract(s)| == |Spans(s, 0)|
    ensures forall k :: 0 <= k < |Extract(s)| ==>
      Extract(s)[k] == s[Spans(s, 0)[k].start..Spans(s, 0)[k].end]
    ensures forall k :: 0 <= k < |Extract(s)| - 1 ==>
      Spans(s, 0)[k].end <= Spans(s, 0)[k + 1].start
    ensures forall k :: 0 <= k < |Extract(s)| ==>
      BareShape(Extract(s)[k]) || LongShape(Extract(s)[k])
  {
    var r := Spans(s, 0);
    forall k | 0 <= k < |r| ensures BareShape(Extract(s)[k]) || LongShape(Extract(s)[k]) {
      var i, e := r[k].start, r[k].end;
      MatchAtIsLeftmostFirst(s, i);
      assert LeftmostFirstAt(s, i, e);
      if HasLongAt(s, i) {
        var a, p :| LongAt(s, i, a, p, e);
        ShiftLong(s, i, a, p, e);
        assert LongAt(s[i..e], 0, a - i, p - i, |s[i..e]|);
      } else {
        ShiftBare(s, i, e);
      }
    }
  }

  /** The element-level facts, for every server of the input. */
  lemma ExtractedServerFacts(s: string, k: nat)
    requires k < |Extract(s)|
    ensures var t := Extract(s)[k];
      |t| > |Scheme| && t[..|Scheme|] == Scheme &&
      NoNewline(t, 0, |t|) &&
      (TokenRunEnd(t, |Scheme|) == |t| || t[TokenRunEnd(t, |Scheme|)] == '@') &&
      (LongShape(t) ==> IsDigit(t[|t| - 1]))
  {
    ExtractElements(s);
    ShapeFacts(Extract(s)[k]);
  }

  // ---------------------------------------------------------------------------
  // The two shapes of line found in forwarded messages.

  /**
   A bare token ends at the first character outside the class that is not `@`:
   base64 padding `=`, a `#` fragment, a space or a line feed are all left out,
   while a `/` is kept.
   */
  lemma BareTokenEndsAtFirstNonClass(r: string, t: string)
    requires |r| > 0 && AllToken(r, 0, |r|)
    requires t == [] || (!IsTokenChar(t[0]) && t[0] != '@')
    ensures MatchAt(Scheme + r + t, 0) == Some(|Scheme| + |r|)
  {
    var s := Scheme + r + t;
    var a := |Scheme| + |r|;
    forall k | |Scheme| <= k < a ensures IsTokenChar(s[k]) {
      assert s[k] == r[k - |Scheme|];
    }
    assert a == |s| || s[a] == t[0];
    assert TokenStart(s, 0);
    assert TokenRunEnd(s, |Scheme|) == a;
  }

  /**
   A long-form match whose digit run is maximal and after whose colon no usable
   colon follows on the line is the match MatchAt reports.
   */
  lemma LongAtIsMatch(s: string, i: nat, a: int, p: int, e: int)
    requires LongAt(s, i, a, p, e)
    requires e == |s| || !IsDigit(s[e])
    requires a + 1 <= |s| && forall q :: p < q < LineEnd(s, a + 1) ==> !PortColon(s, q)
    ensures MatchAt(s, i) == Some(e)
  {
    LongAtParts(s, i, a, p, e);
    var hi := LineEnd(s, a + 1);
    assert LastPortColon(s, a + 2, hi) == Some(p);
  }

  /**
   A long form `ss://<run>@<host>:<port>` followed by decoration with no usable
   `:<digit>` before the end of its line is reported up to the port digits.
   */
  lemma LongFormDropsDecoration(r: string, h: string, d: string, t: string)
    requires |r| > 0 && AllToken(r, 0, |r|)
    requires |h| > 0 && NoNewline(h, 0, |h|)
    requires |d| > 0 && AllDigits(d, 0, |d|)
    requires t == [] || !IsDigit(t[0])
    requires forall k :: 0 <= k < LineEnd(t, 0) ==> !PortColon(t, k)
    ensures MatchAt(Scheme + r + "@" + h + ":" + d + t, 0) ==
            Some(|Scheme + r + "@" + h + ":" + d|)
  {
    var u := Scheme + r + "@" + h + ":" + d;
    var s := u + t;
    var a := |Scheme| + |r|;
    var p := a + 1 + |h|;
    LongFormLayout(r, h, d, t);
    NoColonAfterPort(u, t, a, p);
    assert |u| == |s| || s[|u|] == t[0];
    LongAtIsMatch(s, 0, a, p, |u|);
  }

  /** Where the parts of a long form sit in the text. */
  lemma LongFormLayout(r: string, h: string, d: string, t: string)
    requires |r| > 0 && AllToken(r, 0, |r|)
    requires |h| > 0 && NoNewline(h, 0, |h|)
    requires |d| > 0 && AllDigits(d, 0, |d|)
    ensures var u := Scheme + r + "@" + h + ":" + d;
      var a := |Scheme| + |r|;
      var p := a + 1 + |h|;
      |u| == p + 1 + |d| && LongAt(u + t, 0, a, p, |u|) && AllDigits(u, p + 1, |u|)
  {
    var u := Scheme + r + "@" + h + ":" + d;
    var s := u + t;
    var a := |Scheme| + |r|;
    var p := a + 1 + |h|;
    var e := p + 1 + |d|;
    assert |u| == e;
    forall k | |Scheme| <= k < a ensures IsTokenChar(s[k]) {
      assert s[k] == r[k - |Scheme|];
    }
    forall k | a + 1 <= k < p ensures s[k] != '\n' {
      assert s[k] == h[k - a - 1];
    }
    forall k | p + 1 <= k < e ensures IsDigit(s[k]) && IsDigit(u[k]) {
      assert s[k] == u[k] == d[k - p - 1];
    }
    assert s[a] == '@' && s[p] == ':';
  }

  /**
   After port digits that end u, no `:<digit>` appears before the line ends,
   when t has none before its first line feed.
   */
  lemma NoColonAfterPort(u: string, t: string, a: int, p: int)
    requires 0 <= a < p < |u| && AllDigits(u, p + 1, |u|)
    requires forall k :: 0 <= k < LineEnd(t, 0) ==> !PortColon(t, k)
    ensures forall q :: p < q < LineEnd(u + t, a + 1) ==> !PortColon(u + t, q)
  {
    var s := u + t;
    var hi := LineEnd(s, a + 1);
    forall q | p < q < hi ensures !PortColon(s, q) {
      if q >= |u| {
        DecorationColon(u, t, a, q);
      } else {
        assert s[q] == u[q];
      }
    }
  }

  lemma DecorationColon(u: string, t: string, a: int, q: int)
    requires 0 <= a < |u| <= q < LineEnd(u + t, a + 1)
    requires forall k :: 0 <= k < LineEnd(t, 0) ==> !PortColon(t, k)
    ensures !PortColon(u + t, q)
  {
    var s := u + t;
    var e := |u|;
    var te := LineEnd(t, 0);
    assert s[q] == t[q - e];
    assert q - e < te by {
      if te < |t| {
        assert s[e + te] == t[te];
      }
    }
    assert q + 1 < |s| ==> s[q + 1] == t[q + 1 - e];
    assert !PortColon(t, q - e);
  }
}
