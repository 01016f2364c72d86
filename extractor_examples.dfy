/**
 Worked inputs for the extractor, in the spirit of the test corpus: each lemma
 states what `findServers` returns for one short message.
 */
module ExtractorExamples {
  import opened Text
  import opened Extractor

  /** A `#` fragment after the port is dropped. */
  lemma DecoratedLongForm()
    ensures Extract("ss://XYZ@1.2.3.4:5001#L") == ["ss://XYZ@1.2.3.4:5001"]
  {
    var s := "ss://XYZ@1.2.3.4:5001#L";
    DecoratedLongFormMatch();
    assert NextTokenStart(s, 21) == |s|;
    SpansFromNextStart(s, 21);
    assert Spans(s, 0) == [Span(0, 21)];
    assert Extract(s)[0] == s[0..21] == "ss://XYZ@1.2.3.4:5001";
  }

  lemma DecoratedLongFormMatch()
    ensures MatchAt("ss://XYZ@1.2.3.4:5001#L", 0) == Some(21)
  {
    var r, h, d, t := "XYZ", "1.2.3.4", "5001", "#L";
    assert Scheme + r + "@" + h + ":" + d + t == "ss://XYZ@1.2.3.4:5001#L";
    assert AllToken(r, 0, |r|) && NoNewline(h, 0, |h|) && AllDigits(d, 0, |d|);
    assert LineEnd(t, 0) == 2;
    assert !PortColon(t, 0) && !PortColon(t, 1);
    LongFormDropsDecoration(r, h, d, t);
  }

  /** Nothing anchors the scheme on the left: `vmess://` contains `ss://`. */
  lemma MatchInsideVmess()
    ensures Extract("vmess://eyJ2") == ["ss://eyJ2"]
  {
    var s := "vmess://eyJ2";
    MatchInsideVmessSpans();
    assert Extract(s)[0] == s[3..12] == "ss://eyJ2";
  }

  lemma MatchInsideVmessSpans()
    ensures Spans("vmess://eyJ2", 0) == [Span(3, 12)]
  {
    var s := "vmess://eyJ2";
    assert NextTokenStart(s, 0) == 3;
    SpansFromNextStart(s, 0);
    assert TokenRunEnd(s, 8) == 12;
    assert MatchAt(s, 3) == Some(12);
  }

  /** Repeated servers are all reported, in order. */
  lemma RepeatsKept()
    ensures Extract("ss://A ss://B ss://A") == ["ss://A", "ss://B", "ss://A"]
  {
    var s := "ss://A ss://B ss://A";
    assert s[0..6] == "ss://A" && s[7..13] == "ss://B" && s[14..20] == "ss://A";
    RepeatsKeptAllSpans();
    assert Extract(s)[0] == s[0..6];
    assert Extract(s)[1] == s[7..13];
    assert Extract(s)[2] == s[14..20];
  }

  lemma RepeatsKeptAllSpans()
    ensures Spans("ss://A ss://B ss://A", 0) == [Span(0, 6), Span(7, 13), Span(14, 20)]
  {
    RepeatsKeptSpans();
    RepeatsKeptTail();
  }

  lemma RepeatsKeptSpans()
    ensures Spans("ss://A ss://B ss://A", 0) == [Span(0, 6)] + Spans("ss://A ss://B ss://A", 7)
  {
    var s := "ss://A ss://B ss://A";
    RepeatsKeptFirst();
    assert !TokenStart(s, 6);
  }

  lemma RepeatsKeptFirst()
    ensures MatchAt("ss://A ss://B ss://A", 0) == Some(6)
  {
    var r, t := "A", " ss://B ss://A";
    assert AllToken(r, 0, |r|);
    BareTokenEndsAtFirstNonClass(r, t);
    assert Scheme + r + t == "ss://A ss://B ss://A";
  }

  lemma RepeatsKeptTail()
    ensures Spans("ss://A ss://B ss://A", 7) == [Span(7, 13), Span(14, 20)]
  {
    var s := "ss://A ss://B ss://A";
    assert TokenStart(s, 14) && TokenRunEnd(s, 19) == 20;
    assert Spans(s, 14) == [Span(14, 20)];
    assert TokenStart(s, 7) && TokenRunEnd(s, 12) == 13;
    assert !TokenStart(s, 13);
  }

  /** Greedy `.+` crosses the space: two long forms on one line are one server. */
  lemma TwoLongFormsOnOneLine()
    ensures Extract("ss://A@h:1 ss://B@k:2") == ["ss://A@h:1 ss://B@k:2"]
  {
    var s := "ss://A@h:1 ss://B@k:2";
    TwoLongFormsMatch();
    assert Spans(s, 21) == [];
    assert Spans(s, 0) == [Span(0, 21)];
    assert Extract(s)[0] == s[0..21] == "ss://A@h:1 ss://B@k:2";
  }

  lemma TwoLongFormsMatch()
    ensures MatchAt("ss://A@h:1 ss://B@k:2", 0) == Some(21)
  {
    var r, h, d, t := "A", "h:1 ss://B@k", "2", "";
    assert Scheme + r + "@" + h + ":" + d + t == "ss://A@h:1 ss://B@k:2";
    assert AllToken(r, 0, |r|) && NoNewline(h, 0, |h|) && AllDigits(d, 0, |d|);
    LongFormDropsDecoration(r, h, d, t);
  }

  /** `.+` stops at a line feed, so a port on the next line is not used. */
  lemma LongFormStaysOnItsLine()
    ensures Extract("ss://A@h\n:1") == ["ss://A"]
  {
    var s := "ss://A@h\n:1";
    assert TokenStart(s, 0);
    assert TokenRunEnd(s, 5) == 6;
    assert LineEnd(s, 7) == 8;
    assert LastPortColon(s, 8, 8) == None;
    assert MatchAt(s, 0) == Some(6);
    assert NextTokenStart(s, 6) == |s|;
    SpansFromNextStart(s, 6);
    assert Spans(s, 0) == [Span(0, 6)];
    assert Extract(s)[0] == s[0..6] == "ss://A";
  }

  /** `.+` needs a character between `@` and `:`, so an empty host is no long form. */
  lemma EmptyHostIsNoLongForm()
    ensures Extract("ss://A@:1") == ["ss://A"]
  {
    var s := "ss://A@:1";
    assert TokenStart(s, 0);
    assert TokenRunEnd(s, 5) == 6;
    assert LineEnd(s, 7) == 9;
    assert LastPortColon(s, 8, 9) == None;
    assert MatchAt(s, 0) == Some(6);
    assert NextTokenStart(s, 6) == |s|;
    SpansFromNextStart(s, 6);
    assert Spans(s, 0) == [Span(0, 6)];
    assert Extract(s)[0] == s[0..6] == "ss://A";
  }

  /** Base64 padding is not in the class: the server ends before `=`. */
  lemma PaddingDropped()
    ensures Extract("ss://QUJD=#L") == ["ss://QUJD"]
  {
    var s := "ss://QUJD=#L";
    assert TokenStart(s, 0);
    assert TokenRunEnd(s, 5) == 9;
    assert MatchAt(s, 0) == Some(9);
    assert NextTokenStart(s, 9) == |s|;
    SpansFromNextStart(s, 9);
    assert Spans(s, 0) == [Span(0, 9)];
    assert Extract(s)[0] == s[0..9] == "ss://QUJD";
  }

  /** A `/` is in the class, so it stays inside a bare server. */
  lemma SlashKept()
    ensures Extract("ss://a/b c") == ["ss://a/b"]
  {
    var s := "ss://a/b c";
    assert TokenStart(s, 0);
    assert TokenRunEnd(s, 5) == 8;
    assert MatchAt(s, 0) == Some(8);
    assert NextTokenStart(s, 8) == |s|;
    SpansFromNextStart(s, 8);
    assert Spans(s, 0) == [Span(0, 8)];
    assert Extract(s)[0] == s[0..8] == "ss://a/b";
  }

  /** `ss://` followed by a character outside the class is not a server. */
  lemma SchemeWithoutRunIgnored()
    ensures Extract("ss:// ss://=") == []
  {
    var s := "ss:// ss://=";
    ExtractEmptyIff(s);
    assert NextTokenStart(s, 0) == |s|;
  }
}
