/**
 What the bot does with one incoming message: take the servers from the text,
 or from the caption when the text has none, register each one, and answer
 with one line per server in extraction order, or with a single notice when
 there is no server at all.

 Each call to `addServer` is I/O; the result of the call for the k-th server
 of the message is given as outcome(k).
 */
module Reply {
  import opened Text
  import opened Extractor
  import opened Registration

  const NoServersNotice: string := "I could not find any servers in this message"

  /** The servers of a message: the caption is scanned only when the text yields none. */
  function MessageServers(text: string, caption: string): seq<string> {
    var fromText := Extract(text);
    if |fromText| == 0 then Extract(caption) else fromText
  }

  /** Lines 50-53 of the bot's loop. */
  method CollectServers(text: string, caption: string) returns (servers: seq<string>)
    ensures servers == MessageServers(text, caption)
  {
    servers := FindServers(text);
    if |servers| == 0 {
      servers := FindServers(caption);
    }
  }

  /**
   Text and caption are never merged: a text with a server decides alone, and
   the caption is used exactly when no `ss://` of the text is followed by a
   class character.
   */
  lemma FallbackRule(text: string, caption: string)
    ensures (exists q :: 0 <= q < |text| && TokenStart(text, q)) ==>
      MessageServers(text, caption) == Extract(text) && |Extract(text)| > 0
    ensures (forall q :: 0 <= q < |text| ==> !TokenStart(text, q)) ==>
      MessageServers(text, caption) == Extract(caption)
    ensures MessageServers(text, caption) == [] <==>
      (forall q :: 0 <= q < |text| ==> !TokenStart(text, q)) &&
      (forall q :: 0 <= q < |caption| ==> !TokenStart(caption, q))
  {
    ExtractEmptyIff(text);
    ExtractEmptyIff(caption);
  }

  // ---------------------------------------------------------------------------
  // The reply.

  /** The line for one server, without its line feed. */
  function ServerLine(server: string, outcome: AddOutcome): string {
    match outcome
    case Added => "Added server " + server
    case Failed(e) => "Error adding server [" + server + "] with error: " + ErrorText(e)
  }

  /** The lines for the servers, appended one by one as `reply_text +=` does. */
  function ReplyLines(servers: seq<string>, outcome: nat -> AddOutcome): string
    decreases |servers|
  {
    if servers == [] then ""
    else
      var n := |servers| - 1;
      ReplyLines(servers[..n], outcome) + ServerLine(servers[n], outcome(n)) + "\n"
  }

  /** The reply sent for a message whose servers and call outcomes are given. */
  function ReplyText(servers: seq<string>, outcome: nat -> AddOutcome): string {
    if |servers| > 0 then ReplyLines(servers, outcome) else NoServersNotice
  }

  /**
   Lines 50-66 of the bot's loop: the servers of the message, then the reply,
   built line by line.
   */
  method AnswerMessage(text: string, caption: string, outcome: nat -> AddOutcome)
    returns (reply: string)
    ensures reply == ReplyText(MessageServers(text, caption), outcome)
  {
    var servers := CollectServers(text, caption);
    if |servers| > 0 {
      reply := "";
      var k := 0;
      while k < |servers|
        invariant k <= |servers|
        invariant reply == ReplyLines(servers[..k], outcome)
      {
        ReplyLinesExtend(servers, outcome, k);
        reply := reply + ServerLine(servers[k], outcome(k)) + "\n";
        k := k + 1;
      }
      assert servers[..k] == servers;
    } else {
      reply := NoServersNotice;
    }
  }

  /** The lines for one more server extend the lines for the ones before it. */
  lemma ReplyLinesExtend(servers: seq<string>, outcome: nat -> AddOutcome, k: nat)
    requires k < |servers|
    ensures ReplyLines(servers[..k + 1], outcome) ==
      ReplyLines(servers[..k], outcome) + ServerLine(servers[k], outcome(k)) + "\n"
  {
    assert servers[..k + 1][..k] == servers[..k];
  }

  // ---------------------------------------------------------------------------
  // Reading the reply back as lines.

  /** The lines of t, each without its line feed; an unterminated tail is a line too. */
  function SplitLines(t: string): seq<string>
    decreases |t|
  {
    if t == [] then []
    else
      var k := LineEnd(t, 0);
      if k == |t| then [t] else [t[..k]] + SplitLines(t[k + 1..])
  }

  /** LineEnd is determined by its contract: the first line feed from j on. */
  lemma LineEndIs(t: string, j: nat, k: nat)
    requires j <= k <= |t| && NoNewline(t, j, k) && (k == |t| || t[k] == '\n')
    ensures LineEnd(t, j) == k
  {
  }

  /** The first line of x + y is the first line of x, when x ends a line. */
  lemma FirstLineOfAppend(x: string, y: string)
    requires x != [] && x[|x| - 1] == '\n'
    ensures LineEnd(x, 0) < |x|
    ensures LineEnd(x + y, 0) == LineEnd(x, 0)
    ensures (x + y)[..LineEnd(x, 0)] == x[..LineEnd(x, 0)]
    ensures (x + y)[LineEnd(x, 0) + 1..] == x[LineEnd(x, 0) + 1..] + y
  {
    var k := LineEnd(x, 0);
    var xy := x + y;
    assert NoNewline(xy, 0, k) by {
      forall i | 0 <= i < k ensures xy[i] != '\n' {
        assert xy[i] == x[i];
      }
    }
    assert xy[k] == '\n';
    LineEndIs(xy, 0, k);
  }

  lemma {:induction false} SplitLinesAppend(x: string, y: string)
    requires x == [] || x[|x| - 1] == '\n'
    ensures SplitLines(x + y) == SplitLines(x) + SplitLines(y)
    decreases |x|
  {
    if x == [] {
      assert x + y == y;
    } else {
      var k := LineEnd(x, 0);
      FirstLineOfAppend(x, y);
      var rest := x[k + 1..];
      assert rest == [] || rest[|rest| - 1] == x[|x| - 1];
      SplitLinesAppend(rest, y);
      calc {
        SplitLines(x + y);
        [x[..k]] + SplitLines(rest + y);
        [x[..k]] + (SplitLines(rest) + SplitLines(y));
        SplitLines(x) + SplitLines(y);
      }
    }
  }

  lemma OneLine(line: string)
    requires NoNewline(line, 0, |line|)
    ensures SplitLines(line + "\n") == [line]
  {
    var t := line + "\n";
    assert NoNewline(t, 0, |line|) by {
      forall i | 0 <= i < |line| ensures t[i] != '\n' {
        assert t[i] == line[i];
      }
    }
    LineEndIs(t, 0, |line|);
    assert t[..|line|] == line;
    assert t[|line| + 1..] == [];
  }

  lemma ServerLineIsOneLine(server: string, outcome: AddOutcome)
    requires NoNewline(server, 0, |server|)
    requires outcome.Failed? ==> NoNewline(ErrorText(outcome.err), 0, |ErrorText(outcome.err)|)
    ensures NoNewline(ServerLine(server, outcome), 0, |ServerLine(server, outcome)|)
  {
    match outcome
    case Added =>
      OneLineConcat("Added server ", server);
    case Failed(e) =>
      OneLineConcat("Error adding server [", server);
      OneLineConcat("Error adding server [" + server, "] with error: ");
      OneLineConcat("Error adding server [" + server + "] with error: ", ErrorText(e));
  }

  lemma OneLineConcat(x: string, y: string)
    requires NoNewline(x, 0, |x|) && NoNewline(y, 0, |y|)
    ensures NoNewline(x + y, 0, |x + y|)
  {
    forall i | 0 <= i < |x + y| ensures (x + y)[i] != '\n' {
      if i >= |x| {
        assert (x + y)[i] == y[i - |x|];
      }
    }
  }

  /** Every line of the reply is free of line feeds. */
  predicate LinesAreOneLine(servers: seq<string>, outcome: nat -> AddOutcome) {
    forall k :: 0 <= k < |servers| ==>
      var line := ServerLine(servers[k], outcome(k));
      NoNewline(line, 0, |line|)
  }

  /** Appending one terminated line to a text of whole lines adds one line. */
  lemma SplitLinesAddLine(prefix: string, line: string)
    requires prefix == [] || prefix[|prefix| - 1] == '\n'
    requires NoNewline(line, 0, |line|)
    ensures SplitLines(prefix + line + "\n") == SplitLines(prefix) + [line]
  {
    assert prefix + line + "\n" == prefix + (line + "\n");
    SplitLinesAppend(prefix, line + "\n");
    OneLine(line);
  }

  /** The line of each server, in order. */
  function ServerLines(servers: seq<string>, outcome: nat -> AddOutcome): (r: seq<string>)
    ensures |r| == |servers|
    ensures forall k :: 0 <= k < |servers| ==> r[k] == ServerLine(servers[k], outcome(k))
  {
    seq(|servers|, k requires 0 <= k < |servers| => ServerLine(servers[k], outcome(k)))
  }

  /**
   When no line holds a line feed of its own, the reply reads back as exactly
   one line per server, in order, and it ends with a line feed.
   */
  lemma {:induction false} ReplyLinesSplit(servers: seq<string>, outcome: nat -> AddOutcome)
    requires LinesAreOneLine(servers, outcome)
    ensures SplitLines(ReplyLines(servers, outcome)) == ServerLines(servers, outcome)
    ensures servers != [] ==> ReplyLines(servers, outcome)[|ReplyLines(servers, outcome)| - 1] == '\n'
    decreases |servers|
  {
    if servers != [] {
      var n := |servers| - 1;
      var ss := servers[..n];
      assert LinesAreOneLine(ss, outcome) by {
        forall k | 0 <= k < n
          ensures NoNewline(ServerLine(ss[k], outcome(k)), 0, |ServerLine(ss[k], outcome(k))|)
        {
          assert ss[k] == servers[k];
        }
      }
      ReplyLinesSplit(ss, outcome);
      var prefix := ReplyLines(ss, outcome);
      var line := ServerLine(servers[n], outcome(n));
      SplitLinesAddLine(prefix, line);
      ServerLinesSnoc(servers, outcome);
    }
  }

  lemma ServerLinesSnoc(servers: seq<string>, outcome: nat -> AddOutcome)
    requires servers != []
    ensures var n := |servers| - 1;
      ServerLines(servers, outcome) ==
        ServerLines(servers[..n], outcome) + [ServerLine(servers[n], outcome(n))]
  {
    var n := |servers| - 1;
    var ss := servers[..n];
    forall k | 0 <= k < n ensures ServerLines(servers, outcome)[k] == ServerLines(ss, outcome)[k] {
      assert ss[k] == servers[k];
    }
  }

  /**
   The reply to a message: the single notice when it has no server; otherwise,
   as long as no transport error text holds a line feed, one line per server in
   extraction order, "Added server <s>" or "Error adding server [<s>] with
   error: <err>".
   */
  lemma ReplyHasOneLinePerServer(text: string, caption: string, outcome: nat -> AddOutcome)
    requires forall k :: outcome(k).Failed? && outcome(k).err.Transport? ==>
      NoNewline(outcome(k).err.message, 0, |outcome(k).err.message|)
    ensures var servers := MessageServers(text, caption);
      servers == [] ==> ReplyText(servers, outcome) == NoServersNotice
    ensures var servers := MessageServers(text, caption);
      servers != [] ==> SplitLines(ReplyText(servers, outcome)) == ServerLines(servers, outcome)
  {
    var servers := MessageServers(text, caption);
    var source := if |Extract(text)| == 0 then caption else text;
    assert servers == Extract(source);
    forall k | 0 <= k < |servers|
      ensures NoNewline(ServerLine(servers[k], outcome(k)), 0, |ServerLine(servers[k], outcome(k))|)
    {
      ExtractedServerFacts(source, k);
      if outcome(k).Failed? && !outcome(k).err.Transport? {
        ServiceErrorTextsAreOneLine(outcome(k).err);
      }
      ServerLineIsOneLine(servers[k], outcome(k));
    }
    ReplyLinesSplit(servers, outcome);
  }
}
