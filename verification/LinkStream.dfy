/**
 The drain loop of `read_handler` as a parser of a byte stream that arrives in chunks:
 it is independent of the chunking on well-formed traffic, and its buffer is bounded on
 every traffic.
 */
module LinkStream {
  import opened Bytes
  import opened LinkMessage

  /** The outcome of a parse loop: messages found, bytes kept, and whether it reached `abort()`. */
  datatype Drained = Drained(msgs: seq<Msg>, rest: seq<Byte>, aborted: bool)

  function ParseAll(buf: seq<Byte>): (d: Drained)
    ensures |d.rest| <= |buf|
    decreases |buf|
  {
    match ParseInput(buf)
    case Abort => Drained([], buf, true)
    case Parsed(m, rest) =>
      if m.typ == NoMsg then Drained([], buf, false)
      else
        var d := ParseAll(rest);
        Drained([m] + d.msgs, d.rest, d.aborted)
  }

  /** Successive reads, each appended to what the previous one left; an abort ends everything. */
  function Feed(buf: seq<Byte>, chunks: seq<seq<Byte>>): Drained
    decreases |chunks|
  {
    if chunks == [] then Drained([], buf, false)
    else
      var d := ParseAll(buf + chunks[0]);
      if d.aborted then d
      else
        var f := Feed(d.rest, chunks[1..]);
        Drained(d.msgs + f.msgs, f.rest, f.aborted)
  }

  /** The parser waits for more. */
  predicate Waiting(buf: seq<Byte>) {
    ParseInput(buf) == Parsed(NOTHING, buf)
  }

  /* ---------- well-formed traffic ---------- */

  lemma ParsePrinted(m: Msg, tail: seq<Byte>)
    requires Sendable(m)
    ensures ParseInput(Print(m) + tail) == Parsed(m, tail)
  {
    if m.typ == Info {
      assert m == InfoMsg(m.header, m.body);
      InfoLayout(m.header, m.body, tail);
      InfoRoundTrip(m.header, m.body, tail);
    } else {
      assert m == Simple(m.typ, m.prefix);
      SimpleRoundTrip(m.typ, m.prefix, tail);
    }
  }

  /** An unfinished message is never misread. */
  lemma ParseUnfinished(m: Msg, p: seq<Byte>)
    requires Sendable(m)
    requires p < Print(m)
    ensures Waiting(p)
  {
    if m.typ != Info {
      assert Print(m) == m.prefix + [Code(m.typ)];
      assert p <= m.prefix;
      forall j | 0 <= j < |p| ensures p[j] !in START {
        assert Graphic(m.prefix[j]);
      }
      assert FindAny(p, START) == |p|;
    } else if p != [] {
      UnfinishedInfo(m.header, m.body, p);
      InfoAtFront(p);
    }
  }

  lemma UnfinishedInfo(h: seq<Byte>, b: seq<Byte>, p: seq<Byte>)
    requires InfoOk(h, b)
    requires p != [] && p < Print(InfoMsg(h, b))
    ensures p[0] == SOH || p[0] == STX
    ensures ParseInfo(p) == Parsed(NOTHING, p)
  {
    var whole := Print(InfoMsg(h, b));
    InfoLayout(h, b, []);
    hide Print, Block;
    assert whole + [] == whole;
    FirstEtx(whole, h, b, []);
    if h != [] {
      FirstStx(whole, h, b, []);
    }
    LaidOutIntro(whole, h, b, []);
    assert EtxAt(h, b) <= MAX_MESSAGE_LEN by {
      BlockLength(h, b);
    }
    UnfinishedSearch(whole, p, {ETX});
    UnfinishedSearch(whole, p, {STX});
  }

  /** A front of `whole` finds what `whole` finds, or nothing. */
  lemma UnfinishedSearch(whole: seq<Byte>, p: seq<Byte>, cs: set<Byte>)
    requires p <= whole
    ensures FindAny(p, cs) == if FindAny(whole, cs) < |p| then FindAny(whole, cs) else |p|
  {
    assert forall j :: 0 <= j < |p| ==> p[j] == whole[j];
  }

  lemma WaitingNone()
    ensures Waiting([])
  {
  }

  lemma PrintNotEmpty(m: Msg)
    requires Sendable(m)
    ensures Print(m) != [] && m.typ != NoMsg
  {
    hide Block, BlockCheck;
  }

  /** One turn of the loop on a buffer holding the front of a well-formed stream. */
  lemma ParseFront(buf: seq<Byte>, more: seq<Byte>, ms: seq<Msg>)
    requires AllSendable(ms)
    requires buf + more == PrintAll(ms)
    ensures ms == [] ==> buf == [] && Waiting(buf)
    ensures ms != [] && |buf| < |Print(ms[0])| ==> Waiting(buf) && buf < Print(ms[0])
    ensures ms != [] && |buf| >= |Print(ms[0])| ==>
              var n := |Print(ms[0])|;
              && n > 0 && buf[..n] == Print(ms[0])
              && ParseInput(buf) == Parsed(ms[0], buf[n..])
              && buf[n..] + more == PrintAll(ms[1..])
  {
    WaitingNone();
    hide Print, ParseInput, Waiting, Sendable;
    if ms != [] {
      PrintNotEmpty(ms[0]);
      var first := Print(ms[0]);
      assert (buf + more)[..|first|] == first;
      assert (buf + more)[|first|..] == PrintAll(ms[1..]);
      if |buf| < |first| {
        assert buf == (buf + more)[..|buf|] == first[..|buf|];
        ParseUnfinished(ms[0], buf);
      } else {
        assert buf[..|first|] == first;
        assert buf == first + buf[|first|..];
        ParsePrinted(ms[0], buf[|first|..]);
        assert buf[|first|..] + more == (buf + more)[|first|..];
      }
    }
  }

  /** What has come out of the first `k` messages of `ms`, and what is still unfinished. */
  ghost predicate Split(ms: seq<Msg>, d: Drained, seen: seq<Byte>) {
    && !d.aborted && |d.msgs| <= |ms| && d.msgs == ms[..|d.msgs|]
    && seen == PrintAll(d.msgs) + d.rest
    && (if |d.msgs| == |ms| then d.rest == [] else d.rest < Print(ms[|d.msgs|]))
  }

  lemma {:induction false} DrainFront(buf: seq<Byte>, more: seq<Byte>, ms: seq<Msg>)
    requires AllSendable(ms)
    requires buf + more == PrintAll(ms)
    ensures Split(ms, ParseAll(buf), buf)
    decreases |ms|
  {
    hide Print, PrintAll, ParseInput, Waiting, Sendable, Split;
    ParseFront(buf, more, ms);
    if ms != [] && |buf| >= |Print(ms[0])| {
      var rest := buf[|Print(ms[0])|..];
      PrintNotEmpty(ms[0]);
      DrainFront(rest, more, ms[1..]);
      assert buf == Print(ms[0]) + rest;
      SplitFirst(ms, ParseAll(rest), rest);
    } else {
      SplitNone(ms, buf);
    }
  }

  lemma SplitNone(ms: seq<Msg>, buf: seq<Byte>)
    requires Waiting(buf) && if ms == [] then buf == [] else buf < Print(ms[0])
    ensures Split(ms, ParseAll(buf), buf)
  {
    hide Print, Waiting, ParseInput;
    WaitingIsKept(buf);
    assert PrintAll([]) + buf == buf;
  }

  lemma SplitFirst(ms: seq<Msg>, d: Drained, rest: seq<Byte>)
    requires ms != [] && Split(ms[1..], d, rest)
    ensures Split(ms, Drained([ms[0]] + d.msgs, d.rest, d.aborted), Print(ms[0]) + rest)
  {
    var all := [ms[0]] + d.msgs;
    assert all[1..] == d.msgs;
    assert all == ms[..|all|];
    Assoc(Print(ms[0]), PrintAll(d.msgs), d.rest);
  }

  /** What a read leaves behind, with the bytes still to come, is the stream of the other messages. */
  lemma SplitRest(ms: seq<Msg>, d: Drained, seen: seq<Byte>, later: seq<Byte>)
    requires AllSendable(ms)
    requires Split(ms, d, seen)
    requires seen + later == PrintAll(ms)
    ensures d.rest + later == PrintAll(ms[|d.msgs|..])
    ensures Waiting(d.rest)
  {
    var k := |d.msgs|;
    assert ms == d.msgs + ms[k..];
    PrintAllAppend(d.msgs, ms[k..]);
    Assoc(PrintAll(d.msgs), d.rest, later);
    CancelFront(PrintAll(d.msgs), d.rest + later, PrintAll(ms[k..]));
    if k < |ms| {
      ParseUnfinished(ms[k], d.rest);
    }
  }

  lemma SplitJoin(ms: seq<Msg>, d: Drained, seen: seq<Byte>, f: Drained, next: seq<Byte>)
    requires Split(ms, d, seen)
    requires Split(ms[|d.msgs|..], f, d.rest + next)
    ensures Split(ms, Drained(d.msgs + f.msgs, f.rest, f.aborted), seen + next)
  {
    var k := |d.msgs|;
    PrintAllAppend(d.msgs, f.msgs);
    assert d.msgs + f.msgs == ms[..k + |f.msgs|];
    Assoc(PrintAll(d.msgs), d.rest, next);
    Assoc(PrintAll(d.msgs), PrintAll(f.msgs), f.rest);
    if k + |f.msgs| < |ms| {
      assert ms[k..][|f.msgs|] == ms[k + |f.msgs|];
    }
  }

  /**
   Chunk independence: cut any front of the printed form of well-formed messages into reads in
   any way; the loop yields exactly the messages that are complete, and keeps exactly the
   unfinished tail.
   */
  lemma {:induction false} ChunkIndependence(buf: seq<Byte>, chunks: seq<seq<Byte>>, more: seq<Byte>, ms: seq<Msg>)
    requires AllSendable(ms)
    requires Waiting(buf)
    requires buf + Flatten(chunks) + more == PrintAll(ms)
    ensures Split(ms, Feed(buf, chunks), buf + Flatten(chunks))
    decreases |chunks|
  {
    if chunks == [] {
      assert buf + Flatten(chunks) == buf;
      ParseFront(buf, more, ms);
    } else {
      var next := Flatten(chunks[1..]);
      var here := buf + chunks[0];
      Assoc(buf, chunks[0], next);
      Assoc(here, next, more);
      DrainFront(here, next + more, ms);
      var d := ParseAll(here);
      SplitRest(ms, d, here, next + more);
      Assoc(d.rest, next, more);
      ChunkIndependence(d.rest, chunks[1..], more, ms[|d.msgs|..]);
      SplitJoin(ms, d, here, Feed(d.rest, chunks[1..]), next);
    }
  }

  /** The whole stream, however it is cut, gives back the whole list of messages. */
  lemma StreamRoundTrip(chunks: seq<seq<Byte>>, ms: seq<Msg>)
    requires AllSendable(ms)
    requires Flatten(chunks) == PrintAll(ms)
    ensures Feed([], chunks) == Drained(ms, [], false)
  {
    assert [] + Flatten(chunks) == Flatten(chunks);
    assert Flatten(chunks) + [] == Flatten(chunks);
    ChunkIndependence([], chunks, [], ms);
    SplitWhole(ms, Feed([], chunks));
  }

  lemma SplitWhole(ms: seq<Msg>, d: Drained)
    requires AllSendable(ms) && Split(ms, d, PrintAll(ms))
    ensures d == Drained(ms, [], false)
  {
    hide Print, Sendable;
    assert PrintAll(ms) + [] == PrintAll(ms);
    SplitRest(ms, d, PrintAll(ms), []);
    assert d.rest + [] == d.rest;
    assert ms[..|ms|] == ms;
  }

  /* ---------- any traffic ---------- */

  /** A buffer longer than a prefix is kept only if a message introducer opens it. */
  lemma WaitingIntro(buf: seq<Byte>)
    requires Waiting(buf) && |buf| > MAX_PREFIX_LEN
    ensures buf[0] == SOH || buf[0] == STX
  {
    hide ParseInfo;
    var intro := FindAny(buf, START);
    assert intro < |buf|;
  }

  /** A buffer that is kept although it is over-long ends in its first ETX. */
  lemma WaitingShape(buf: seq<Byte>)
    requires Waiting(buf)
    ensures |buf| <= MAX_MESSAGE_LEN ||
            ((buf[0] == SOH || buf[0] == STX) && FindAny(buf, {ETX}) == |buf| - 1)
  {
    if |buf| > MAX_MESSAGE_LEN {
      WaitingIntro(buf);
      InfoAtFront(buf);
      hide ParseInput;
    }
  }

  /** ... and the next byte of any kind flushes everything it held. */
  lemma OverlongFlushed(buf: seq<Byte>, chunk: seq<Byte>)
    requires Waiting(buf) && |buf| > MAX_MESSAGE_LEN && chunk != []
    ensures ParseInput(buf + chunk).Parsed?
    ensures ParseInput(buf + chunk).msg.typ != NoMsg
    ensures |ParseInput(buf + chunk).rest| < |chunk|
  {
    hide ParseInput, Waiting;
    WaitingShape(buf);
    var all := buf + chunk;
    assert forall j :: 0 <= j < |buf| ==> all[j] == buf[j];
    InfoAtFront(all);
    assert FindAny(all, {ETX}) == |buf| - 1;
  }

  lemma ParseAllWaits(buf: seq<Byte>)
    ensures !ParseAll(buf).aborted ==> Waiting(ParseAll(buf).rest)
    decreases |buf|
  {
    var p := ParseInput(buf);
    if p.Parsed? && p.msg.typ != NoMsg {
      ParseAllWaits(p.rest);
    } else if p.Parsed? {
      NoMsgIsNothing(buf);
    }
  }

  lemma NoMsgIsNothing(buf: seq<Byte>)
    requires ParseInput(buf).Parsed? && ParseInput(buf).msg.typ == NoMsg
    ensures Waiting(buf)
  {
  }

  /** What may be left between reads: nothing to parse, and at most 9742 bytes. */
  predicate Kept(buf: seq<Byte>) {
    Waiting(buf) && |buf| <= 9742
  }

  /** One read of at most 8192 bytes. */
  lemma OneReadKept(buf: seq<Byte>, chunk: seq<Byte>)
    requires Kept(buf) && |chunk| <= 8192
    ensures !ParseAll(buf + chunk).aborted ==> Kept(ParseAll(buf + chunk).rest)
  {
    hide Waiting, ParseInput;
    var all := buf + chunk;
    ParseAllWaits(all);
    if chunk == [] {
      assert all == buf;
    } else if |buf| > MAX_MESSAGE_LEN {
      OverlongFlushed(buf, chunk);
    }
  }

  /** Between reads of at most 8192 bytes the buffer never holds more than 9742 bytes. */
  lemma {:induction false} BufferBound(buf: seq<Byte>, chunks: seq<seq<Byte>>)
    requires Kept(buf)
    requires forall i :: 0 <= i < |chunks| ==> |chunks[i]| <= 8192
    ensures !Feed(buf, chunks).aborted ==> Kept(Feed(buf, chunks).rest)
    decreases |chunks|
  {
    hide Kept, ParseAll;
    if chunks != [] {
      OneReadKept(buf, chunks[0]);
      var d := ParseAll(buf + chunks[0]);
      if !d.aborted {
        BufferBound(d.rest, chunks[1..]);
      }
    }
  }

  lemma LongBody(buf: seq<Byte>, etx: bool)
    requires buf != [] && buf[0] == STX
    requires forall j :: 0 < j < |buf| - 1 ==> buf[j] == 65
    requires |buf| > 1 && buf[|buf| - 1] == if etx then ETX else 65
    requires etx || |buf| <= MAX_MESSAGE_LEN
    ensures Waiting(buf)
  {
    hide ParseInput;
    InfoAtFront(buf);
    assert FindAny(buf, {ETX}) == if etx then |buf| - 1 else |buf|;
  }

  lemma WaitingIsKept(buf: seq<Byte>)
    requires Waiting(buf)
    ensures ParseAll(buf) == Drained([], buf, false)
  {
  }

  /** The bound is met: an unfinished message followed by a full read that ends in ETX. */
  lemma BufferBoundTight()
    ensures exists chunks: seq<seq<Byte>> ::
              && (forall i :: 0 <= i < |chunks| ==> |chunks[i]| <= 8192)
              && !Feed([], chunks).aborted && |Feed([], chunks).rest| == 9742
  {
    hide ParseInput, ParseAll, Waiting, Feed;
    var a, b := LongReads();
    WaitingIsKept(a);
    WaitingIsKept(a + b);
    TwoReads(a, b);
    var chunks := [a, b];
    assert forall i :: 0 <= i < |chunks| ==> |chunks[i]| <= 8192;
  }

  lemma LongReads() returns (a: seq<Byte>, b: seq<Byte>)
    ensures |a| == MAX_MESSAGE_LEN && |b| == RAW_READ_BUFFER_SIZE && Waiting(a) && Waiting(a + b)
  {
    hide ParseInput, Waiting;
    a := [STX] + seq(MAX_MESSAGE_LEN - 1, _ => 65);
    b := seq(RAW_READ_BUFFER_SIZE - 1, _ => 65) + [ETX];
    LongBody(a, false);
    LongBody(a + b, true);
  }

  lemma TwoReads(a: seq<Byte>, b: seq<Byte>)
    requires ParseAll(a) == Drained([], a, false) && ParseAll(a + b) == Drained([], a + b, false)
    ensures Feed([], [a, b]) == Drained([], a + b, false)
  {
    hide ParseAll;
    assert [] + a == a;
    assert [a, b][1..] == [b];
    assert [b][1..] == [];
    assert Feed(a, [b]) == Drained([], a + b, false);
  }
}
