/**
 The serial path of one TCP handler: packets are SLIP-encoded and queued, one asynchronous write
 is under way at a time (udptoserial/Tcp_server_handler.cpp), and at the far end each read takes
 at most one packet off the receive buffer (`serial_read_handler` in udptoserial/main.cpp).
 */
module SerialPath {
  import opened Bytes
  import Slip

  const READ_BUFFER_SIZE := 8192

  /** The size of `struct ip_hdr`. */
  const IP_HEADER_SIZE := 20

  /** `ip_bytevector_validate`: the header test behind the size test always succeeds. */
  predicate Valid(p: seq<Byte>) {
    |p| >= IP_HEADER_SIZE
  }

  function ValidOnly(ps: seq<seq<Byte>>): seq<seq<Byte>> {
    if ps == [] then [] else (if Valid(ps[0]) then [ps[0]] else []) + ValidOnly(ps[1..])
  }

  /* ---------- sender ---------- */

  /** The send queue and the number of asynchronous writes that have not completed. */
  datatype Sender = Sender(queue: seq<seq<Byte>>, writes: nat)

  function StartSend(s: Sender): Sender {
    s.(writes := s.writes + 1)
  }

  function QueueMessage(s: Sender, m: seq<Byte>): Sender {
    var t := s.(queue := s.queue + [m]);
    if s.queue == [] then StartSend(t) else t
  }

  /** A completed write: on success the next one starts; on an error nothing does. */
  function SendDone(s: Sender, error: bool): Sender
    requires s.writes > 0 && s.queue != []
  {
    var t := s.(writes := s.writes - 1);
    if error then t
    else
      var u := t.(queue := s.queue[1..]);
      if u.queue != [] then StartSend(u) else u
  }

  class TcpServerHandler {
    var sendPacketQueue: seq<seq<Byte>>
    var pendingWrites: nat

    ghost function View(): Sender
      reads this
    {
      Sender(sendPacketQueue, pendingWrites)
    }

    constructor ()
      ensures View() == Sender([], 0)
    {
      sendPacketQueue, pendingWrites := [], 0;
    }

    /** Appending the literal "\\0" to the front element appends nothing. */
    method StartPacketSend()
      requires sendPacketQueue != []
      modifies this
      ensures View() == StartSend(old(View()))
    {
      pendingWrites := pendingWrites + 1;
    }

    method Enqueue(message: seq<Byte>)
      modifies this
      ensures View() == QueueMessage(old(View()), message)
    {
      var writeInProgress := sendPacketQueue != [];
      sendPacketQueue := sendPacketQueue + [message];
      if !writeInProgress {
        StartPacketSend();
      }
    }

    method SendPacket(packet: seq<Byte>)
      modifies this
      ensures View() == QueueMessage(old(View()), Slip.Encode(packet, true))
    {
      var dest, n := Slip.SlipEncode([], packet, true);
      assert [] + Slip.Encode(packet, true) == Slip.Encode(packet, true);
      Enqueue(dest);
    }

    method PacketSendDone(error: bool)
      requires pendingWrites > 0 && sendPacketQueue != []
      modifies this
      ensures View() == SendDone(old(View()), error)
    {
      pendingWrites := pendingWrites - 1;
      if !error {
        sendPacketQueue := sendPacketQueue[1..];
        if sendPacketQueue != [] {
          StartPacketSend();
        }
      }
    }
  }

  /* ---------- receiver ---------- */

  /** The receive buffer, and every frame decoded from it so far. */
  datatype Receiver = Receiver(buf: seq<Byte>, frames: seq<seq<Byte>>)

  /** One read: append, decode at most one frame, erase it. */
  function Read(r: Receiver, chunk: seq<Byte>): Receiver {
    var buf := r.buf + chunk;
    match Slip.Decode(buf, false)
    case Packet(n, data) => Receiver(buf[n..], r.frames + [data])
    case _ => Receiver(buf, r.frames)
  }

  class SerialReader {
    var unprocessed: seq<Byte>
    ghost var frames: seq<seq<Byte>>
    var accepted: seq<seq<Byte>>    // the frames that passed validation

    ghost predicate Consistent()
      reads this
    {
      accepted == ValidOnly(frames)
    }

    constructor ()
      ensures Consistent() && unprocessed == [] && frames == []
    {
      unprocessed, frames, accepted := [], [], [];
    }

    method SerialReadHandler(chunk: seq<Byte>)
      requires Consistent()
      modifies this
      ensures Consistent()
      ensures Receiver(unprocessed, frames) == Read(Receiver(old(unprocessed), old(frames)), chunk)
      ensures accepted == old(accepted) + if |frames| > |old(frames)| && |frames[|frames| - 1]| >= 20
                                          then [frames[|frames| - 1]] else []
    {
      unprocessed := unprocessed + chunk;
      var r := Slip.SlipDecode([], unprocessed, false);
      if r.Some? && r.value.1 > 0 {
        var (slipMsg, bytesDecoded) := r.value;
        ghost var data := Slip.Decode(unprocessed, false).data;
        assert [] + data == data;
        ValidOne(slipMsg);
        unprocessed := unprocessed[bytesDecoded..];
        ValidAppend(frames, [slipMsg]);
        frames := frames + [slipMsg];
        if |slipMsg| >= IP_HEADER_SIZE {
          accepted := accepted + [slipMsg];
        }
      }
    }
  }

  lemma ValidOne(p: seq<Byte>)
    ensures ValidOnly([p]) == if Valid(p) then [p] else []
  {
  }

  lemma {:induction false} ValidAppend(a: seq<seq<Byte>>, b: seq<seq<Byte>>)
    ensures ValidOnly(a + b) == ValidOnly(a) + ValidOnly(b)
    decreases |a|
  {
    if a == [] {
      assert a + b == b;
    } else {
      assert (a + b)[1..] == a[1..] + b;
      ValidAppend(a[1..], b);
    }
  }

  /**
   Incremental receive: however the bytes are cut into reads, the frames taken so far, followed
   by a full drain of the buffer, are a full drain of everything received.
   */
  ghost predicate Received(r: Receiver, all: seq<Byte>) {
    && r.frames + Slip.Drain(r.buf, false).packets == Slip.Drain(all, false).packets
    && Slip.Drain(r.buf, false).rest == Slip.Drain(all, false).rest
  }

  lemma {:induction false} NeverViolated(src: seq<Byte>)
    ensures !Slip.Drain(src, false).violated
    decreases |src|
  {
    var d := Slip.Decode(src, false);
    if d.Packet? {
      NeverViolated(src[d.count..]);
    }
  }

  lemma ReadKeeps(r: Receiver, all: seq<Byte>, chunk: seq<Byte>)
    requires Received(r, all)
    ensures Received(Read(r, chunk), all + chunk)
  {
    hide Slip.Decode;
    NeverViolated(all);
    NeverViolated(r.buf);
    Slip.DrainAppend(all, chunk, false);
    Slip.DrainAppend(r.buf, chunk, false);
    var buf := r.buf + chunk;
    var da, db := Slip.Drain(r.buf, false), Slip.Drain(Slip.Drain(all, false).rest + chunk, false);
    Assoc(r.frames, da.packets, db.packets);
    assert r.frames + Slip.Drain(buf, false).packets == Slip.Drain(all + chunk, false).packets;
    var d := Slip.Decode(buf, false);
    if d.Packet? {
      Assoc(r.frames, [d.data], Slip.Drain(buf[d.count..], false).packets);
    }
  }

  lemma ReceivedNothing()
    ensures Received(Receiver([], []), [])
  {
  }

  function ReadAll(r: Receiver, chunks: seq<seq<Byte>>): Receiver
    decreases |chunks|
  {
    if chunks == [] then r else ReadAll(Read(r, chunks[0]), chunks[1..])
  }

  lemma {:induction false} IncrementalReceive(r: Receiver, all: seq<Byte>, chunks: seq<seq<Byte>>)
    requires Received(r, all)
    ensures Received(ReadAll(r, chunks), all + Flatten(chunks))
    decreases |chunks|
  {
    hide Received, Read;
    if chunks == [] {
      assert all + Flatten(chunks) == all;
    } else {
      ReadKeeps(r, all, chunks[0]);
      IncrementalReceive(Read(r, chunks[0]), all + chunks[0], chunks[1..]);
      Assoc(all, chunks[0], Flatten(chunks[1..]));
    }
  }

  /** ... so that packets encoded in any way and cut in any way come out in order. */
  lemma ChunkedRoundTrip(ps: seq<Slip.Sent>, chunks: seq<seq<Byte>>)
    requires Flatten(chunks) == Slip.Stream(ps)
    ensures
      var r := ReadAll(Receiver([], []), chunks);
      Slip.NonEmpty(r.frames + Slip.Drain(r.buf, false).packets) == Slip.NonEmpty(Slip.Packets(ps))
  {
    hide Slip.Drain, Slip.Stream, ReadAll;
    ReceivedNothing();
    IncrementalReceive(Receiver([], []), [], chunks);
    assert [] + Flatten(chunks) == Slip.Stream(ps);
    Slip.StreamRoundTrip(ps, false);
  }

  /* ---------- the whole path ---------- */

  datatype Path = Path(
    sender: Sender,
    progress: nat,            // bytes of the front message already on the wire
    wire: seq<Byte>,
    receiver: Receiver,
    queued: seq<seq<Byte>>,   // every packet given to the handler
    written: seq<Byte>,       // every byte ever put on the wire
    taken: seq<Byte>,         // every byte ever read from it
    failed: bool)             // a write has completed with an error

  datatype Event =
    | Queue(packet: seq<Byte>)
    | Write(n: nat)           // the driver moves up to `n` bytes of the current write
    | Done                    // the current write completes
    | Fail                    // the current write completes with an error
    | Receive(n: nat)         // the far end reads up to `n` bytes

  const SILENT := Path(Sender([], 0), 0, [], Receiver([], []), [], [], [], false)

  function Min(a: nat, b: nat): nat {
    if a < b then a else b
  }

  function Next(s: Path, e: Event): Path {
    match e
    case Queue(p) => s.(sender := QueueMessage(s.sender, Slip.Encode(p, true)), queued := s.queued + [p])
    case Write(n) =>
      if s.sender.writes == 0 || s.sender.queue == [] || s.progress > |s.sender.queue[0]| then s
      else
        var front := s.sender.queue[0];
        var k := Min(s.progress + n, |front|);
        var bytes := front[s.progress..k];
        s.(progress := k, wire := s.wire + bytes, written := s.written + bytes)
    case Done =>
      if s.sender.writes == 0 || s.sender.queue == [] || s.progress != |s.sender.queue[0]| then s
      else s.(sender := SendDone(s.sender, false), progress := 0)
    case Fail =>
      if s.sender.writes == 0 || s.sender.queue == [] then s
      else s.(sender := SendDone(s.sender, true), failed := true)
    case Receive(n) =>
      var k := Min(Min(n, READ_BUFFER_SIZE), |s.wire|);
      s.(wire := s.wire[k..], taken := s.taken + s.wire[..k], receiver := Read(s.receiver, s.wire[..k]))
  }

  function Play(s: Path, events: seq<Event>): Path
    decreases |events|
  {
    if events == [] then s else Play(Next(s, events[0]), events[1..])
  }

  function Encoded(ps: seq<seq<Byte>>): seq<seq<Byte>> {
    seq(|ps|, i requires 0 <= i < |ps| => Slip.Encode(ps[i], true))
  }

  function Introduced(ps: seq<seq<Byte>>): seq<Slip.Sent> {
    seq(|ps|, i requires 0 <= i < |ps| => Slip.Sent(ps[i], true))
  }

  /** How many packets have been written completely and acknowledged by the driver. */
  function Finished(s: Path): int {
    |s.queued| - |s.sender.queue|
  }

  predicate Writing(s: Path) {
    && s.sender.writes == (if s.failed || s.sender.queue == [] then 0 else 1)
    && (s.failed ==> s.sender.queue != [])
    && (s.sender.queue == [] ==> s.progress == 0)
    && (s.sender.queue != [] ==> s.progress <= |s.sender.queue[0]|)
  }

  predicate Sending(s: Path) {
    && Finished(s) >= 0
    && s.sender.queue == Encoded(s.queued[Finished(s)..])
    && s.written == Slip.Stream(Introduced(s.queued[..Finished(s)]))
                    + (if s.sender.queue == [] then [] else s.sender.queue[0][..Min(s.progress, |s.sender.queue[0]|)])
  }

  ghost predicate Inv(s: Path) {
    && Writing(s) && Sending(s)
    && s.written == s.taken + s.wire
    && Received(s.receiver, s.taken)
  }

  lemma {:induction false} StreamAppend(a: seq<Slip.Sent>, b: seq<Slip.Sent>)
    ensures Slip.Stream(a + b) == Slip.Stream(a) + Slip.Stream(b)
    decreases |a|
  {
    if a == [] {
      assert a + b == b;
    } else {
      assert (a + b)[1..] == a[1..] + b;
      StreamAppend(a[1..], b);
      Assoc(Slip.Encode(a[0].packet, a[0].introduced), Slip.Stream(a[1..]), Slip.Stream(b));
    }
  }

  lemma OneMore(ps: seq<seq<Byte>>, p: seq<Byte>)
    ensures Slip.Stream(Introduced(ps + [p])) == Slip.Stream(Introduced(ps)) + Slip.Encode(p, true)
  {
    assert Introduced(ps + [p]) == Introduced(ps) + [Slip.Sent(p, true)];
    StreamAppend(Introduced(ps), [Slip.Sent(p, true)]);
    assert Slip.Stream([Slip.Sent(p, true)]) == Slip.Encode(p, true) + [];
  }

  lemma KeepQueue(s: Path, p: seq<Byte>)
    requires Inv(s)
    ensures Inv(Next(s, Queue(p)))
  {
    hide Received, Slip.Encode, Slip.Stream;
    var t := Next(s, Queue(p));
    var k := Finished(s);
    assert Finished(t) == k;
    assert t.queued[..k] == s.queued[..k];
    assert t.queued[k..] == s.queued[k..] + [p];
    assert Encoded(s.queued[k..] + [p]) == Encoded(s.queued[k..]) + [Slip.Encode(p, true)];
  }

  lemma KeepWrite(s: Path, n: nat)
    requires Inv(s)
    ensures Inv(Next(s, Write(n)))
  {
    hide Received, Slip.Encode, Slip.Stream;
    if s.sender.writes != 0 {
      var t := Next(s, Write(n));
      var front := s.sender.queue[0];
      var bytes := front[s.progress..t.progress];
      assert front[..s.progress] + bytes == front[..t.progress];
      Assoc(Slip.Stream(Introduced(s.queued[..Finished(s)])), front[..s.progress], bytes);
      Assoc(s.taken, s.wire, bytes);
    }
  }

  lemma KeepDone(s: Path)
    requires Inv(s)
    ensures Inv(Next(s, Done))
  {
    hide Received, Slip.Encode, Slip.Stream;
    var t := Next(s, Done);
    if t != s {
      var k := Finished(s);
      assert Finished(t) == k + 1;
      assert s.queued[k..][0] == s.queued[k];
      assert s.sender.queue[0] == Slip.Encode(s.queued[k], true);
      assert s.queued[..k + 1] == s.queued[..k] + [s.queued[k]];
      OneMore(s.queued[..k], s.queued[k]);
      assert s.queued[k..][1..] == s.queued[k + 1..];
      assert Encoded(s.queued[k..])[1..] == Encoded(s.queued[k..][1..]);
      var whole := Slip.Stream(Introduced(s.queued[..k + 1]));
      assert s.sender.queue[0][..s.progress] == s.sender.queue[0];
      assert whole + [] == whole;
      if t.sender.queue != [] {
        assert t.sender.queue[0][..0] == [];
      }
    }
  }

  lemma KeepReceive(s: Path, n: nat)
    requires Inv(s)
    ensures Inv(Next(s, Receive(n)))
  {
    hide Received, Slip.Stream, Slip.Encode, Read;
    var k := Min(Min(n, READ_BUFFER_SIZE), |s.wire|);
    ReadKeeps(s.receiver, s.taken, s.wire[..k]);
    assert s.wire[..k] + s.wire[k..] == s.wire;
    Assoc(s.taken, s.wire[..k], s.wire[k..]);
  }

  lemma Keep(s: Path, e: Event)
    requires Inv(s)
    ensures Inv(Next(s, e))
  {
    match e
    case Queue(p) => KeepQueue(s, p);
    case Write(n) => KeepWrite(s, n);
    case Done => KeepDone(s);
    case Fail => hide Received, Slip.Stream, Slip.Encode;
    case Receive(n) => KeepReceive(s, n);
  }

  lemma {:induction false} PlayKeeps(s: Path, events: seq<Event>)
    requires Inv(s)
    ensures Inv(Play(s, events))
    decreases |events|
  {
    hide Inv, Next;
    if events != [] {
      Keep(s, events[0]);
      PlayKeeps(Next(s, events[0]), events[1..]);
    }
  }

  lemma SilentHolds()
    ensures Inv(SILENT)
  {
    assert Introduced([]) == [];
    assert Encoded([]) == [];
  }

  /** Exactly one write is outstanding if and only if the queue is non-empty, until an error. */
  lemma OneWriteOutstanding(events: seq<Event>)
    ensures
      var s := Play(SILENT, events);
      && s.sender.writes <= 1
      && (!s.failed ==> (s.sender.writes == 1 <==> s.sender.queue != []))
      && (s.failed ==> s.sender.writes == 0 && s.sender.queue != [])
  {
    SilentHolds();
    PlayKeeps(SILENT, events);
  }

  /** After an error the handler never writes again, whatever is queued. */
  lemma {:induction false} SilentAfterError(s: Path, events: seq<Event>)
    requires s.failed && s.sender.writes == 0 && s.sender.queue != []
    ensures
      var t := Play(s, events);
      t.written == s.written && t.failed && t.sender.writes == 0 && s.sender.queue <= t.sender.queue
    decreases |events|
  {
    if events != [] {
      var t := Next(s, events[0]);
      hide Slip.Encode, Read;
      assert t.written == s.written && t.failed && t.sender.writes == 0;
      assert s.sender.queue <= t.sender.queue;
      SilentAfterError(t, events[1..]);
    }
  }

  /* ---------- what arrives ---------- */

  lemma {:induction false} ValidNonEmpty(ps: seq<seq<Byte>>)
    ensures ValidOnly(Slip.NonEmpty(ps)) == ValidOnly(ps)
    decreases |ps|
  {
    if ps != [] {
      ValidNonEmpty(ps[1..]);
      ValidAppend(if ps[0] == [] then [] else [ps[0]], Slip.NonEmpty(ps[1..]));
      if ps[0] != [] {
        assert ValidOnly([ps[0]]) == if Valid(ps[0]) then [ps[0]] else [];
      }
    }
  }

  lemma {:induction false} IntroducedPackets(ps: seq<seq<Byte>>)
    ensures Slip.Packets(Introduced(ps)) == ps
    decreases |ps|
  {
    if ps != [] {
      assert Introduced(ps)[1..] == Introduced(ps[1..]);
      IntroducedPackets(ps[1..]);
    }
  }

  /** All that is written is a front of the stream of all packets queued. */
  lemma WrittenFront(s: Path)
    requires Writing(s) && Sending(s)
    ensures s.written <= Slip.Stream(Introduced(s.queued))
    ensures s.sender.queue == [] ==> s.written == Slip.Stream(Introduced(s.queued))
  {
    hide Slip.Encode, Slip.Stream;
    var k := Finished(s);
    assert s.queued == s.queued[..k] + s.queued[k..];
    assert Introduced(s.queued) == Introduced(s.queued[..k]) + Introduced(s.queued[k..]);
    StreamAppend(Introduced(s.queued[..k]), Introduced(s.queued[k..]));
    var base := Slip.Stream(Introduced(s.queued[..k]));
    if s.sender.queue == [] {
      assert base + [] == base;
      assert s.queued[..k] == s.queued;
    } else {
      var front := s.sender.queue[0];
      var later := Introduced(s.queued[k..]);
      StreamHead(later);
      assert front == Slip.Encode(later[0].packet, true);
      assert front[..s.progress] <= Slip.Stream(later);
    }
  }

  lemma StreamHead(ps: seq<Slip.Sent>)
    requires ps != []
    ensures Slip.Encode(ps[0].packet, ps[0].introduced) <= Slip.Stream(ps)
  {
  }

  /** Frames decoded from a front of a byte stream are a front of those decoded from all of it. */
  lemma DrainFront(a: seq<Byte>, whole: seq<Byte>)
    requires a <= whole
    ensures Slip.Drain(a, false).packets <= Slip.Drain(whole, false).packets
  {
    hide Slip.Drain;
    NeverViolated(a);
    assert whole == a + whole[|a|..];
    Slip.DrainAppend(a, whole[|a|..], false);
  }

  lemma ValidFront(a: seq<seq<Byte>>, b: seq<seq<Byte>>)
    requires a <= b
    ensures ValidOnly(a) <= ValidOnly(b)
  {
    assert b == a + b[|a|..];
    ValidAppend(a, b[|a|..]);
  }

  lemma StreamValid(ps: seq<seq<Byte>>)
    ensures ValidOnly(Slip.Drain(Slip.Stream(Introduced(ps)), false).packets) == ValidOnly(ps)
  {
    hide Slip.Drain, Slip.Stream;
    var d := Slip.Drain(Slip.Stream(Introduced(ps)), false).packets;
    Slip.StreamRoundTrip(Introduced(ps), false);
    IntroducedPackets(ps);
    ValidNonEmpty(d);
    ValidNonEmpty(ps);
  }

  lemma FramesFront(s: Path)
    requires Inv(s)
    ensures ValidOnly(s.receiver.frames) <= ValidOnly(s.queued)
  {
    hide Slip.Drain, Slip.Stream, Sending, Writing;
    var all := Slip.Stream(Introduced(s.queued));
    WrittenFront(s);
    assert s.taken <= s.written;
    DrainFront(s.taken, all);
    assert s.receiver.frames <= Slip.Drain(s.taken, false).packets;
    ValidFront(s.receiver.frames, Slip.Drain(all, false).packets);
    StreamValid(s.queued);
  }

  /**
   End to end: in every run the packets that pass validation at the far end are a front of the
   valid packets queued: nothing is lost, altered, reordered or invented on the way.
   */
  lemma EndToEnd(events: seq<Event>)
    ensures
      var s := Play(SILENT, events);
      ValidOnly(s.receiver.frames) <= ValidOnly(s.queued)
  {
    hide Play, Inv;
    SilentHolds();
    PlayKeeps(SILENT, events);
    FramesFront(Play(SILENT, events));
  }

  /** With nothing left to write or to read off the wire, all of them are there or in the buffer. */
  lemma AllArrived(events: seq<Event>)
    ensures
      var s := Play(SILENT, events);
      s.sender.queue == [] && s.wire == [] ==>
        ValidOnly(s.receiver.frames + Slip.Drain(s.receiver.buf, false).packets) == ValidOnly(s.queued)
  {
    hide Play;
    SilentHolds();
    PlayKeeps(SILENT, events);
    var s := Play(SILENT, events);
    if s.sender.queue == [] && s.wire == [] {
      hide Slip.Stream, Slip.Drain;
      WrittenFront(s);
      assert s.taken + [] == s.taken;
      StreamValid(s.queued);
    }
  }

  /* ---------- how many reads it takes ---------- */

  /** Reads that bring no bytes still take a frame each. */
  function Empties(n: nat): seq<seq<Byte>> {
    seq(n, _ => [])
  }

  lemma {:induction false} EmptyReads(r: Receiver, n: nat)
    ensures
      var left := Slip.Drain(r.buf, false).packets;
      ReadAll(r, Empties(n)).frames == r.frames + left[..Min(n, |left|)]
    decreases n
  {
    hide Slip.Decode;
    var left := Slip.Drain(r.buf, false).packets;
    if n == 0 {
      assert left[..0] == [] && r.frames + [] == r.frames;
    } else {
      assert Empties(n)[0] == [] && Empties(n)[1..] == Empties(n - 1);
      assert r.buf + [] == r.buf;
      var next := Read(r, []);
      EmptyReads(next, n - 1);
      var d := Slip.Decode(r.buf, false);
      if d.Packet? {
        var later := Slip.Drain(r.buf[d.count..], false).packets;
        assert left == [d.data] + later;
        assert left[..Min(n, |left|)] == [d.data] + later[..Min(n - 1, |later|)];
        Assoc(r.frames, [d.data], later[..Min(n - 1, |later|)]);
      }
    }
  }

  lemma {:induction false} OneFramePerRead(r: Receiver, chunks: seq<seq<Byte>>)
    ensures |ReadAll(r, chunks).frames| <= |r.frames| + |chunks|
    decreases |chunks|
  {
    if chunks != [] {
      OneFramePerRead(Read(r, chunks[0]), chunks[1..]);
    }
  }

  predicate AllValid(ps: seq<seq<Byte>>) {
    forall i :: 0 <= i < |ps| ==> Valid(ps[i])
  }

  /** Every introduced packet behind another one costs an empty frame; the last frame is a packet. */
  lemma {:induction false} FrameCount(ps: seq<seq<Byte>>, lead: bool)
    requires ps != [] && AllValid(ps)
    ensures
      var f := Slip.Received(Introduced(ps), lead);
      |f| == 2 * |ps| - (if lead then 0 else 1) && f != [] && Valid(f[|f| - 1])
    decreases |ps|
  {
    assert Introduced(ps)[1..] == Introduced(ps[1..]);
    assert Valid(ps[0]);
    if |ps| > 1 {
      FrameCount(ps[1..], true);
    } else {
      assert ps[1..] == [] && Introduced([]) == [];
    }
  }

  lemma {:induction false} ValidAll(ps: seq<seq<Byte>>)
    requires AllValid(ps)
    ensures ValidOnly(ps) == ps
    decreases |ps|
  {
    if ps != [] {
      ValidAll(ps[1..]);
    }
  }

  /** A front of the frames holds all valid ones only if it is the whole, the last one being valid. */
  lemma ValidShort(f: seq<seq<Byte>>, j: nat)
    requires f != [] && Valid(f[|f| - 1]) && j <= |f|
    ensures ValidOnly(f[..j]) == ValidOnly(f) <==> j == |f|
  {
    hide ValidOnly;
    if j < |f| {
      var n := |f| - 1;
      var a, b, c := f[..j], f[j..n], [f[n]];
      assert f == a + b + c;
      ValidAppend(a, b);
      ValidAppend(a + b, c);
      ValidOne(f[n]);
      assert |ValidOnly(f)| == |ValidOnly(a)| + |ValidOnly(b)| + 1;
    } else {
      assert f[..j] == f;
    }
  }

  /** The frames taken and those left in the buffer, when all bytes have been read. */
  lemma ReadSoFar(ps: seq<seq<Byte>>, chunks: seq<seq<Byte>>)
    requires Flatten(chunks) == Slip.Stream(Introduced(ps))
    ensures
      var r := ReadAll(Receiver([], []), chunks);
      var f := Slip.Received(Introduced(ps), false);
      r.frames + Slip.Drain(r.buf, false).packets == f && ValidOnly(f) == ValidOnly(ps)
  {
    hide Slip.Drain, Slip.Stream, Slip.Received, ReadAll, Introduced, ValidOnly;
    ReceivedNothing();
    IncrementalReceive(Receiver([], []), [], chunks);
    assert [] + Flatten(chunks) == Flatten(chunks);
    Slip.StreamInverse(Introduced(ps), false, false);
    assert Slip.Lead(false) + Slip.Stream(Introduced(ps)) == Slip.Stream(Introduced(ps));
    StreamValid(ps);
  }

  /**
   The exact number of reads: when all bytes of `n` valid packets have been read in any way, each
   further read takes one more frame, and all packets are out if and only if the frames taken
   before and these reads together make `2 * n - 1`.
   */
  lemma ReadsNeeded(ps: seq<seq<Byte>>, chunks: seq<seq<Byte>>, more: nat)
    requires ps != [] && AllValid(ps) && Flatten(chunks) == Slip.Stream(Introduced(ps))
    ensures
      var r := ReadAll(Receiver([], []), chunks);
      && |r.frames| <= |chunks|
      && |r.frames| + |Slip.Drain(r.buf, false).packets| == 2 * |ps| - 1
      && (ValidOnly(ReadAll(r, Empties(more)).frames) == ps <==> |r.frames| + more >= 2 * |ps| - 1)
  {
    hide Slip.Drain, Slip.Stream, Slip.Received, ReadAll, Read;
    var r := ReadAll(Receiver([], []), chunks);
    var f := Slip.Received(Introduced(ps), false);
    OneFramePerRead(Receiver([], []), chunks);
    ReadSoFar(ps, chunks);
    var left := Slip.Drain(r.buf, false).packets;
    FrameCount(ps, false);
    EmptyReads(r, more);
    var j := |r.frames| + Min(more, |left|);
    assert r.frames + left[..Min(more, |left|)] == f[..j];
    ValidShort(f, j);
    ValidAll(ps);
  }

  /* ---------- which reads are enough ---------- */

  /** How many frames the bytes of the first `j` reads complete. */
  function Complete(chunks: seq<seq<Byte>>, j: nat): nat
    requires j <= |chunks|
  {
    |Slip.Drain(Flatten(chunks[..j]), false).packets|
  }

  /** After every read, the frames complete by then and the reads still to come make `n`. */
  predicate Enough(chunks: seq<seq<Byte>>, n: int) {
    forall j :: 0 <= j <= |chunks| ==> Complete(chunks, j) + |chunks| - j >= n
  }

  lemma {:induction false} ReadAllLast(r: Receiver, chunks: seq<seq<Byte>>, chunk: seq<Byte>)
    ensures ReadAll(r, chunks + [chunk]) == Read(ReadAll(r, chunks), chunk)
    decreases |chunks|
  {
    hide Read;
    if chunks == [] {
      assert chunks + [chunk] == [chunk];
      assert ReadAll(Read(r, chunk), [chunk][1..]) == Read(r, chunk);
    } else {
      assert (chunks + [chunk])[1..] == chunks[1..] + [chunk];
      ReadAllLast(Read(r, chunks[0]), chunks[1..], chunk);
    }
  }

  /** A read takes one more frame, if there is a complete one. */
  lemma ReadTakes(r: Receiver, all: seq<Byte>, chunk: seq<Byte>)
    requires Received(r, all)
    ensures |Read(r, chunk).frames| == Min(|r.frames| + 1, |Slip.Drain(all + chunk, false).packets|)
  {
    hide Slip.Decode;
    ReadKeeps(r, all, chunk);
    NeverViolated(r.buf + chunk);
  }

  /** At least `n` frames have been taken if and only if the reads are enough for `n`. */
  lemma {:induction false} FramesTaken(chunks: seq<seq<Byte>>, n: int)
    ensures |ReadAll(Receiver([], []), chunks).frames| >= n <==> Enough(chunks, n)
    decreases |chunks|
  {
    hide Read, Slip.Drain, Received;
    if chunks == [] {
      ReadNone(chunks);
    } else {
      var k := |chunks| - 1;
      var front, chunk := chunks[..k], chunks[k];
      assert chunks == front + [chunk] && chunks[..|chunks|] == chunks;
      ReceivedNothing();
      IncrementalReceive(Receiver([], []), [], front);
      assert [] + Flatten(front) == Flatten(front);
      ReadAllLast(Receiver([], []), front, chunk);
      ReadTakes(ReadAll(Receiver([], []), front), Flatten(front), chunk);
      FlattenLast(front, chunk);
      FramesTaken(front, n - 1);
      EnoughLast(chunks, n);
    }
  }

  lemma ReadNone(chunks: seq<seq<Byte>>)
    requires chunks == []
    ensures Complete(chunks, 0) == 0
  {
  }

  lemma FlattenLast(front: seq<seq<Byte>>, chunk: seq<Byte>)
    ensures Flatten(front + [chunk]) == Flatten(front) + chunk
  {
    FlattenAppend(front, [chunk]);
    assert Flatten([chunk]) == chunk + [];
  }

  lemma EnoughLast(chunks: seq<seq<Byte>>, n: int)
    requires chunks != []
    ensures Enough(chunks, n) <==> Enough(chunks[..|chunks| - 1], n - 1) && Complete(chunks, |chunks|) >= n
  {
    hide Complete;
    var k := |chunks| - 1;
    var front := chunks[..k];
    forall j | 0 <= j <= k ensures Complete(front, j) == Complete(chunks, j) {
      CompleteFront(chunks, j);
    }
    if Enough(front, n - 1) && Complete(chunks, |chunks|) >= n {
      forall j | 0 <= j <= |chunks| ensures Complete(chunks, j) + |chunks| - j >= n {
        assert j <= k ==> Complete(front, j) + k - j >= n - 1;
      }
    }
    if Enough(chunks, n) {
      forall j | 0 <= j <= k ensures Complete(front, j) + k - j >= n - 1 {
        assert Complete(chunks, j) + |chunks| - j >= n;
      }
    }
  }

  lemma CompleteFront(chunks: seq<seq<Byte>>, j: nat)
    requires j < |chunks|
    ensures Complete(chunks[..|chunks| - 1], j) == Complete(chunks, j)
  {
    assert chunks[..|chunks| - 1][..j] == chunks[..j];
  }

  /** The number of frames up to the last valid one. */
  function LastValid(f: seq<seq<Byte>>): (n: nat)
    ensures n <= |f|
  {
    if f == [] then 0 else if Valid(f[|f| - 1]) then |f| else LastValid(f[..|f| - 1])
  }

  lemma {:induction false} ValidThrough(f: seq<seq<Byte>>, j: nat)
    requires j <= |f|
    ensures ValidOnly(f[..j]) == ValidOnly(f) <==> j >= LastValid(f)
    decreases |f|
  {
    hide ValidOnly, Valid;
    if j == |f| {
      assert f[..j] == f;
    } else if Valid(f[|f| - 1]) {
      ValidShort(f, j);
    } else {
      var n := |f| - 1;
      assert f == f[..n] + [f[n]];
      ValidAppend(f[..n], [f[n]]);
      ValidOne(f[n]);
      assert f[..n][..j] == f[..j];
      ValidThrough(f[..n], j);
    }
  }

  /**
   Exactly which reads bring out all valid packets: any packets, any cuts.  When all packets are
   valid the frames needed are the packets and an empty frame between any two.
   */
  lemma ReadsExactly(ps: seq<seq<Byte>>, chunks: seq<seq<Byte>>)
    requires Flatten(chunks) == Slip.Stream(Introduced(ps))
    ensures
      var needed := LastValid(Slip.Received(Introduced(ps), false));
      && (ValidOnly(ReadAll(Receiver([], []), chunks).frames) == ValidOnly(ps) <==> Enough(chunks, needed))
      && (AllValid(ps) && ps != [] ==> ValidOnly(ps) == ps && needed == 2 * |ps| - 1)
  {
    hide Slip.Drain, Slip.Stream, Slip.Received, ReadAll, Read, Enough, ValidOnly, Introduced, LastValid, Valid;
    var r := ReadAll(Receiver([], []), chunks);
    var f := Slip.Received(Introduced(ps), false);
    ReadSoFar(ps, chunks);
    assert r.frames == f[..|r.frames|];
    ValidThrough(f, |r.frames|);
    FramesTaken(chunks, LastValid(f));
    if AllValid(ps) && ps != [] {
      ValidAll(ps);
      FrameCount(ps, false);
      LastIsValid(f);
    }
  }

  lemma LastIsValid(f: seq<seq<Byte>>)
    requires f != [] && Valid(f[|f| - 1])
    ensures LastValid(f) == |f|
  {
  }

  /** What the far end reads in a run, read by read. */
  function Chunks(s: Path, events: seq<Event>): seq<seq<Byte>>
    decreases |events|
  {
    if events == [] then []
    else
      (if events[0].Receive? then [s.wire[..Min(Min(events[0].n, READ_BUFFER_SIZE), |s.wire|)]] else [])
      + Chunks(Next(s, events[0]), events[1..])
  }

  lemma {:induction false} ChunksAre(s: Path, events: seq<Event>)
    ensures
      var t, chunks := Play(s, events), Chunks(s, events);
      t.receiver == ReadAll(s.receiver, chunks) && t.taken == s.taken + Flatten(chunks)
    decreases |events|
  {
    hide Read, QueueMessage, SendDone, Slip.Encode;
    if events == [] {
      assert s.taken + [] == s.taken;
    } else {
      var next, later := Next(s, events[0]), Chunks(Next(s, events[0]), events[1..]);
      ChunksAre(next, events[1..]);
      if events[0].Receive? {
        var chunk := s.wire[..Min(Min(events[0].n, READ_BUFFER_SIZE), |s.wire|)];
        assert ([chunk] + later)[1..] == later;
        Assoc(s.taken, chunk, Flatten(later));
      } else {
        assert next.receiver == s.receiver && next.taken == s.taken;
        assert [] + later == later;
      }
    }
  }

  lemma {:induction false} ChunksBounded(s: Path, events: seq<Event>)
    ensures forall i :: 0 <= i < |Chunks(s, events)| ==> |Chunks(s, events)[i]| <= 8192
    decreases |events|
  {
    hide Next;
    if events != [] {
      ChunksBounded(Next(s, events[0]), events[1..]);
    }
  }

  /** The same over every run of the whole path with nothing left to write or in flight. */
  lemma PathReadsExactly(events: seq<Event>)
    ensures
      var s := Play(SILENT, events);
      s.sender.queue == [] && s.wire == [] ==>
        (ValidOnly(s.receiver.frames) == ValidOnly(s.queued) <==>
         Enough(Chunks(SILENT, events), LastValid(Slip.Received(Introduced(s.queued), false))))
  {
    hide Play, Chunks, ReadAll, Enough, ValidOnly;
    SilentHolds();
    PlayKeeps(SILENT, events);
    ChunksAre(SILENT, events);
    var s := Play(SILENT, events);
    if s.sender.queue == [] && s.wire == [] {
      hide Slip.Stream, Slip.Drain;
      WrittenFront(s);
      assert s.taken + [] == s.taken;
      assert [] + Flatten(Chunks(SILENT, events)) == Flatten(Chunks(SILENT, events));
      ReadsExactly(s.queued, Chunks(SILENT, events));
    }
  }

  /**
   Two packets whose bytes arrive in one read: nothing is left to write, in flight or to read,
   and yet only the first has come out.
   */
  lemma PacketStaysBehind(p: seq<Byte>, q: seq<Byte>)
    requires Valid(p) && Valid(q)
    requires |Slip.Encode(p, true)| + |Slip.Encode(q, true)| <= READ_BUFFER_SIZE
    ensures
      var a, b := |Slip.Encode(p, true)|, |Slip.Encode(q, true)|;
      var s := Play(SILENT, [Queue(p), Queue(q), Write(a), Done, Write(b), Done, Receive(a + b)]);
      && s.sender.queue == [] && s.wire == [] && !s.failed && s.queued == [p, q]
      && ValidOnly(s.receiver.frames) == [p]
  {
    hide Slip.Encode, Read;
    var x, y := Slip.Encode(p, true), Slip.Encode(q, true);
    var a, b := |x|, |y|;
    var last: seq<seq<Byte>> := [y];
    var s2 := Next(Next(SILENT, Queue(p)), Queue(q));
    assert [] + [x] + [y] == [x, y] && [] + [p] + [q] == [p, q];
    assert s2 == SILENT.(sender := Sender([x, y], 1), queued := [p, q]);
    assert x[0..a] == x && y[0..b] == y && [] + x == x && [x, y][1..] == last && |last[1..]| == 0;
    var s4 := Next(Next(s2, Write(a)), Done);
    assert s4 == s2.(sender := Sender([y], 1), wire := x, written := x);
    var s6 := Next(Next(s4, Write(b)), Done);
    assert s6 == s4.(sender := Sender([], 0), wire := x + y, written := x + y);
    var s7 := Next(s6, Receive(a + b));
    assert (x + y)[..a + b] == x + y && (x + y)[a + b..] == [];
    assert s7.receiver == Read(Receiver([], []), x + y);
    OneReadOnly(p, y);
    PlaySeven(SILENT, Queue(p), Queue(q), Write(a), Done, Write(b), Done, Receive(a + b));
  }

  lemma OneReadOnly(p: seq<Byte>, rest: seq<Byte>)
    requires Valid(p)
    ensures ValidOnly(Read(Receiver([], []), Slip.Encode(p, true) + rest).frames) == [p]
  {
    hide Slip.Decode, Slip.Escape;
    var buf := Slip.Encode(p, true) + rest;
    assert [] + buf == buf == Slip.Frame(true, p, rest);
    Slip.DecodeFrame(true, p, rest, false);
    assert [] + [p] == [p] && [p][1..] == [];
    assert ValidOnly([p]) == [p] + ValidOnly([]) == [p];
  }

  lemma PlaySeven(s: Path, a: Event, b: Event, c: Event, d: Event, e: Event, f: Event, g: Event)
    ensures Play(s, [a, b, c, d, e, f, g]) ==
            Next(Next(Next(Next(Next(Next(Next(s, a), b), c), d), e), f), g)
  {
    hide Next;
    var t := Next(Next(Next(s, a), b), c);
    PlayThree(s, a, b, c, [d, e, f, g]);
    assert [a, b, c] + [d, e, f, g] == [a, b, c, d, e, f, g];
    PlayThree(t, d, e, f, [g]);
    assert [d, e, f] + [g] == [d, e, f, g];
    var u := Next(Next(Next(t, d), e), f);
    assert [g][1..] == [];
    assert Play(u, [g]) == Next(u, g);
  }

  lemma PlayThree(s: Path, a: Event, b: Event, c: Event, more: seq<Event>)
    ensures Play(s, [a, b, c] + more) == Play(Next(Next(Next(s, a), b), c), more)
  {
    hide Next;
    assert ([a, b, c] + more)[1..] == [b, c] + more;
    assert ([b, c] + more)[1..] == [c] + more;
    assert ([c] + more)[1..] == more;
    assert Play(Next(Next(s, a), b), [c] + more) == Play(Next(Next(Next(s, a), b), c), more);
    assert Play(Next(s, a), [b, c] + more) == Play(Next(Next(s, a), b), [c] + more);
  }
}
