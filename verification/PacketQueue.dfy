/**
 The packet queue of udptoserial/queue.c: a doubly linked list on the heap, emptied one packet at
 a time through a send buffer that all sends share.
 */
module PacketQueue {
  import opened Bytes
  import opened PackedMessage
  import opened PackedTheorems
  import Base64

  datatype Packet = Packet(source: Word, dest: Word, data: seq<Byte>)

  /* ---------- the linked list ---------- */

  class Node {
    var source: Word
    var dest: Word
    var data: seq<Byte>
    var next: Node?
    var prev: Node?

    constructor (source: Word, dest: Word, payload: seq<Byte>)
      ensures this.source == source && this.dest == dest && data == payload && next == null && prev == null
    {
      this.source, this.dest, data, next, prev := source, dest, payload, null, null;
    }
  }

  /** The node at a place of the list, or null beyond its ends. */
  ghost function At(nodes: seq<Node>, i: int): Node? {
    if 0 <= i < |nodes| then nodes[i] else null
  }

  /** `nodes` are the nodes from `head` on, with consistent links both ways. */
  ghost predicate Linked(head: Node?, nodes: seq<Node>)
    reads nodes`next, nodes`prev
  {
    && head == At(nodes, 0)
    && (forall i, j :: 0 <= i < j < |nodes| ==> nodes[i] != nodes[j])
    && (forall i :: 0 <= i < |nodes| ==> nodes[i].next == At(nodes, i + 1) && nodes[i].prev == At(nodes, i - 1))
  }

  ghost function Contents(nodes: seq<Node>): (ps: seq<Packet>)
    reads nodes`source, nodes`dest, nodes`data
    ensures |ps| == |nodes|
    ensures forall i :: 0 <= i < |nodes| ==> ps[i] == Packet(nodes[i].source, nodes[i].dest, nodes[i].data)
  {
    if nodes == [] then []
    else [Packet(nodes[0].source, nodes[0].dest, nodes[0].data)] + Contents(nodes[1..])
  }

  method Last(queue: Node?, ghost nodes: seq<Node>) returns (last: Node?)
    requires Linked(queue, nodes)
    ensures last == if nodes == [] then null else nodes[|nodes| - 1]
  {
    if queue == null {
      return null;
    }
    var q := queue;
    ghost var i := 0;
    while q.next != null
      invariant 0 <= i < |nodes| && q == nodes[i]
      decreases |nodes| - i
    {
      assert nodes[i].next == At(nodes, i + 1);
      q := q.next;
      i := i + 1;
    }
    assert nodes[i].next == At(nodes, i + 1);
    last := q;
  }

  /** Link a lone node behind the last one. */
  method LinkLast(queue: Node?, ghost nodes: seq<Node>, node: Node) returns (head: Node?)
    requires Linked(queue, nodes) && node !in nodes && node.next == null && node.prev == null
    modifies nodes`next, node`prev
    ensures Linked(head, nodes + [node])
  {
    ghost var after := nodes + [node];
    if queue != null {
      var last := Last(queue, nodes);
      last.next := node;
      node.prev := last;
      head := queue;
    } else {
      head := node;
    }
    forall i | 0 <= i < |after|
      ensures after[i].next == At(after, i + 1) && after[i].prev == At(after, i - 1)
    {
      if i < |nodes| {
        assert after[i] == nodes[i];
        assert old(nodes[i].next) == At(nodes, i + 1) && old(nodes[i].prev) == At(nodes, i - 1);
      }
    }
  }

  /** A new packet goes to the end; nothing else in the queue changes. */
  method Append(queue: Node?, ghost nodes: seq<Node>, source: Word, dest: Word, payload: seq<Byte>)
    returns (head: Node?, ghost after: seq<Node>)
    requires Linked(queue, nodes)
    modifies nodes`next
    ensures |after| == |nodes| + 1 && after[..|nodes|] == nodes && fresh(after[|nodes|])
    ensures Linked(head, after)
    ensures Contents(after) == old(Contents(nodes)) + [Packet(source, dest, payload)]
  {
    hide Linked;
    var node := new Node(source, dest, payload);
    head := LinkLast(queue, nodes, node);
    after := nodes + [node];
    assert Contents(nodes) == old(Contents(nodes));
    ContentsAppend(nodes, node);
  }

  lemma ContentsAppend(nodes: seq<Node>, node: Node)
    ensures Contents(nodes + [node]) == Contents(nodes) + [Packet(node.source, node.dest, node.data)]
  {
    var a, b := Contents(nodes + [node]), Contents(nodes);
    forall i | 0 <= i < |a| ensures a[i] == (b + [Packet(node.source, node.dest, node.data)])[i] {
      assert (nodes + [node])[i] == if i < |nodes| then nodes[i] else node;
    }
  }

  lemma NoNodes(queue: Node?, nodes: seq<Node>)
    requires Linked(queue, nodes)
    ensures queue == null <==> nodes == []
  {
  }

  /** The first packet is gone; the next node, if any, is the new head. */
  method RemoveFirst(queue: Node?, ghost nodes: seq<Node>) returns (head: Node?, ghost after: seq<Node>)
    requires Linked(queue, nodes)
    modifies nodes`prev
    ensures after == if nodes == [] then [] else nodes[1..]
    ensures Linked(head, after)
    ensures Contents(after) == if nodes == [] then [] else old(Contents(nodes))[1..]
  {
    NoNodes(queue, nodes);
    if queue == null {
      return null, [];
    }
    hide Contents, Linked;
    after := nodes[1..];
    head := UnlinkFirst(queue, nodes);
    ghost var ps, qs := Contents(nodes), Contents(after);
    assert ps == old(Contents(nodes));
    forall i | 0 <= i < |qs| ensures qs[i] == ps[1..][i] {
      assert after[i] == nodes[i + 1];
    }
  }

  /** Take the first node off a non-empty list. */
  method UnlinkFirst(queue: Node?, ghost nodes: seq<Node>) returns (head: Node?)
    requires Linked(queue, nodes) && nodes != []
    modifies nodes`prev
    ensures Linked(head, nodes[1..])
  {
    ghost var after := nodes[1..];
    assert nodes[0].next == At(nodes, 1);
    head := null;
    if queue.next != null {
      head := queue.next;
      head.prev := null;
    }
    forall i | 0 <= i < |after|
      ensures after[i].next == At(after, i + 1) && after[i].prev == At(after, i - 1)
    {
      assert after[i] == nodes[i + 1];
      assert old(nodes[i + 1].next) == At(nodes, i + 2) && old(nodes[i + 1].prev) == At(nodes, i);
    }
  }

  /* ---------- sending ---------- */

  const SENDBUF_SIZE := 70000
  const EMPTY_BUFFER: seq<Byte> := seq(SENDBUF_SIZE, _ => 0)

  function MessageOf(p: Packet): Message {
    Message(true, UDP, p.source, p.dest, |p.data|, Some(p.data), 0)
  }

  /** The send buffer after one packet; `None` when the assertion in `pack_message` fails. */
  function SendOne(buf: seq<Byte>, p: Packet): (b: Option<seq<Byte>>)
    ensures b.Some? ==> |b.value| == |buf|
  {
    match Pack(MessageOf(p), |buf|)
    case Refused => Some(buf)
    case AssertionFailed => None
    case Wrote(text) => Some(text + buf[|text|..])
  }

  class SerialSender {
    const sendbuf: array<Byte>
    var port: seq<Byte>        // every byte sent
    var aborted: bool

    ghost predicate Valid()
      reads this
    {
      sendbuf.Length == SENDBUF_SIZE
    }

    constructor ()
      ensures Valid() && fresh(sendbuf) && port == [] && !aborted
      ensures sendbuf[..] == seq(SENDBUF_SIZE, _ => 0)
    {
      sendbuf := new Byte[SENDBUF_SIZE](_ => 0);
      port, aborted := [], false;
    }

    /** Pack one packet; whatever C string the buffer holds afterwards goes out. */
    method PackAndSend(source: Word, dest: Word, data: seq<Byte>)
      requires Valid() && !aborted
      modifies this, sendbuf
      ensures Valid()
      ensures match SendOne(old(sendbuf[..]), Packet(source, dest, data))
              case None => aborted && port == old(port) && sendbuf[..] == old(sendbuf[..])
              case Some(b) => !aborted && sendbuf[..] == b && port == old(port) + CString(b)
    {
      hide Pack, CString, Unpack;
      var msg := Message(true, UDP, source, dest, |data|, Some(data), 0);
      var r, m := PackMessage(msg, sendbuf);
      if r.AssertionFailed? {
        aborted := true;
        return;
      }
      port := port + CString(sendbuf[..]);
    }

    /** Send the first packet of the queue; `delay` is the decision of the throttling test. */
    method PktQueueSend(queue: Node?, ghost nodes: seq<Node>, delay: bool)
      returns (head: Node?, ghost after: seq<Node>)
      requires Valid() && !aborted && Linked(queue, nodes)
      modifies this, sendbuf, nodes`prev
      ensures Valid() && Linked(head, after)
      ensures nodes == [] || delay ==>
                after == nodes && Contents(after) == old(Contents(nodes)) && !aborted
                && port == old(port) && sendbuf[..] == old(sendbuf[..])
      ensures nodes != [] && !delay ==>
                match SendOne(old(sendbuf[..]), old(Contents(nodes)[0]))
                case None =>
                  && aborted && port == old(port) && sendbuf[..] == old(sendbuf[..])
                  && after == nodes && Contents(after) == old(Contents(nodes))
                case Some(b) =>
                  && after == nodes[1..] && !aborted && sendbuf[..] == b && port == old(port) + CString(b)
                  && Contents(after) == old(Contents(nodes))[1..]
    {
      hide SendOne, CString;
      head, after := queue, nodes;
      if queue == null || delay {
        return;
      }
      assert Contents(nodes)[0] == Packet(queue.source, queue.dest, queue.data);
      PackAndSend(queue.source, queue.dest, queue.data);
      if aborted {
        return;
      }
      head, after := RemoveFirst(queue, nodes);
    }
  }

  /** All packets of a queue in turn: the pieces that go out. */
  function SendAll(buf: seq<Byte>, ps: seq<Packet>): Option<seq<seq<Byte>>>
    decreases |ps|
  {
    if ps == [] then Some([])
    else
      var b := SendOne(buf, ps[0]);
      if b.None? then None
      else
        var later := SendAll(b.value, ps[1..]);
        if later.None? then None else Some([CString(b.value)] + later.value)
  }

  /** The send buffer after all packets of a queue. */
  function BufferAfter(buf: seq<Byte>, ps: seq<Packet>): Option<seq<Byte>>
    decreases |ps|
  {
    if ps == [] then Some(buf)
    else
      var b := SendOne(buf, ps[0]);
      if b.None? then None else BufferAfter(b.value, ps[1..])
  }

  /** One more packet: one more piece, and the buffer it leaves. */
  lemma {:induction false} SendAllNext(buf: seq<Byte>, ps: seq<Packet>, p: Packet)
    requires BufferAfter(buf, ps).Some?
    ensures SendAll(buf, ps).Some? && BufferAfter(buf, ps + [p]) == SendOne(BufferAfter(buf, ps).value, p)
    ensures
      var b := SendOne(BufferAfter(buf, ps).value, p);
      b.Some? ==> SendAll(buf, ps + [p]) == Some(SendAll(buf, ps).value + [CString(b.value)])
    decreases |ps|
  {
    hide SendOne, CString;
    if ps == [] {
      assert ps + [p] == [p] && [p][1..] == [];
      var b := SendOne(buf, p);
      if b.Some? {
        assert BufferAfter(b.value, []) == Some(b.value);
        assert SendAll(b.value, []) == Some([]);
        assert [CString(b.value)] + [] == [] + [CString(b.value)];
      }
    } else {
      assert (ps + [p])[1..] == ps[1..] + [p];
      var c := SendOne(buf, ps[0]).value;
      SendAllNext(c, ps[1..], p);
      var b := SendOne(BufferAfter(buf, ps).value, p);
      if b.Some? {
        Assoc([CString(c)], SendAll(c, ps[1..]).value, [CString(b.value)]);
      }
    }
  }

  lemma FlattenNext(pieces: seq<seq<Byte>>, piece: seq<Byte>)
    ensures Flatten(pieces + [piece]) == Flatten(pieces) + piece
  {
    FlattenAppend(pieces, [piece]);
    assert [piece][1..] == [];
    assert Flatten([piece]) == piece + [];
  }

  /* ---------- the main loop ---------- */

  /** The queue and the sender of the main loop, with what has been put in and taken out so far. */
  class PacketLine {
    var queue: Node?
    const sender: SerialSender
    ghost var nodes: seq<Node>
    ghost var appended: seq<Packet>
    ghost var taken: seq<Packet>

    /**
     The packets sent, then those in the linked list, are all packets appended; and the bytes
     sent are the pieces of the packets sent, in order.
     */
    ghost predicate Valid()
      reads this, nodes, sender, sender.sendbuf
    {
      && sender.Valid() && Linked(queue, nodes)
      && taken + Contents(nodes) == appended
      && BufferAfter(EMPTY_BUFFER, taken) == Some(sender.sendbuf[..])
      && SendAll(EMPTY_BUFFER, taken).Some?
      && sender.port == Flatten(SendAll(EMPTY_BUFFER, taken).value)
    }

    constructor ()
      ensures Valid() && appended == [] && taken == [] && nodes == []
      ensures fresh(sender) && fresh(sender.sendbuf) && !sender.aborted
    {
      queue, nodes, appended, taken := null, [], [], [];
      sender := new SerialSender();
    }

    method Put(p: Packet)
      requires Valid()
      modifies this, nodes
      ensures Valid() && appended == old(appended) + [p] && taken == old(taken)
      ensures |nodes| == |old(nodes)| + 1 && nodes[..|old(nodes)|] == old(nodes) && fresh(nodes[|old(nodes)|])
    {
      hide Linked, Contents, BufferAfter, SendAll, Flatten;
      queue, nodes := Append(queue, nodes, p.source, p.dest, p.data);
      appended := appended + [p];
      Assoc(taken, old(Contents(nodes)), [p]);
    }

    /** One turn of the loop on a non-empty queue. */
    method SendFirst(delay: bool)
      requires Valid() && !sender.aborted && nodes != []
      modifies this, nodes, sender, sender.sendbuf
      ensures Valid() && appended == old(appended)
      ensures
        var first := old(Contents(nodes)[0]);
        if delay then !sender.aborted && taken == old(taken) && nodes == old(nodes)
        else if SendOne(old(sender.sendbuf[..]), first).None? then
          && sender.aborted && taken == old(taken) && nodes == old(nodes)
          && Contents(nodes)[0] == first && sender.sendbuf[..] == old(sender.sendbuf[..])
        else !sender.aborted && taken == old(taken) + [first] && nodes == old(nodes)[1..]
    {
      hide Linked, Contents, BufferAfter, SendAll, Flatten, SendOne, CString;
      ghost var ps := Contents(nodes);
      ghost var pieces := SendAll(EMPTY_BUFFER, taken).value;
      queue, nodes := sender.PktQueueSend(queue, nodes, delay);
      if !delay && !sender.aborted {
        SendAllNext(EMPTY_BUFFER, taken, ps[0]);
        FlattenNext(pieces, CString(sender.sendbuf[..]));
        assert taken + ps == taken + [ps[0]] + ps[1..];
        taken := taken + [ps[0]];
      }
    }

    lemma NotNull()
      requires Valid()
      ensures queue != null <==> nodes != []
    {
    }

    lemma Balance()
      requires Valid()
      ensures taken + Contents(nodes) == appended
      ensures SendAll(EMPTY_BUFFER, taken).Some? && sender.port == Flatten(SendAll(EMPTY_BUFFER, taken).value)
      ensures |sender.sendbuf[..]| == SENDBUF_SIZE
    {
    }
  }

  datatype Event = Arrives(packet: Packet) | Turn(delay: bool)

  function Arrivals(events: seq<Event>): seq<Packet> {
    if events == [] then []
    else
      var e := events[|events| - 1];
      Arrivals(events[..|events| - 1]) + if e.Arrives? then [e.packet] else []
  }

  /** The largest payload that the sockets hand over. */
  const MAX_DATAGRAM := 1500

  /** Packets as the one caller queues them: never empty, and within its read buffer. */
  predicate FromSockets(events: seq<Event>) {
    forall i :: 0 <= i < |events| && events[i].Arrives? ==> 1 <= |events[i].packet.data| <= MAX_DATAGRAM
  }

  lemma {:induction false} SocketArrivals(events: seq<Event>)
    requires FromSockets(events)
    ensures forall i :: 0 <= i < |Arrivals(events)| ==> 1 <= |Arrivals(events)[i].data| <= MAX_DATAGRAM
  {
    if events != [] {
      SocketArrivals(events[..|events| - 1]);
    }
  }

  lemma SocketsSized(events: seq<Event>, done: nat, taken: seq<Packet>, rest: seq<Packet>)
    requires FromSockets(events) && done <= |events| && taken + rest == Arrivals(events[..done])
    ensures Sized(taken) && EmptiesFirst(taken) && WithData(taken) == taken
    ensures rest != [] ==> |rest[0].data| <= MAX_DATAGRAM
  {
    hide Arrivals;
    var all := Arrivals(events[..done]);
    SocketArrivals(events[..done]);
    assert forall i :: 0 <= i < |taken| ==> taken[i] == all[i];
    assert rest != [] ==> rest[0] == all[|taken|];
    AllWithData(taken);
  }

  lemma {:induction false} AllWithData(ps: seq<Packet>)
    requires forall i :: 0 <= i < |ps| ==> ps[i].data != []
    ensures WithData(ps) == ps
    decreases |ps|
  {
    if ps != [] {
      AllWithData(ps[1..]);
    }
  }

  /** How many packets go out: a turn that is not delayed takes one if there is one. */
  function Departures(events: seq<Event>): (n: nat)
    ensures n <= |Arrivals(events)|
  {
    if events == [] then 0
    else
      var e, before := events[|events| - 1], events[..|events| - 1];
      var n := Departures(before);
      if e == Turn(false) && n < |Arrivals(before)| then n + 1 else n
  }

  /**
   Every run of the loop: packets arrive and turns are taken, delayed or not, until the events
   are used up or the assertion fails on the packet at the front.
   */
  method MainLoop(events: seq<Event>)
    returns (done: nat, port: seq<Byte>, aborted: bool, ghost taken: seq<Packet>, ghost rest: seq<Packet>)
    ensures if aborted then done < |events| && events[done] == Turn(false) else done == |events|
    ensures taken + rest == Arrivals(events[..done]) && |taken| == Departures(events[..done])
    ensures SendAll(EMPTY_BUFFER, taken).Some? && port == Flatten(SendAll(EMPTY_BUFFER, taken).value)
    ensures aborted ==> rest != [] && |rest[0].data| >= 52483
    ensures UnpackAll(port) == Expected(taken, [])
    ensures FromSockets(events) ==> !aborted && Carried(UnpackAll(port), taken)
  {
    hide PacketLine.Valid, Contents, Arrivals, Departures, SendAll, Flatten, SendOne, UnpackAll, Expected;
    hide FromSockets, WithData, Carried, Sized, EmptiesFirst;
    var line := new PacketLine();
    done, aborted := 0, false;
    EventsNone(events);
    while done < |events| && !aborted
      invariant done <= |events|
      invariant line.Valid() && fresh(line) && fresh(line.sender) && fresh(line.sender.sendbuf)
      invariant forall i :: 0 <= i < |line.nodes| ==> fresh(line.nodes[i])
      invariant aborted == line.sender.aborted
      invariant line.appended == Arrivals(events[..done]) && |line.taken| == Departures(events[..done])
      invariant aborted ==> done < |events| && events[done] == Turn(false)
      invariant aborted ==> line.nodes != [] && SendOne(line.sender.sendbuf[..], Contents(line.nodes)[0]).None?
      decreases |events| - done, if aborted then 0 else 1
    {
      EventsNext(events, done);
      line.Balance();
      match events[done] {
        case Arrives(p) =>
          line.Put(p);
        case Turn(delay) =>
          line.NotNull();
          if line.queue != null {
            line.SendFirst(delay);
            aborted := line.sender.aborted;
          }
      }
      if !aborted {
        done := done + 1;
      }
    }
    line.Balance();
    taken, rest := line.taken, Contents(line.nodes);
    port := line.sender.port;
    QueueToWire(taken);
    if aborted {
      AssertionExactly(line.sender.sendbuf[..], rest[0]);
    }
    if FromSockets(events) {
      SocketsSized(events, done, taken, rest);
      WireIsQueue(taken);
    }
  }

  lemma EventsNone(events: seq<Event>)
    ensures Arrivals(events[..0]) == [] && Departures(events[..0]) == 0
  {
  }

  lemma EventsNext(events: seq<Event>, i: nat)
    requires i < |events|
    ensures
      var before, after, e := events[..i], events[..i + 1], events[i];
      && Arrivals(after) == Arrivals(before) + (if e.Arrives? then [e.packet] else [])
      && Departures(after) == Departures(before) +
         if e == Turn(false) && Departures(before) < |Arrivals(before)| then 1 else 0
  {
    assert events[..i + 1][..i] == events[..i];
  }

  /* ---------- what the far end unpacks ---------- */

  /** A piece that yields `ms`: nothing at all, or a frame followed by bytes without a '['. */
  ghost predicate PieceIs(piece: seq<Byte>, ms: seq<Message>) {
    || (piece == [] && ms == [])
    || (exists body, tail :: PieceParts(piece, ms, body, tail))
  }

  ghost predicate PieceParts(piece: seq<Byte>, ms: seq<Message>, body: seq<Byte>, tail: seq<Byte>) {
    && piece == body + tail && IsFrame(body) && START_OF_HEADER !in tail
    && ms == if Check(BLANK, body).valid then [Check(BLANK, body)] else []
  }

  /** In the shared buffer a '[' stands at most at the front, and the last byte is never used. */
  ghost predicate BufferInv(buf: seq<Byte>, ms: seq<Message>) {
    && |buf| == SENDBUF_SIZE && buf[SENDBUF_SIZE - 1] == 0
    && (forall i :: 0 < i < |buf| ==> buf[i] != START_OF_HEADER)
    && PieceIs(CString(buf), ms)
  }

  /** What a send of `p` makes the far end unpack, if the previous send made it unpack `ms`. */
  function Yield(ms: seq<Message>, p: Packet): seq<Message> {
    if p.data == [] then ms
    else if |p.data| <= 49149 then [Arrival(p)]
    else []
  }

  /** What the far end makes of a packet that gets through: its own ports and payload. */
  function Arrival(p: Packet): Message {
    var payload := Base64.Encode(p.data);
    Message(true, 85, p.source, p.dest, |payload|, Some(p.data), CrcWord(Text(85, p.source, p.dest, payload)))
  }

  lemma ArrivalIs(p: Packet)
    requires p.data != []
    ensures Arrived(MessageOf(p)) == Arrival(p) && (Portable(MessageOf(p)) <==> |p.data| <= 49149)
  {
    hide Base64.Encode, CrcWord, Text;
    assert p.data[..|p.data|] == p.data;
  }

  function Expected(ps: seq<Packet>, ms: seq<Message>): seq<Message>
    decreases |ps|
  {
    if ps == [] then [] else Yield(ms, ps[0]) + Expected(ps[1..], Yield(ms, ps[0]))
  }

  lemma {:induction false} CStringAppend(s: seq<Byte>, t: seq<Byte>)
    requires 0 !in s
    ensures CString(s + t) == s + CString(t)
    decreases |s|
  {
    if s == [] {
      assert s + t == t;
    } else {
      assert (s + t)[1..] == s[1..] + t;
      CStringAppend(s[1..], t);
    }
  }

  /** The packed form of a non-empty packet: a frame that yields the packet if it is portable. */
  lemma PackedPiece(p: Packet)
    requires p.data != []
    ensures
      var m := MessageOf(p);
      var body := FrameOf(m);
      && PackedForm(m) == body + CRLF && IsFrame(body) && 0 !in body
      && (forall i :: 0 < i < |body| ==> body[i] != START_OF_HEADER)
      && (if Check(BLANK, body).valid then [Check(BLANK, body)] else []) == Yield([], p)
      && |body| == |Base64.Encode(p.data)| + |Hex(|Base64.Encode(p.data)|)| + 16
  {
    var m := MessageOf(p);
    assert p.data[..|p.data|] == p.data;
    var payload := Base64.Encode(p.data);
    var t := Text(UDP, p.source, p.dest, payload);
    hide Check, Text, Hex, Hex4, Scan, HexWord, CrcWord, Base64.Encode, CString, Yield, Sealed;
    InnerPayload(p.data);
    TextFramed(UDP, p.source, p.dest, payload);
    SealedFrame(t);
    FrameClean(t);
    assert CString(t) == t;
    PackedYield(p);
  }

  lemma PackedYield(p: Packet)
    requires p.data != [] && |FrameOf(MessageOf(p))| >= |Base64.Encode(p.data)| + 20
    ensures
      var body := FrameOf(MessageOf(p));
      (if Check(BLANK, body).valid then [Check(BLANK, body)] else []) == Yield([], p)
  {
    hide Check, Text, Hex, Hex4, Scan, HexWord, CrcWord, Base64.Encode, CString;
    var m := MessageOf(p);
    assert p.data[..|p.data|] == p.data;
    ArrivalIs(p);
    if Portable(m) {
      ChecksPass(BLANK, UDP, p.source, p.dest, p.data);
    } else {
      LengthMismatch(BLANK, FrameOf(m));
    }
  }

  lemma FrameClean(t: seq<Byte>)
    requires Framed(t) && 0 !in t
    ensures 0 !in Sealed(t) && forall i :: 0 < i < |Sealed(t)| ==> Sealed(t)[i] != START_OF_HEADER
  {
    var d := Hex4(CrcWord(t));
    InnerHex(CrcWord(t));
    hide Hex4, Hex, CrcWord;
    var body := t + d + [END_OF_TEXT];
    assert body == Sealed(t);
    forall i | 0 <= i < |body| ensures body[i] != 0 && (i > 0 ==> body[i] != START_OF_HEADER) {
      if i < |t| {
        assert body[i] == t[i];
        assert i != 0 && i != HEADER_LEN ==> Inner(t[i]);
      } else if i < |t| + 4 {
        assert body[i] == d[i - |t|] && Inner(d[i - |t|]);
      }
    }
  }

  lemma SendKeeps(buf: seq<Byte>, ms: seq<Message>, p: Packet)
    requires BufferInv(buf, ms) && SendOne(buf, p).Some?
    ensures BufferInv(SendOne(buf, p).value, Yield(ms, p))
  {
    hide CString, Check, PackedForm, FrameOf, PieceIs, IsFrame, Base64.Encode, Hex;
    if p.data != [] {
      PackedPiece(p);
      Overwritten(buf, FrameOf(MessageOf(p)), Yield(ms, p));
    }
  }

  /** A new frame over the front of the buffer. */
  lemma Overwritten(buf: seq<Byte>, body: seq<Byte>, ms: seq<Message>)
    requires |buf| == SENDBUF_SIZE && buf[SENDBUF_SIZE - 1] == 0
    requires forall i :: 0 < i < |buf| ==> buf[i] != START_OF_HEADER
    requires |body + CRLF| < |buf| && IsFrame(body) && 0 !in body
    requires forall i :: 0 < i < |body| ==> body[i] != START_OF_HEADER
    requires ms == if Check(BLANK, body).valid then [Check(BLANK, body)] else []
    ensures BufferInv(body + CRLF + buf[|body + CRLF|..], ms)
  {
    hide CString, Check;
    var text := body + CRLF;
    var b := text + buf[|text|..];
    var left := CString(buf[|text|..]);
    CStringAppend(text, buf[|text|..]);
    Assoc(body, CRLF, left);
    StaleTail(buf, |text|);
    assert PieceParts(CString(b), ms, body, CRLF + left);
    forall i | 0 < i < |b| ensures b[i] != START_OF_HEADER {
      if i < |body| {
        assert b[i] == body[i];
      } else if i < |text| {
        assert b[i] == CRLF[i - |body|];
      } else {
        assert b[i] == buf[i];
      }
    }
  }

  /** What an earlier message left behind the new one holds no '['. */
  lemma StaleTail(buf: seq<Byte>, n: nat)
    requires 0 < n <= |buf| && forall i :: 0 < i < |buf| ==> buf[i] != START_OF_HEADER
    ensures START_OF_HEADER !in CString(buf[n..])
  {
    var tail := buf[n..];
    assert forall i :: 0 <= i < |tail| ==> tail[i] == buf[n + i];
    assert CString(tail) <= tail;
  }

  /** One piece on the wire, behind bytes without a '['; its own tail is such bytes for the next. */
  lemma UnpackPiece(junk: seq<Byte>, piece: seq<Byte>, ms: seq<Message>) returns (junk': seq<Byte>)
    requires START_OF_HEADER !in junk && PieceIs(piece, ms)
    ensures START_OF_HEADER !in junk'
    ensures forall rest :: UnpackAll(junk + (piece + rest)) == ms + UnpackAll(junk' + rest)
  {
    hide UnpackAll, IsFrame, Check;
    if piece == [] && ms == [] {
      junk' := junk;
      forall rest ensures UnpackAll(junk + (piece + rest)) == ms + UnpackAll(junk' + rest) {
        assert piece + rest == rest;
      }
    } else {
      var body, tail :| PieceParts(piece, ms, body, tail);
      junk' := tail;
      forall rest ensures UnpackAll(junk + (piece + rest)) == ms + UnpackAll(tail + rest) {
        UnpackAllFrame(junk, body, tail + rest);
        Assoc(body, tail, rest);
        Assoc(junk, body, tail + rest);
      }
    }
  }

  lemma {:induction false} UnpackPieces(junk: seq<Byte>, buf: seq<Byte>, ms: seq<Message>, ps: seq<Packet>)
    requires START_OF_HEADER !in junk && BufferInv(buf, ms) && SendAll(buf, ps).Some?
    ensures UnpackAll(junk + Flatten(SendAll(buf, ps).value)) == Expected(ps, ms)
    decreases |ps|
  {
    hide UnpackAll, PieceIs, SendOne, Yield, CString;
    if ps == [] {
      assert junk + Flatten(SendAll(buf, ps).value) == junk;
      UnpackAllJunk(junk);
    } else {
      var b := SendOne(buf, ps[0]).value;
      var n := Yield(ms, ps[0]);
      SendKeeps(buf, ms, ps[0]);
      var junk' := UnpackPiece(junk, CString(b), n);
      var later := Flatten(SendAll(b, ps[1..]).value);
      UnpackPieces(junk', b, n, ps[1..]);
      assert ([CString(b)] + SendAll(b, ps[1..]).value)[1..] == SendAll(b, ps[1..]).value;
      assert Flatten(SendAll(buf, ps).value) == CString(b) + later;
      assert UnpackAll(junk + (CString(b) + later)) == n + UnpackAll(junk' + later);
    }
  }

  /**
   Queue to wire: although a send may carry the tail of an earlier, longer message behind the new
   one, and an empty packet repeats the previous send, the far end unpacks exactly `Expected`.
   */
  lemma QueueToWire(ps: seq<Packet>)
    requires SendAll(EMPTY_BUFFER, ps).Some?
    ensures UnpackAll(Flatten(SendAll(EMPTY_BUFFER, ps).value)) == Expected(ps, [])
  {
    assert CString(EMPTY_BUFFER) == [];
    assert BufferInv(EMPTY_BUFFER, []);
    UnpackPieces([], EMPTY_BUFFER, [], ps);
    var wire := Flatten(SendAll(EMPTY_BUFFER, ps).value);
    assert [] + wire == wire;
  }

  /* ---------- when that is the queue itself ---------- */

  predicate Sized(ps: seq<Packet>) {
    forall i :: 0 <= i < |ps| ==> |ps[i].data| <= 49149
  }

  lemma SizedSends(buf: seq<Byte>, p: Packet)
    requires |buf| == SENDBUF_SIZE && |p.data| <= 49149
    ensures SendOne(buf, p).Some? && (p.data != [] ==> Portable(MessageOf(p)))
  {
    if p.data != [] {
      hide FrameOf, PackedForm, Check, IsFrame;
      PackedPiece(p);
      var n := |Base64.Encode(p.data)|;
      assert n <= 0xFFFF;
      InnerHex(n);
    }
  }

  lemma {:induction false} SizedSendsAll(buf: seq<Byte>, ps: seq<Packet>)
    requires |buf| == SENDBUF_SIZE && Sized(ps)
    ensures SendAll(buf, ps).Some?
    decreases |ps|
  {
    hide SendOne, CString;
    if ps != [] {
      SizedSends(buf, ps[0]);
      SizedSendsAll(SendOne(buf, ps[0]).value, ps[1..]);
    }
  }

  lemma DigitCount(n: nat)
    ensures if n < 0x1_0000 then |Hex(n)| == 4 else |Hex(n)| >= 5 && (n < 0x10_0000 ==> |Hex(n)| == 5)
  {
    if n < 0x1_0000 {
      InnerHex(n);
    }
  }

  /** The assertion fails on exactly the packets of 52483 bytes or more, whatever was sent before. */
  lemma AssertionExactly(buf: seq<Byte>, p: Packet)
    requires |buf| == 70000
    ensures SendOne(buf, p).None? <==> |p.data| >= 52483
  {
    if p.data != [] {
      PackedLength(p);
      hide PackedForm, Hex, Base64.Encode;
      DigitCount(|Base64.Encode(p.data)|);
      SendBound(|p.data|, |Base64.Encode(p.data)|, |Hex(|Base64.Encode(p.data)|)|);
    }
  }

  lemma PackedLength(p: Packet)
    requires p.data != []
    ensures |PackedForm(MessageOf(p))| == |Base64.Encode(p.data)| + |Hex(|Base64.Encode(p.data)|)| + 18
  {
    hide FrameOf, PackedForm, Check, IsFrame, Hex, Base64.Encode, Yield;
    PackedPiece(p);
  }

  /** A text of `n` symbols with `d` digits for the length, 16 other characters and the CRLF. */
  lemma SendBound(len: nat, n: nat, d: nat)
    requires n == (len + 2) / 3 * 4
    requires if n < 0x1_0000 then d == 4 else d >= 5 && (n < 0x10_0000 ==> d == 5)
    ensures n + d + 18 >= 70000 <==> len >= 52483
  {
  }

  /** ... so a whole queue goes out if and only if it holds none of them. */
  lemma {:induction false} SendsExactly(buf: seq<Byte>, ps: seq<Packet>)
    requires |buf| == 70000
    ensures SendAll(buf, ps).Some? <==> forall i :: 0 <= i < |ps| ==> |ps[i].data| < 52483
    decreases |ps|
  {
    hide SendOne, CString;
    if ps != [] {
      AssertionExactly(buf, ps[0]);
      var rest := ps[1..];
      assert forall i :: 0 < i < |ps| ==> ps[i] == rest[i - 1];
      assert forall i :: 0 <= i < |rest| ==> rest[i] == ps[i + 1];
      if SendOne(buf, ps[0]).Some? {
        SendsExactly(SendOne(buf, ps[0]).value, rest);
      }
    }
  }

  function NonEmpty(ps: seq<Packet>): seq<Message> {
    if ps == [] then []
    else (if ps[0].data == [] then [] else [Arrival(ps[0])]) + NonEmpty(ps[1..])
  }

  /** No empty packet comes after a non-empty one. */
  predicate EmptiesFirst(ps: seq<Packet>) {
    forall i, j :: 0 <= i < j < |ps| && ps[i].data != [] ==> ps[j].data != []
  }

  lemma {:induction false} ExpectedAtLeast(ps: seq<Packet>, ms: seq<Message>)
    requires Sized(ps) && |ms| <= 1
    ensures |Expected(ps, ms)| >= |NonEmpty(ps)|
    ensures ms != [] && (exists j :: 0 <= j < |ps| && ps[j].data == []) ==> |Expected(ps, ms)| > |NonEmpty(ps)|
    ensures ms != [] && (forall j :: 0 <= j < |ps| ==> ps[j].data != []) ==> Expected(ps, ms) == NonEmpty(ps)
    decreases |ps|
  {
    hide Arrival;
    if ps != [] {
      SizedSends(EMPTY_BUFFER, ps[0]);
      var n := Yield(ms, ps[0]);
      ExpectedAtLeast(ps[1..], n);
      if j :| 0 <= j < |ps| && ps[j].data == [] {
        if j > 0 {
          assert ps[1..][j - 1].data == [];
        }
      }
    }
  }

  lemma {:induction false} ExpectedExactly(ps: seq<Packet>)
    requires Sized(ps)
    ensures Expected(ps, []) == NonEmpty(ps) <==> EmptiesFirst(ps)
    ensures |Expected(ps, [])| == |NonEmpty(ps)| ==> EmptiesFirst(ps)
    decreases |ps|
  {
    hide Arrival;
    if ps != [] {
      SizedSends(EMPTY_BUFFER, ps[0]);
      var rest := ps[1..];
      assert forall j :: 0 < j < |ps| ==> ps[j] == rest[j - 1];
      if ps[0].data == [] {
        ExpectedExactly(rest);
        assert Expected(ps, []) == Expected(rest, []) && NonEmpty(ps) == NonEmpty(rest);
        EmptiesTail(ps);
      } else {
        ExpectedAtLeast(rest, Yield([], ps[0]));
        EmptiesAfter(ps);
      }
    }
  }

  lemma EmptiesTail(ps: seq<Packet>)
    requires ps != [] && ps[0].data == []
    ensures EmptiesFirst(ps) <==> EmptiesFirst(ps[1..])
  {
    var rest := ps[1..];
    assert forall j :: 0 < j < |ps| ==> ps[j] == rest[j - 1];
    if EmptiesFirst(rest) {
      forall i, j | 0 <= i < j < |ps| && ps[i].data != [] ensures ps[j].data != [] {
        assert rest[i - 1].data != [];
        assert rest[j - 1].data != [];
      }
    }
    if EmptiesFirst(ps) {
      forall i, j | 0 <= i < j < |rest| && rest[i].data != [] ensures rest[j].data != [] {
        assert ps[i + 1].data != [];
        assert ps[j + 1].data != [];
      }
    }
  }

  lemma EmptiesAfter(ps: seq<Packet>)
    requires ps != [] && ps[0].data != []
    ensures EmptiesFirst(ps) <==> forall j :: 0 <= j < |ps[1..]| ==> ps[1..][j].data != []
  {
    var rest := ps[1..];
    assert forall j :: 0 <= j < |rest| ==> rest[j] == ps[j + 1];
    if EmptiesFirst(ps) {
      forall j | 0 <= j < |rest| ensures rest[j].data != [] {
        assert ps[j + 1].data != [];
      }
    }
    if forall j :: 0 <= j < |rest| ==> rest[j].data != [] {
      forall i, j | 0 <= i < j < |ps| && ps[i].data != [] ensures ps[j].data != [] {
        assert rest[j - 1].data != [];
      }
    }
  }

  /** The packets that have a payload, in order. */
  function WithData(ps: seq<Packet>): seq<Packet> {
    if ps == [] then [] else (if ps[0].data == [] then [] else [ps[0]]) + WithData(ps[1..])
  }

  /** The messages are the packets, one for one: UDP, from the same port to the same port, same bytes. */
  predicate Carried(ms: seq<Message>, ps: seq<Packet>) {
    && |ms| == |ps|
    && forall i :: 0 <= i < |ms| ==>
         && ms[i].valid && ms[i].protocol as char == 'U' && ms[i].data == Some(ps[i].data)
         && ms[i].inputPort == ps[i].source && ms[i].outputPort == ps[i].dest
  }

  lemma ArrivalCarries(p: Packet)
    ensures Carried([Arrival(p)], [p])
  {
    hide Base64.Encode, CrcWord, Text;
  }

  lemma CarriedJoin(a: seq<Message>, p: seq<Packet>, b: seq<Message>, q: seq<Packet>)
    requires Carried(a, p) && Carried(b, q)
    ensures Carried(a + b, p + q)
  {
  }

  lemma {:induction false} NonEmptyCarried(ps: seq<Packet>)
    ensures Carried(NonEmpty(ps), WithData(ps))
    decreases |ps|
  {
    hide Carried, Arrival;
    NothingCarried();
    if ps != [] {
      NonEmptyCarried(ps[1..]);
      if ps[0].data != [] {
        ArrivalCarries(ps[0]);
        CarriedJoin([Arrival(ps[0])], [ps[0]], NonEmpty(ps[1..]), WithData(ps[1..]));
      } else {
        assert [] + NonEmpty(ps[1..]) == NonEmpty(ps[1..]) && [] + WithData(ps[1..]) == WithData(ps[1..]);
      }
    }
  }

  lemma NothingCarried()
    ensures Carried([], [])
  {
  }

  /** No message that is unpacked has more than 49149 bytes. */
  predicate Short(ms: seq<Message>) {
    forall i :: 0 <= i < |ms| ==> ms[i].data.Some? && |ms[i].data.value| <= 49149
  }

  lemma {:induction false} ExpectedShort(ps: seq<Packet>, ms: seq<Message>)
    requires Short(ms)
    ensures Short(Expected(ps, ms))
    decreases |ps|
  {
    hide Base64.Encode, CrcWord, Text;
    if ps != [] {
      ExpectedShort(ps[1..], Yield(ms, ps[0]));
    }
  }

  lemma {:induction false} WithDataSized(ps: seq<Packet>)
    requires Sized(WithData(ps))
    ensures Sized(ps)
    decreases |ps|
  {
    if ps != [] {
      var rest, later := ps[1..], WithData(ps[1..]);
      var first := if ps[0].data == [] then [] else [ps[0]];
      assert WithData(ps) == first + later;
      assert forall i :: 0 <= i < |later| ==> later[i] == WithData(ps)[|first| + i];
      WithDataSized(rest);
      assert first != [] ==> WithData(ps)[0] == first[0];
      assert forall i :: 0 < i < |ps| ==> ps[i] == rest[i - 1];
    }
  }

  lemma CarriedSized(ms: seq<Message>, ps: seq<Packet>)
    requires Carried(ms, WithData(ps)) && Short(ms)
    ensures Sized(ps)
  {
    var qs := WithData(ps);
    forall i | 0 <= i < |qs| ensures |qs[i].data| <= 49149 {
      assert ms[i].data == Some(qs[i].data);
    }
    WithDataSized(ps);
  }

  lemma {:induction false} SameCount(ps: seq<Packet>)
    ensures |NonEmpty(ps)| == |WithData(ps)|
    decreases |ps|
  {
    hide Arrival;
    if ps != [] {
      SameCount(ps[1..]);
    }
  }

  /**
   The whole queue goes out and the far end unpacks exactly its non-empty packets, in order and
   with their own ports, if and only if no packet is above 49149 bytes and no empty packet is
   queued behind a non-empty one.
   */
  lemma WireIsQueue(ps: seq<Packet>)
    ensures (SendAll(EMPTY_BUFFER, ps).Some?
             && Carried(UnpackAll(Flatten(SendAll(EMPTY_BUFFER, ps).value)), WithData(ps)))
            <==> Sized(ps) && EmptiesFirst(ps)
  {
    hide UnpackAll, SendAll, Expected, NonEmpty, WithData, Carried, Flatten, EmptiesFirst, Sized;
    if Sized(ps) {
      SizedSendsAll(EMPTY_BUFFER, ps);
      ExpectedExactly(ps);
      NonEmptyCarried(ps);
      SameCount(ps);
    }
    if SendAll(EMPTY_BUFFER, ps).Some? {
      QueueToWire(ps);
      ExpectedShort(ps, []);
      if Carried(Expected(ps, []), WithData(ps)) {
        CarriedSized(Expected(ps, []), ps);
        CarriedCount(Expected(ps, []), WithData(ps));
      }
    }
  }

  lemma CarriedCount(ms: seq<Message>, ps: seq<Packet>)
    requires Carried(ms, ps)
    ensures |ms| == |ps|
  {
  }

  /** The text that a send puts at the front of the buffer, with the packet's own fields. */
  lemma SendOneWrites(buf: seq<Byte>, p: Packet)
    requires p.data != [] && SendOne(buf, p).Some?
    ensures
      var payload := Base64.Encode(p.data);
      var text := [91, 85] + Hex4(p.source) + Hex4(p.dest) + [124] + Hex(|payload|) + payload;
      var sent := text + Hex4(CrcWord(text)) + [93] + [13, 10];
      |sent| < |buf| && SendOne(buf, p) == Some(sent + buf[|sent|..])
  {
    hide Base64.Encode, Hex, Hex4, CrcWord, PackedForm;
    PackedLayout(MessageOf(p));
    assert p.data[..|p.data|] == p.data;
  }

  /** One empty packet behind another packet is enough for the far end to see that packet twice. */
  lemma EmptyPacketRepeats(p: Packet, q: Packet)
    requires 0 < |p.data| <= 49149 && q.data == []
    ensures SendAll(EMPTY_BUFFER, [p, q]).Some?
    ensures Carried(UnpackAll(Flatten(SendAll(EMPTY_BUFFER, [p, q]).value)), [p, p])
  {
    hide UnpackAll, SendAll;
    var ps := [p, q];
    SizedSends(EMPTY_BUFFER, p);
    SizedSendsAll(EMPTY_BUFFER, ps);
    QueueToWire(ps);
    hide Arrival, MessageOf;
    var a := [Arrival(p)];
    assert ps[1..] == [q];
    assert Expected([q], a) == a + Expected([q][1..], a) == a + [];
    assert Expected(ps, []) == a + Expected([q], a);
    ArrivalCarries(p);
  }
}
