/**
 One station of the half-duplex link (class `Half_duplex`): its handlers as functions from a
 station value and a message to the new value and the messages written, and the class whose
 methods carry them out in place.
 */
module LinkStation {
  import opened Bytes
  import opened LinkMessage
  import opened LinkStream

  const MAX_ENQ_TRIES := 20
  const MAX_INFO_TRIES := 20

  datatype State =
    | Neutral
    | PollTransmit
    | MasterSelectTransmit
    | MasterSelectAckReceive
    | MasterInfoTransmit
    | MasterInfoAckReceive
    | SlaveSelectReceive
    | SlaveSelectAckTransmit
    | SlaveInfoReceive
    | SlaveInfoAckTransmit

  predicate IsMaster(s: State) {
    s in {MasterSelectTransmit, MasterSelectAckReceive, MasterInfoTransmit, MasterInfoAckReceive}
  }

  /** How the process ended, if it did: an exception out of a handler, or `abort()`. */
  datatype Fault = NoFault | Threw | Aborted

  /** The prefixes that name the two stations. */
  const ALPHA: seq<Byte> := [97, 108, 112, 104, 97]
  const BRAVO: seq<Byte> := [98, 114, 97, 118, 111]

  const EOT_MSG := Simple(Eot, [])
  const ACK_MSG := Simple(Ack, [])
  const NAK_MSG := Simple(Nak, [])
  const ENQ_ALPHA := Simple(Enq, ALPHA)
  const ENQ_BRAVO := Simple(Enq, BRAVO)

  datatype Station = Station(
    controller: bool,
    state: State,
    accepting: bool,
    enqNak: nat,
    infoNak: nat,
    timer: bool,          // the no-response timer is running
    inQ: seq<Msg>,
    outQ: seq<Msg>,
    last: Msg,
    fault: Fault)

  /** The station after an event, and the messages it wrote to the port meanwhile. */
  datatype Reaction = Reaction(st: Station, sent: seq<Msg>)

  function Initial(controller: bool): Station {
    Station(controller, Neutral, true, 0, 0, false, [], [], NOTHING, NoFault)
  }

  function Enqueue(s: Station, header: seq<Byte>, body: seq<Byte>): Station {
    s.(outQ := s.outQ + [InfoMsg(header, body)])
  }

  function TakeNext(s: Station): Station {
    if s.inQ == [] then s else s.(inQ := s.inQ[1..])
  }

  /** What `get_next_message` hands out: the oldest message received, if there is one. */
  function Taken(s: Station): seq<Msg> {
    if s.inQ == [] then [] else s.inQ[..1]
  }

  /** `handle_output_queue_msg_and_state`. */
  function SendQueue(s: Station): Reaction {
    if s.outQ == [] then Reaction(s.(state := Neutral), [EOT_MSG])
    else
      var t := s.(last := s.outQ[0], outQ := s.outQ[1..]);
      if Printable(t.last) then Reaction(t.(state := MasterInfoAckReceive), [t.last])
      else Reaction(t.(state := MasterInfoTransmit, fault := Aborted), [])
  }

  /** `handle_clear_request`; it also drops the unparsed bytes. */
  function Clear(s: Station): Station {
    s.(inQ := [], outQ := [], state := Neutral)
  }

  function InNeutral(s: Station, m: Msg): Reaction {
    if m.typ == Enq then
      if m.prefix == BRAVO then
        if |s.outQ| > 0 then Reaction(s.(state := MasterSelectAckReceive), [ENQ_ALPHA])
        else Reaction(s.(state := Neutral), [EOT_MSG])
      else if m.prefix == ALPHA then Reaction(s.(state := SlaveSelectReceive), [])
      else Reaction(s, [])
    else if m.typ == Eot then Reaction(s, [])
    else Reaction(s.(fault := Threw), [])
  }

  function InSlaveSelectReceive(s: Station, m: Msg): Reaction {
    if m.typ == Enq then
      if !s.controller && m.prefix == BRAVO then
        if s.accepting then Reaction(s.(state := SlaveInfoReceive), [ACK_MSG])
        else Reaction(s.(state := Neutral), [NAK_MSG])
      else Reaction(s, [])
    else if m.typ == Ack then Reaction(s, [])
    else if m.typ == Eot then Reaction(s.(state := Neutral), [])
    else Reaction(s.(fault := Threw), [])
  }

  function InMasterSelectAckReceive(s: Station, m: Msg): Reaction {
    if m.typ == Ack then SendQueue(s.(enqNak := 0))
    else if m.typ == Nak then
      if s.controller then
        var t := s.(enqNak := s.enqNak + 1);
        Reaction(t.(state := if t.enqNak < MAX_ENQ_TRIES then PollTransmit else Neutral), [])
      else Reaction(s.(state := Neutral), [])
    else if m.typ == DleEot then Reaction(Clear(s), [])
    else if m.typ == Eot then Reaction(s.(state := Neutral), [])
    else Reaction(s.(fault := Threw), [])
  }

  function InMasterInfoAckReceive(s: Station, m: Msg): Reaction {
    if m.typ == Ack then SendQueue(s.(timer := false, infoNak := 0))
    else if m.typ == Nak then
      var t := s.(timer := false, infoNak := s.infoNak + 1);
      if t.infoNak < MAX_INFO_TRIES then
        if Printable(t.last) then Reaction(t, [t.last]) else Reaction(t.(fault := Aborted), [])
      else Reaction(t.(state := Neutral), [EOT_MSG])
    else if m.typ == DleEot then Reaction(Clear(s), [])
    else Reaction(s.(state := Neutral), [EOT_MSG])
  }

  function InSlaveInfoReceive(s: Station, m: Msg): Reaction {
    if m.typ == Info then Reaction(s.(state := SlaveInfoReceive, inQ := s.inQ + [m]), [ACK_MSG])
    else if m.typ == Malformed then Reaction(s.(state := SlaveInfoReceive), [NAK_MSG])
    else if m.typ == Eot then Reaction(s.(state := Neutral), [])
    else if m.typ == DleEot then Reaction(Clear(s), [])
    else Reaction(s.(fault := Threw), [])
  }

  /** The switch of `read_handler`: a message is handled by the state it meets. */
  function Handle(s: Station, m: Msg): Reaction {
    match s.state
    case Neutral => InNeutral(s, m)
    case SlaveSelectReceive => InSlaveSelectReceive(s, m)
    case MasterSelectAckReceive => InMasterSelectAckReceive(s, m)
    case MasterInfoAckReceive => InMasterInfoAckReceive(s, m)
    case SlaveInfoReceive => InSlaveInfoReceive(s, m)
    case _ => Reaction(s.(fault := Aborted), [])
  }

  /** `poll`: only the controller, and only in NEUTRAL, opens an exchange. */
  function Poll(s: Station): Reaction {
    if s.state != Neutral || !s.controller then Reaction(s, [])
    else if s.outQ != [] then
      Reaction(s.(state := MasterSelectAckReceive, timer := true), [EOT_MSG, ENQ_ALPHA, ENQ_BRAVO])
    else Reaction(s.(state := SlaveSelectReceive), [EOT_MSG, ENQ_BRAVO])
  }

  /** `on_master_select_no_response_timeout`. */
  function Timeout(s: Station): Reaction {
    Reaction(s.(state := Neutral, timer := false), [EOT_MSG])
  }

  /** The station after a read, the bytes it keeps, and the messages it wrote. */
  datatype Reading = Reading(st: Station, buf: seq<Byte>, sent: seq<Msg>)

  /** The drain loop of `read_handler` on the unparsed bytes `buf`. */
  function Drain(s: Station, buf: seq<Byte>): Reading
    decreases |buf|
  {
    if s.fault != NoFault then Reading(s, buf, [])
    else
      match ParseInput(buf)
      case Abort => Reading(s.(fault := Aborted), buf, [])
      case Parsed(m, rest) =>
        if m.typ == NoMsg then Reading(s, buf, [])
        else
          var h := Handle(s, m);
          var d := Drain(h.st, rest);
          Reading(d.st, d.buf, h.sent + d.sent)
  }

  /** Whatever the handlers do short of a fault, a read leaves what the parse loop alone would leave. */
  lemma {:induction false} DrainParses(s: Station, buf: seq<Byte>)
    ensures Drain(s, buf).st.fault == NoFault ==> !ParseAll(buf).aborted && Drain(s, buf).buf == ParseAll(buf).rest
    decreases |buf|
  {
    hide ParseInput, Handle;
    var p := ParseInput(buf);
    if p.Parsed? && p.msg.typ != NoMsg {
      DrainParses(Handle(s, p.msg).st, p.rest);
    }
  }

  /** Some messages in turn, until one of them brings about a fault. */
  function HandleAll(s: Station, ms: seq<Msg>): Reaction
    decreases |ms|
  {
    if ms == [] || s.fault != NoFault then Reaction(s, [])
    else
      var first := Handle(s, ms[0]);
      var later := HandleAll(first.st, ms[1..]);
      Reaction(later.st, first.sent + later.sent)
  }

  /** A read handles exactly the messages that the parse loop finds, in order, up to a fault. */
  lemma {:induction false} DrainHandles(s: Station, buf: seq<Byte>)
    ensures
      var d, r := ParseAll(buf), HandleAll(s, ParseAll(buf).msgs);
      && Drain(s, buf).sent == r.sent
      && Drain(s, buf).st == if d.aborted && r.st.fault == NoFault then r.st.(fault := Aborted) else r.st
    decreases |buf|
  {
    hide ParseInput, Handle, IsTail, HandleAll;
    var p := ParseInput(buf);
    if s.fault != NoFault {
      HandleNone(s, ParseAll(buf).msgs);
    } else if p.Parsed? && p.msg.typ != NoMsg {
      var h, d := Handle(s, p.msg), ParseAll(p.rest);
      DrainHandles(h.st, p.rest);
      HandleNext(s, p.msg, d.msgs);
      assert ParseAll(buf) == Drained([p.msg] + d.msgs, d.rest, d.aborted);
      assert Drain(s, buf).st == Drain(h.st, p.rest).st;
    } else {
      HandleNone(s, []);
    }
  }

  lemma HandleNone(s: Station, ms: seq<Msg>)
    requires ms == [] || s.fault != NoFault
    ensures HandleAll(s, ms) == Reaction(s, [])
  {
  }

  lemma HandleNext(s: Station, m: Msg, ms: seq<Msg>)
    requires s.fault == NoFault
    ensures
      var first := Handle(s, m);
      var later := HandleAll(first.st, ms);
      HandleAll(s, [m] + ms) == Reaction(later.st, first.sent + later.sent)
  {
    hide Handle;
    assert ([m] + ms)[1..] == ms;
  }

  /** The unparsed input of a station between reads, on any traffic. */
  lemma ReadKept(s: Station, buf: seq<Byte>, chunk: seq<Byte>)
    requires Kept(buf) && |chunk| <= RAW_READ_BUFFER_SIZE
    ensures Drain(s, buf + chunk).st.fault == NoFault ==> Kept(Drain(s, buf + chunk).buf)
  {
    hide Kept, Drain, ParseAll;
    DrainParses(s, buf + chunk);
    OneReadKept(buf, chunk);
  }

  /** Where a clear request is understood. */
  predicate Clears(s: State, t: MsgType) {
    t == DleEot && s in {MasterSelectAckReceive, MasterInfoAckReceive, SlaveInfoReceive}
  }

  class HalfDuplex {
    const controller: bool
    var state: State
    var accepting: bool
    var enqNak: nat
    var infoNak: nat
    var timer: bool
    var inputUnprocessed: seq<Byte>
    var inputQueue: seq<Msg>
    var outputQueue: seq<Msg>
    var lastMessage: Msg
    var fault: Fault
    var port: seq<Byte>   // every byte written to the serial port

    ghost function View(): Station
      reads this
    {
      Station(controller, state, accepting, enqNak, infoNak, timer,
              inputQueue, outputQueue, lastMessage, fault)
    }

    /** The object has made the step `r` from the state in which `port` was `written`. */
    ghost predicate Did(r: Reaction, written: seq<Byte>)
      reads this
    {
      View() == r.st && port == written + PrintAll(r.sent)
    }

    constructor (ctrl: bool)
      ensures View() == Initial(ctrl) && port == [] && inputUnprocessed == []
      ensures state == Neutral && accepting && enqNak == infoNak == 0 && !timer && inputQueue == outputQueue == []
    {
      controller := ctrl;
      state, accepting, enqNak, infoNak, timer := Neutral, true, 0, 0, false;
      inputUnprocessed, inputQueue, outputQueue, lastMessage := [], [], [], NOTHING;
      fault, port := NoFault, [];
    }

    method EnqueueMessage(header: seq<Byte>, body: seq<Byte>)
      modifies this
      ensures View() == Enqueue(old(View()), header, body)
      ensures port == old(port) && inputUnprocessed == old(inputUnprocessed)
    {
      outputQueue := outputQueue + [InfoMsg(header, body)];
    }

    method GetNextMessage() returns (r: Option<(seq<Byte>, seq<Byte>)>)
      modifies this
      ensures View() == TakeNext(old(View()))
      ensures port == old(port) && inputUnprocessed == old(inputUnprocessed)
      ensures r == if old(inputQueue) == [] then None
                   else Some((old(inputQueue)[0].header, old(inputQueue)[0].body))
    {
      r := None;
      if |inputQueue| > 0 {
        var g := inputQueue[0];
        inputQueue := inputQueue[1..];
        r := Some((g.header, g.body));
      }
    }

    method WriteMsg(m: Msg)
      modifies this
      ensures Printable(m) ==> View() == old(View()) && port == old(port) + Print(m)
      ensures !Printable(m) ==> View() == old(View()).(fault := Aborted) && port == old(port)
      ensures inputUnprocessed == old(inputUnprocessed)
    {
      var text := ToString(m);
      match text
      case Some(bytes) => port := port + bytes;
      case None => fault := Aborted;
    }

    method HandleOutputQueueMsgAndState()
      modifies this
      ensures Did(SendQueue(old(View())), old(port)) && inputUnprocessed == old(inputUnprocessed)
    {
      if outputQueue == [] {
        WriteMsg(EOT_MSG);
        state := Neutral;
      } else {
        state := MasterInfoTransmit;
        lastMessage := outputQueue[0];
        outputQueue := outputQueue[1..];
        WriteMsg(lastMessage);
        if fault == Aborted && !Printable(lastMessage) { return; }
        state := MasterInfoAckReceive;
      }
    }

    method HandleClearRequest()
      modifies this
      ensures View() == Clear(old(View())) && port == old(port) && inputUnprocessed == []
    {
      inputUnprocessed := [];
      inputQueue := [];
      outputQueue := [];
      state := Neutral;
    }

    method HandleNeutral(m: Msg)
      modifies this
      ensures Did(InNeutral(old(View()), m), old(port))
      ensures inputUnprocessed == old(inputUnprocessed)
    {
      if m.typ == Enq {
        if m.prefix == BRAVO {
          state := MasterSelectTransmit;
          if |outputQueue| > 0 {
            WriteMsg(ENQ_ALPHA);
            state := MasterSelectAckReceive;
          } else {
            WriteMsg(EOT_MSG);
            state := Neutral;
          }
        } else if m.prefix == ALPHA {
          state := SlaveSelectReceive;
        }
      } else if m.typ != Eot {
        fault := Threw;
      }
    }

    method HandleSlaveSelectReceive(m: Msg)
      modifies this
      ensures Did(InSlaveSelectReceive(old(View()), m), old(port))
      ensures inputUnprocessed == old(inputUnprocessed)
    {
      if m.typ == Enq {
        if !controller && m.prefix == BRAVO {
          state := SlaveSelectAckTransmit;
          if accepting {
            WriteMsg(ACK_MSG);
            state := SlaveInfoReceive;
          } else {
            WriteMsg(NAK_MSG);
            state := Neutral;
          }
        }
      } else if m.typ == Ack {
      } else if m.typ == Eot {
        state := Neutral;
      } else {
        fault := Threw;
      }
    }

    method HandleMasterSelectAckReceive(m: Msg)
      modifies this
      ensures Did(InMasterSelectAckReceive(old(View()), m), old(port))
      ensures inputUnprocessed == if m.typ == DleEot then [] else old(inputUnprocessed)
    {
      if m.typ == Ack {
        enqNak := 0;
        HandleOutputQueueMsgAndState();
      } else if m.typ == Nak {
        if controller {
          enqNak := enqNak + 1;
          if enqNak < MAX_ENQ_TRIES {
            state := PollTransmit;
          } else {
            state := Neutral;
          }
        } else {
          state := Neutral;
        }
      } else if m.typ == DleEot {
        HandleClearRequest();
      } else if m.typ == Eot {
        state := Neutral;
      } else {
        fault := Threw;
      }
    }

    method HandleMasterInfoAckReceive(m: Msg)
      modifies this
      ensures Did(InMasterInfoAckReceive(old(View()), m), old(port))
      ensures inputUnprocessed == if m.typ == DleEot then [] else old(inputUnprocessed)
    {
      if m.typ == Ack {
        timer := false;
        infoNak := 0;
        HandleOutputQueueMsgAndState();
      } else if m.typ == Nak {
        timer := false;
        infoNak := infoNak + 1;
        if infoNak < MAX_INFO_TRIES {
          WriteMsg(lastMessage);
        } else {
          WriteMsg(EOT_MSG);
          state := Neutral;
        }
      } else if m.typ == DleEot {
        HandleClearRequest();
      } else {
        WriteMsg(EOT_MSG);
        state := Neutral;
      }
    }

    method HandleSlaveInfoReceive(m: Msg)
      modifies this
      ensures Did(InSlaveInfoReceive(old(View()), m), old(port))
      ensures inputUnprocessed == if m.typ == DleEot then [] else old(inputUnprocessed)
    {
      if m.typ == Info {
        state := SlaveInfoAckTransmit;
        inputQueue := inputQueue + [m];
        WriteMsg(ACK_MSG);
        state := SlaveInfoReceive;
      } else if m.typ == Malformed {
        state := SlaveInfoAckTransmit;
        WriteMsg(NAK_MSG);
        state := SlaveInfoReceive;
      } else if m.typ == Eot {
        state := Neutral;
      } else if m.typ == DleEot {
        HandleClearRequest();
      } else {
        fault := Threw;
      }
    }

    method HandleMessage(m: Msg)
      modifies this
      ensures Did(Handle(old(View()), m), old(port))
      ensures inputUnprocessed == if Clears(old(state), m.typ) then [] else old(inputUnprocessed)
    {
      match state
      case Neutral => HandleNeutral(m);
      case SlaveSelectReceive => HandleSlaveSelectReceive(m);
      case MasterSelectAckReceive => HandleMasterSelectAckReceive(m);
      case MasterInfoAckReceive => HandleMasterInfoAckReceive(m);
      case SlaveInfoReceive => HandleSlaveInfoReceive(m);
      case _ => fault := Aborted;
    }

    /** One turn of the drain loop; `more` is false when the loop is left. */
    method ParseAndHandle() returns (more: bool)
      requires fault == NoFault
      modifies this
      ensures more ==> |inputUnprocessed| < |old(inputUnprocessed)|
      ensures
        var before, now := Drain(old(View()), old(inputUnprocessed)), Drain(View(), inputUnprocessed);
        && before.st == now.st && before.buf == now.buf
        && old(port) + PrintAll(before.sent) == port + PrintAll(now.sent)
        && (!more ==> now == Reading(View(), inputUnprocessed, []))
    {
      match ParseInput(inputUnprocessed)
      case Abort =>
        fault := Aborted;
        more := false;
      case Parsed(m, rest) =>
        if m.typ == NoMsg {
          more := false;
        } else {
          inputUnprocessed := rest;
          ghost var h := Handle(View(), m);
          HandleMessage(m);
          ghost var later := Drain(h.st, rest).sent;
          PrintAllAppend(h.sent, later);
          Assoc(old(port), PrintAll(h.sent), PrintAll(later));
          more := true;
        }
    }

    /** The station reads a chunk, then parses and handles until no complete message is left. */
    method ReadHandler(chunk: seq<Byte>)
      requires fault == NoFault
      modifies this
      ensures
        var r := Drain(old(View()), old(inputUnprocessed) + chunk);
        View() == r.st && inputUnprocessed == r.buf && port == old(port) + PrintAll(r.sent)
      ensures old(Kept(inputUnprocessed)) && |chunk| <= RAW_READ_BUFFER_SIZE && fault == NoFault ==>
                Kept(inputUnprocessed)
    {
      hide Kept;
      if Kept(inputUnprocessed) && |chunk| <= RAW_READ_BUFFER_SIZE {
        ReadKept(View(), inputUnprocessed, chunk);
      }
      inputUnprocessed := inputUnprocessed + chunk;
      ghost var all := Drain(View(), inputUnprocessed);
      var more := true;
      while more && fault == NoFault
        invariant
          var now := Drain(View(), inputUnprocessed);
          && all.st == now.st && all.buf == now.buf
          && old(port) + PrintAll(all.sent) == port + PrintAll(now.sent)
          && (!more ==> now == Reading(View(), inputUnprocessed, []))
        decreases more, |inputUnprocessed|
      {
        more := ParseAndHandle();
      }
    }

    /** The branch of the poll in which the controller claims the master role. */
    method PollAsMaster()
      requires state == Neutral && controller && outputQueue != []
      modifies this
      ensures Did(Poll(old(View())), old(port)) && inputUnprocessed == old(inputUnprocessed)
    {
      hide Print, PrintAll;
      PrintAllThree(EOT_MSG, ENQ_ALPHA, ENQ_BRAVO);
      ghost var before := port;
      WriteMsg(EOT_MSG);
      state := PollTransmit;
      WriteMsg(ENQ_ALPHA);
      state := MasterSelectTransmit;
      WriteMsg(ENQ_BRAVO);
      timer := true;
      state := MasterSelectAckReceive;
      Assoc(before, Print(EOT_MSG), Print(ENQ_ALPHA));
      Assoc(before, Print(EOT_MSG) + Print(ENQ_ALPHA), Print(ENQ_BRAVO));
    }

    method PollTimer()
      modifies this
      ensures Did(Poll(old(View())), old(port)) && inputUnprocessed == old(inputUnprocessed)
    {
      hide Print, PrintAll;
      if state != Neutral || !controller {
        PrintAllNone();
      } else if outputQueue != [] {
        PollAsMaster();
      } else {
        WriteMsg(EOT_MSG);
        state := PollTransmit;
        WriteMsg(ENQ_BRAVO);
        state := SlaveSelectReceive;
        PrintAllThree(EOT_MSG, ENQ_BRAVO, ENQ_BRAVO);
      }
    }

    method OnNoResponseTimeout()
      modifies this
      ensures Did(Timeout(old(View())), old(port)) && inputUnprocessed == old(inputUnprocessed)
    {
      WriteMsg(EOT_MSG);
      timer := false;
      state := Neutral;
    }
  }

  lemma PrintAllNone()
    ensures PrintAll([]) == []
  {
  }

  lemma PrintAllThree(a: Msg, b: Msg, c: Msg)
    ensures PrintAll([a]) == Print(a)
    ensures PrintAll([a, b]) == Print(a) + Print(b)
    ensures PrintAll([a, b, c]) == Print(a) + Print(b) + Print(c)
  {
    assert [a, b][1..] == [b];
    assert [a, b, c][1..] == [b, c];
    assert [b, c][1..] == [c];
    assert PrintAll([c]) == Print(c);
    assert PrintAll([b, c]) == Print(b) + Print(c);
  }

  /**
   What a transition keeps: the input queue grows by exactly the INFO message that
   SLAVE_INFO_RECEIVE accepts; the output queue loses at most its front, which is then remembered
   and written; a message already sent is written again only on a NAK below the limit; at most one
   message is written; and a clear request, where it is understood, empties both queues.
   */
  predicate Conserves(s: Station, m: Msg, r: Reaction) {
    if m.typ == DleEot && s.state !in {Neutral, SlaveSelectReceive} then
      r.sent == [] && (r.st.fault == Aborted || (r.st.state == Neutral && r.st.inQ == [] && r.st.outQ == []))
    else
      && r.st.inQ == s.inQ + (if s.state == SlaveInfoReceive && m.typ == Info then [m] else [])
      && |r.sent| <= 1
      && (|| (r.st.outQ == s.outQ && r.st.last == s.last)
          || (s.outQ != [] && s.outQ == [r.st.last] + r.st.outQ
              && r.sent == if Printable(r.st.last) then [r.st.last] else []))
      && (r.st.outQ == s.outQ && r.sent != [] && r.sent[0].typ == Info ==>
            && s.state == MasterInfoAckReceive && m.typ == Nak && r.sent[0] == s.last
            && r.st.infoNak == s.infoNak + 1 < MAX_INFO_TRIES)
  }

  /** ... in every state and on every message. */
  lemma HandleConserves(s: Station, m: Msg)
    ensures Conserves(s, m, Handle(s, m))
  {
    hide Conserves, InMasterSelectAckReceive, InMasterInfoAckReceive;
    match s.state
    case MasterSelectAckReceive => SelectAckConserves(s, m);
    case MasterInfoAckReceive => InfoAckConserves(s, m);
    case _ => SlaveConserves(s, m);
  }

  lemma SlaveConserves(s: Station, m: Msg)
    requires s.state != MasterSelectAckReceive && s.state != MasterInfoAckReceive
    ensures Conserves(s, m, Handle(s, m))
  {
    hide InMasterSelectAckReceive, InMasterInfoAckReceive;
  }

  lemma SelectAckConserves(s: Station, m: Msg)
    requires s.state == MasterSelectAckReceive
    ensures Conserves(s, m, InMasterSelectAckReceive(s, m))
  {
    hide SendQueue;
    SendQueueConserves(s.(enqNak := 0));
  }

  lemma InfoAckConserves(s: Station, m: Msg)
    requires s.state == MasterInfoAckReceive
    ensures Conserves(s, m, InMasterInfoAckReceive(s, m))
  {
    hide SendQueue;
    SendQueueConserves(s.(timer := false, infoNak := 0));
  }

  lemma SendQueueConserves(s: Station)
    ensures
      var r := SendQueue(s);
      && r.st.inQ == s.inQ
      && (|| (s.outQ == [] && r.st.outQ == [] && r.st.last == s.last && r.sent == [EOT_MSG])
          || (s.outQ != [] && s.outQ == [r.st.last] + r.st.outQ
              && r.sent == if Printable(r.st.last) then [r.st.last] else []))
  {
    if s.outQ != [] {
      assert s.outQ == [s.outQ[0]] + s.outQ[1..];
    }
  }

  /* ---------- the transitions, column by column ---------- */

  /** An exception leaves a handler on exactly these pairs of state and message, and on no others. */
  lemma ThrowsExactly(s: Station, m: Msg)
    requires s.fault == NoFault
    ensures Handle(s, m).st.fault == Threw <==>
            || (s.state == Neutral && m.typ !in {Enq, Eot})
            || (s.state == SlaveSelectReceive && m.typ !in {Enq, Ack, Eot})
            || (s.state == MasterSelectAckReceive && m.typ !in {Ack, Nak, DleEot, Eot})
            || (s.state == SlaveInfoReceive && m.typ !in {Info, Malformed, Eot, DleEot})
  {
  }

  /** The message that a master has to send on this event, if it has one: the next, or the last again. */
  function Due(s: Station, t: MsgType): Option<Msg> {
    if s.outQ != [] && t == Ack && s.state in {MasterSelectAckReceive, MasterInfoAckReceive} then Some(s.outQ[0])
    else if t == Nak && s.state == MasterInfoAckReceive && s.infoNak < 19 then Some(s.last)
    else None
  }

  /** `abort()` is reached exactly in a state that expects no message, or with nothing printable to send. */
  lemma AbortsExactly(s: Station, m: Msg)
    requires s.fault == NoFault
    ensures Handle(s, m).st.fault == Aborted <==>
            || s.state !in {Neutral, SlaveSelectReceive, MasterSelectAckReceive, MasterInfoAckReceive, SlaveInfoReceive}
            || (Due(s, m.typ).Some? && Due(s, m.typ).value.typ in {NoMsg, Malformed})
  {
    hide Printable;
    PrintableIs(s.last);
    if s.outQ != [] {
      PrintableIs(s.outQ[0]);
    }
  }

  lemma PrintableIs(m: Msg)
    ensures Printable(m) <==> m.typ !in {NoMsg, Malformed}
  {
  }

  /** What a station says on an event that leaves it nothing due to send. */
  function Reply(s: Station, m: Msg): seq<Byte> {
    match s.state
    case Neutral =>
      if m.typ == Enq && m.prefix == [98, 114, 97, 118, 111] then
        (if s.outQ == [] then [4] else [97, 108, 112, 104, 97, 5])
      else []
    case SlaveSelectReceive =>
      if m.typ == Enq && !s.controller && m.prefix == [98, 114, 97, 118, 111] then
        (if s.accepting then [6] else [21])
      else []
    case MasterSelectAckReceive => if m.typ == Ack then [4] else []
    case MasterInfoAckReceive => if m.typ == DleEot then [] else [4]
    case SlaveInfoReceive => if m.typ == Info then [6] else if m.typ == Malformed then [21] else []
    case _ => []
  }

  /** The bytes written on every event: the message that is due, or a fixed reply. */
  lemma WritesExactly(s: Station, m: Msg)
    ensures PrintAll(Handle(s, m).sent) ==
            if Due(s, m.typ).None? then Reply(s, m)
            else if Due(s, m.typ).value.typ in {NoMsg, Malformed} then []
            else Print(Due(s, m.typ).value)
  {
    hide Print, PrintAll, Printable;
    NamesPrinted();
    PrintAllNone();
    PrintableIs(s.last);
    PrintAllOne(s.last);
    if s.outQ != [] {
      PrintableIs(s.outQ[0]);
      PrintAllOne(s.outQ[0]);
    }
  }

  lemma PrintAllOne(m: Msg)
    ensures PrintAll([m]) == Print(m)
  {
  }

  /** The supervisory messages of the protocol, in numbers. */
  lemma NamesPrinted()
    ensures PrintAll([EOT_MSG]) == [4] && PrintAll([ACK_MSG]) == [6] && PrintAll([NAK_MSG]) == [21]
    ensures PrintAll([ENQ_ALPHA]) == [97, 108, 112, 104, 97, 5]
    ensures PrintAll([ENQ_BRAVO]) == [98, 114, 97, 118, 111, 5]
    ensures Print(EOT_MSG) == [4] && Print(ENQ_ALPHA) == [97, 108, 112, 104, 97, 5]
    ensures Print(ENQ_BRAVO) == [98, 114, 97, 118, 111, 5]
  {
    PrintAllOne(EOT_MSG);
    PrintAllOne(ACK_MSG);
    PrintAllOne(NAK_MSG);
    PrintAllOne(ENQ_ALPHA);
    PrintAllOne(ENQ_BRAVO);
  }

  /** The state after every event that does not fault. */
  lemma StateExactly(s: Station, m: Msg)
    requires s.fault == NoFault && Handle(s, m).st.fault == NoFault
    ensures
      var t := Handle(s, m).st.state;
      && (Due(s, m.typ).Some? ==> t == MasterInfoAckReceive)
      && (Due(s, m.typ).None? ==>
            t == match s.state
                 case Neutral =>
                   if m.typ == Enq && m.prefix == [98, 114, 97, 118, 111] && s.outQ != [] then MasterSelectAckReceive
                   else if m.typ == Enq && m.prefix == [97, 108, 112, 104, 97] then SlaveSelectReceive
                   else Neutral
                 case SlaveSelectReceive =>
                   if m.typ == Eot then Neutral
                   else if m.typ == Enq && !s.controller && m.prefix == [98, 114, 97, 118, 111] then
                     (if s.accepting then SlaveInfoReceive else Neutral)
                   else SlaveSelectReceive
                 case MasterSelectAckReceive =>
                   if m.typ == Nak && s.controller && s.enqNak < 19 then PollTransmit else Neutral
                 case SlaveInfoReceive =>
                   if m.typ in {Info, Malformed} then SlaveInfoReceive else Neutral
                 case _ => Neutral)
  {
    assert ALPHA[0] != BRAVO[0];
  }

  /** The counters and the timer after every event. */
  lemma CountersExactly(s: Station, m: Msg)
    ensures
      var t := Handle(s, m).st;
      && t.infoNak == (if s.state != MasterInfoAckReceive then s.infoNak
                       else if m.typ == Ack then 0 else if m.typ == Nak then s.infoNak + 1 else s.infoNak)
      && t.enqNak == (if s.state != MasterSelectAckReceive then s.enqNak
                      else if m.typ == Ack then 0
                      else if m.typ == Nak && s.controller then s.enqNak + 1 else s.enqNak)
      && t.timer == (s.timer && !(s.state == MasterInfoAckReceive && m.typ in {Ack, Nak}))
      && t.controller == s.controller && t.accepting == s.accepting
  {
    hide SendQueue;
    match s.state
    case MasterSelectAckReceive => QueueCounters(s.(enqNak := 0));
    case MasterInfoAckReceive => QueueCounters(s.(timer := false, infoNak := 0));
    case _ =>
  }

  lemma QueueCounters(s: Station)
    ensures
      var t := SendQueue(s).st;
      t == s.(state := t.state, last := t.last, outQ := t.outQ, fault := t.fault)
  {
  }

  /** The poll, by the bytes it writes: only an idle controller says anything. */
  lemma PollExactly(s: Station)
    ensures
      var r := Poll(s);
      if !s.controller || s.state != Neutral then r == Reaction(s, [])
      else if s.outQ == [] then
        && PrintAll(r.sent) == [4] + [98, 114, 97, 118, 111, 5] && r.st == s.(state := SlaveSelectReceive)
      else
        && PrintAll(r.sent) == [4] + [97, 108, 112, 104, 97, 5] + [98, 114, 97, 118, 111, 5]
        && r.st == s.(state := MasterSelectAckReceive, timer := true)
  {
    hide Print, PrintAll;
    NamesPrinted();
    PrintAllThree(EOT_MSG, ENQ_ALPHA, ENQ_BRAVO);
    PrintAllThree(EOT_MSG, ENQ_BRAVO, ENQ_BRAVO);
  }

  /** The no-response timer gives the session up with an EOT and changes nothing else. */
  lemma TimeoutExactly(s: Station)
    ensures PrintAll(Timeout(s).sent) == [4] && Timeout(s).st == s.(state := Neutral, timer := false)
  {
    NamesPrinted();
  }
}
