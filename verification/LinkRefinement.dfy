/**
 The two-station system with bytes on the lines: what is written is printed, the lines deliver
 chunks of any size up to the read buffer, and each station parses what it has.  Every run of
 it follows a noise-free run of the message-level system, provided that the enqueued messages
 survive printing (`InfoOk`).
 */
module LinkRefinement {
  import opened Bytes
  import opened LinkMessage
  import opened LinkStream
  import opened LinkStation
  import opened LinkSystem
  import opened LinkTheorems

  datatype ByteSys = ByteSys(
    alpha: Station,
    bravo: Station,
    bufA: seq<Byte>,      // alpha's unparsed input
    bufB: seq<Byte>,      // bravo's unparsed input
    ab: seq<Byte>,        // bytes on the line from alpha to bravo
    ba: seq<Byte>,        // bytes on the line from bravo to alpha
    enqA: seq<Msg>,
    gotB: seq<Msg>)

  datatype ByteStep =
    | PutA(header: seq<Byte>, body: seq<Byte>)
    | PutB(header: seq<Byte>, body: seq<Byte>)
    | GetA
    | GetB
    | PollTimer
    | ReadA(n: nat)
    | ReadB(n: nat)
    | ResponseTimer

  const BYTE_IDLE := ByteSys(Initial(true), Initial(false), [], [], [], [], [], [])

  /** A read returns at most what the line holds and the read buffer can take. */
  function Available(n: nat, line: seq<Byte>): nat {
    var k := if n < RAW_READ_BUFFER_SIZE then n else RAW_READ_BUFFER_SIZE;
    if k < |line| then k else |line|
  }

  function ByteApply(b: ByteSys, e: ByteStep): ByteSys {
    if b.alpha.fault != NoFault || b.bravo.fault != NoFault then b
    else
      match e
      case PutA(h, t) => b.(alpha := Enqueue(b.alpha, h, t), enqA := b.enqA + [InfoMsg(h, t)])
      case PutB(h, t) => b.(bravo := Enqueue(b.bravo, h, t))
      case GetA => b.(alpha := TakeNext(b.alpha))
      case GetB => b.(bravo := TakeNext(b.bravo), gotB := b.gotB + Taken(b.bravo))
      case PollTimer =>
        var r := Poll(b.alpha);
        b.(alpha := r.st, ab := b.ab + PrintAll(r.sent))
      case ReadA(n) =>
        var k := Available(n, b.ba);
        var r := Drain(b.alpha, b.bufA + b.ba[..k]);
        b.(alpha := r.st, bufA := r.buf, ba := b.ba[k..], ab := b.ab + PrintAll(r.sent))
      case ReadB(n) =>
        var k := Available(n, b.ab);
        var r := Drain(b.bravo, b.bufB + b.ab[..k]);
        b.(bravo := r.st, bufB := r.buf, ab := b.ab[k..], ba := b.ba + PrintAll(r.sent))
      case ResponseTimer =>
        if b.alpha.timer && b.bufB + b.ab == [] && b.bufA + b.ba == [] then
          var r := Timeout(b.alpha);
          b.(alpha := r.st, ab := b.ab + PrintAll(r.sent))
        else b
  }

  function ByteRun(b: ByteSys, steps: seq<ByteStep>): ByteSys
    decreases |steps|
  {
    if steps == [] then b else ByteRun(ByteApply(b, steps[0]), steps[1..])
  }

  predicate PayloadsOk(steps: seq<ByteStep>) {
    forall i :: 0 <= i < |steps| && (steps[i].PutA? || steps[i].PutB?) ==> InfoOk(steps[i].header, steps[i].body)
  }

  /* ---------- the refinement relation ---------- */

  /** All that the station may still send survives printing. */
  predicate QueueOk(s: Station) {
    AllSendable(s.outQ) && (s.state == MasterInfoAckReceive ==> Sendable(s.last))
  }

  /** The bytes a reader has kept, then those on its line, are the printed messages of the link. */
  predicate LineRel(buf: seq<Byte>, line: seq<Byte>, link: seq<Msg>) {
    AllSendable(link) && buf + line == PrintAll(link)
  }

  predicate Rel(b: ByteSys, m: Sys) {
    && m.alpha == b.alpha && m.bravo == b.bravo && b.enqA == m.enqA && b.gotB == m.gotB
    && LineRel(b.bufB, b.ab, m.ab) && LineRel(b.bufA, b.ba, m.ba)
    && QueueOk(b.alpha) && QueueOk(b.bravo)
  }

  /** Both stations have parsed all they can. */
  predicate AllParsed(b: ByteSys) {
    Waiting(b.bufA) && Waiting(b.bufB)
  }

  lemma NamesSendable()
    ensures Sendable(ENQ_ALPHA) && Sendable(ENQ_BRAVO) && Sendable(EOT_MSG) && Sendable(ACK_MSG) && Sendable(NAK_MSG)
  {
  }

  lemma SendQueueSendable(s: Station)
    requires AllSendable(s.outQ)
    ensures QueueOk(SendQueue(s).st) && AllSendable(SendQueue(s).sent)
  {
    NamesSendable();
    hide Sendable;
  }

  lemma SelectSendable(s: Station, m: Msg)
    requires QueueOk(s)
    ensures QueueOk(InMasterSelectAckReceive(s, m).st) && AllSendable(InMasterSelectAckReceive(s, m).sent)
  {
    SendQueueSendable(s.(enqNak := 0));
    hide SendQueue, Sendable;
  }

  lemma InfoSendable(s: Station, m: Msg)
    requires QueueOk(s) && s.state == MasterInfoAckReceive
    ensures QueueOk(InMasterInfoAckReceive(s, m).st) && AllSendable(InMasterInfoAckReceive(s, m).sent)
  {
    SendQueueSendable(s.(timer := false, infoNak := 0));
    NamesSendable();
    hide SendQueue, Sendable, QueueOk;
    if m.typ != Ack {
      QueueKept(s, InMasterInfoAckReceive(s, m).st);
    }
  }

  lemma QueueKept(s: Station, t: Station)
    requires QueueOk(s) && (t.outQ == s.outQ || t.outQ == [])
    requires t.state == MasterInfoAckReceive ==> s.state == t.state && t.last == s.last
    ensures QueueOk(t)
    ensures s.state == MasterInfoAckReceive ==> Sendable(s.last)
  {
    hide Sendable;
  }

  lemma SlaveSendable(s: Station, m: Msg)
    requires QueueOk(s) && s.state != MasterInfoAckReceive
    ensures QueueOk(InNeutral(s, m).st) && AllSendable(InNeutral(s, m).sent)
    ensures QueueOk(InSlaveSelectReceive(s, m).st) && AllSendable(InSlaveSelectReceive(s, m).sent)
    ensures QueueOk(InSlaveInfoReceive(s, m).st) && AllSendable(InSlaveInfoReceive(s, m).sent)
  {
    NamesSendable();
    hide Sendable;
  }

  lemma HandleSendable(s: Station, m: Msg)
    requires QueueOk(s)
    ensures QueueOk(Handle(s, m).st) && AllSendable(Handle(s, m).sent)
  {
    hide InNeutral, InSlaveSelectReceive, InSlaveInfoReceive, InMasterSelectAckReceive, InMasterInfoAckReceive;
    hide Sendable;
    if s.state == MasterInfoAckReceive {
      InfoSendable(s, m);
    } else {
      SelectSendable(s, m);
      SlaveSendable(s, m);
    }
  }

  lemma LineGrows(buf: seq<Byte>, line: seq<Byte>, link: seq<Msg>, sent: seq<Msg>)
    requires LineRel(buf, line, link) && AllSendable(sent)
    ensures LineRel(buf, line + PrintAll(sent), link + sent)
  {
    PrintAllAppend(link, sent);
    Assoc(buf, line, PrintAll(sent));
  }

  /* ---------- reading ---------- */

  lemma RunMore(s: Sys, e: Step, k: nat)
    ensures Run(s, seq(k + 1, _ => e)) == Run(Apply(s, e), seq(k, _ => e))
  {
    assert seq(k + 1, _ => e)[1..] == seq(k, _ => e);
  }

  /** One parsed message at bravo is one delivery at the message level. */
  lemma ReadOneB(b: ByteSys, m: Sys, h: Reaction, rest: seq<Byte>)
    requires Rel(b, m) && m.ab != [] && b.bravo.fault == NoFault && b.alpha.fault == NoFault
    requires h == Handle(b.bravo, m.ab[0]) && LineRel(rest, b.ab, m.ab[1..])
    ensures Rel(b.(bravo := h.st, bufB := rest, ba := b.ba + PrintAll(h.sent)), Apply(m, DeliverB))
  {
    HandleSendable(b.bravo, m.ab[0]);
    LineGrows(b.bufA, b.ba, m.ba, h.sent);
    var t := Apply(m, DeliverB);
    assert t.bravo == h.st && t.ab == m.ab[1..] && t.ba == m.ba + h.sent && t.alpha == m.alpha;
  }

  lemma ReadOneA(b: ByteSys, m: Sys, h: Reaction, rest: seq<Byte>)
    requires Rel(b, m) && m.ba != [] && b.bravo.fault == NoFault && b.alpha.fault == NoFault
    requires h == Handle(b.alpha, m.ba[0]) && LineRel(rest, b.ba, m.ba[1..])
    ensures Rel(b.(alpha := h.st, bufA := rest, ab := b.ab + PrintAll(h.sent)), Apply(m, DeliverA))
  {
    HandleSendable(b.alpha, m.ba[0]);
    LineGrows(b.bufB, b.ab, m.ab, h.sent);
    var t := Apply(m, DeliverA);
    assert t.alpha == h.st && t.ba == m.ba[1..] && t.ab == m.ab + h.sent && t.bravo == m.bravo;
  }

  lemma CleanIsFaultFree(m: Sys)
    requires Clean(m)
    ensures m.alpha.fault == NoFault && m.bravo.fault == NoFault
  {
  }

  lemma DrainWaits(s: Station, buf: seq<Byte>)
    requires Waiting(buf)
    ensures Drain(s, buf) == Reading(s, buf, [])
  {
  }

  lemma {:induction false} DrainB(b: ByteSys, m: Sys) returns (k: nat)
    requires Rel(b, m) && Clean(m)
    ensures
      var r := Drain(b.bravo, b.bufB);
      var n := Run(m, seq(k, _ => DeliverB));
      Rel(b.(bravo := r.st, bufB := r.buf, ba := b.ba + PrintAll(r.sent)), n) && Clean(n) && Waiting(r.buf)
    decreases |b.bufB|
  {
    hide Clean, Apply, Handle, Print, PrintAll, ParseInput, Waiting, Sendable, QueueOk;
    ParseFront(b.bufB, b.ab, m.ab);
    CleanIsFaultFree(m);
    if m.ab == [] || |b.bufB| < |Print(m.ab[0])| {
      k := 0;
      PrintAllNone();
      DrainWaits(b.bravo, b.bufB);
      assert b.ba + PrintAll([]) == b.ba;
    } else {
      var rest := b.bufB[|Print(m.ab[0])|..];
      PrintNotEmpty(m.ab[0]);
      var h := Handle(b.bravo, m.ab[0]);
      ReadOneB(b, m, h, rest);
      CleanStep(m, DeliverB);
      var j := DrainB(b.(bravo := h.st, bufB := rest, ba := b.ba + PrintAll(h.sent)), Apply(m, DeliverB));
      k := j + 1;
      RunMore(m, DeliverB, j);
      var d := Drain(h.st, rest);
      PrintAllAppend(h.sent, d.sent);
      Assoc(b.ba, PrintAll(h.sent), PrintAll(d.sent));
    }
  }

  lemma {:induction false} DrainA(b: ByteSys, m: Sys) returns (k: nat)
    requires Rel(b, m) && Clean(m)
    ensures
      var r := Drain(b.alpha, b.bufA);
      var n := Run(m, seq(k, _ => DeliverA));
      Rel(b.(alpha := r.st, bufA := r.buf, ab := b.ab + PrintAll(r.sent)), n) && Clean(n) && Waiting(r.buf)
    decreases |b.bufA|
  {
    hide Clean, Apply, Handle, Print, PrintAll, ParseInput, Waiting, Sendable, QueueOk;
    ParseFront(b.bufA, b.ba, m.ba);
    CleanIsFaultFree(m);
    if m.ba == [] || |b.bufA| < |Print(m.ba[0])| {
      k := 0;
      PrintAllNone();
      DrainWaits(b.alpha, b.bufA);
      assert b.ab + PrintAll([]) == b.ab;
    } else {
      var rest := b.bufA[|Print(m.ba[0])|..];
      PrintNotEmpty(m.ba[0]);
      var h := Handle(b.alpha, m.ba[0]);
      ReadOneA(b, m, h, rest);
      CleanStep(m, DeliverA);
      var j := DrainA(b.(alpha := h.st, bufA := rest, ab := b.ab + PrintAll(h.sent)), Apply(m, DeliverA));
      k := j + 1;
      RunMore(m, DeliverA, j);
      var d := Drain(h.st, rest);
      PrintAllAppend(h.sent, d.sent);
      Assoc(b.ab, PrintAll(h.sent), PrintAll(d.sent));
    }
  }

  /* ---------- every byte-level step ---------- */

  lemma SimulateReadB(b: ByteSys, m: Sys, e: ByteStep) returns (steps: seq<Step>)
    requires Rel(b, m) && Clean(m) && AllParsed(b) && e.ReadB?
    ensures steps == seq(|steps|, _ => DeliverB)
    ensures NoNoise(steps) && Clean(Run(m, steps))
    ensures Rel(ByteApply(b, e), Run(m, steps)) && AllParsed(ByteApply(b, e))
  {
    hide Clean, Drain, Waiting, Apply;
    CleanIsFaultFree(m);
    var n := Available(e.n, b.ab);
    Assoc(b.bufB, b.ab[..n], b.ab[n..]);
    assert b.ab[..n] + b.ab[n..] == b.ab;
    var c := b.(bufB := b.bufB + b.ab[..n], ab := b.ab[n..]);
    var k := DrainB(c, m);
    steps := seq(k, _ => DeliverB);
  }

  lemma SimulateReadA(b: ByteSys, m: Sys, e: ByteStep) returns (steps: seq<Step>)
    requires Rel(b, m) && Clean(m) && AllParsed(b) && e.ReadA?
    ensures steps == seq(|steps|, _ => DeliverA)
    ensures NoNoise(steps) && Clean(Run(m, steps))
    ensures Rel(ByteApply(b, e), Run(m, steps)) && AllParsed(ByteApply(b, e))
  {
    hide Clean, Drain, Waiting, Apply;
    CleanIsFaultFree(m);
    var n := Available(e.n, b.ba);
    Assoc(b.bufA, b.ba[..n], b.ba[n..]);
    assert b.ba[..n] + b.ba[n..] == b.ba;
    var c := b.(bufA := b.bufA + b.ba[..n], ba := b.ba[n..]);
    var k := DrainA(c, m);
    steps := seq(k, _ => DeliverA);
  }

  lemma RunOne(s: Sys, e: Step)
    ensures Run(s, [e]) == Apply(s, e)
  {
  }

  lemma PrintAllEmpty(link: seq<Msg>)
    requires AllSendable(link)
    ensures PrintAll(link) == [] <==> link == []
  {
  }

  /** The message-level step behind a step that is not a read. */
  function StepOf(e: ByteStep): Step {
    match e
    case PutA(h, t) => EnqueueA(h, t)
    case PutB(h, t) => EnqueueB(h, t)
    case GetA => TakeA
    case GetB => TakeB
    case PollTimer => PollA
    case _ => NoResponse
  }

  lemma SimulateOther(b: ByteSys, m: Sys, e: ByteStep)
    requires Rel(b, m) && !e.ReadA? && !e.ReadB?
    requires e.PutA? || e.PutB? ==> InfoOk(e.header, e.body)
    ensures Rel(ByteApply(b, e), Apply(m, StepOf(e)))
    ensures AllParsed(b) ==> AllParsed(ByteApply(b, e))
  {
    NamesSendable();
    hide Print, PrintAll, InfoOk;
    if e.PutA? || e.PutB? {
      assert Sendable(InfoMsg(e.header, e.body));
    } else if e.PollTimer? {
      SimulatePoll(b, m);
    } else if e.ResponseTimer? {
      PrintAllEmpty(m.ab);
      PrintAllEmpty(m.ba);
      LineGrows(b.bufB, b.ab, m.ab, [EOT_MSG]);
    }
  }

  lemma SimulatePoll(b: ByteSys, m: Sys)
    requires Rel(b, m)
    ensures Rel(ByteApply(b, PollTimer), Apply(m, PollA))
  {
    NamesSendable();
    hide Print, PrintAll, Sendable;
    var r := Poll(b.alpha);
    assert AllSendable(r.sent) && QueueOk(r.st);
    LineGrows(b.bufB, b.ab, m.ab, r.sent);
  }

  lemma RunAppend(s: Sys, a: seq<Step>, b: seq<Step>)
    ensures Run(s, a + b) == Run(Run(s, a), b)
    decreases |a|
  {
    if a == [] {
      assert a + b == b;
    } else {
      assert (a + b)[1..] == a[1..] + b;
      RunAppend(Apply(s, a[0]), a[1..], b);
    }
  }

  lemma SimulateStep(b: ByteSys, m: Sys, e: ByteStep) returns (steps: seq<Step>)
    requires Rel(b, m) && Clean(m) && AllParsed(b) && PayloadsOk([e])
    ensures NoNoise(steps) && Clean(Run(m, steps))
    ensures Rel(ByteApply(b, e), Run(m, steps)) && AllParsed(ByteApply(b, e))
  {
    if e.ReadA? {
      steps := SimulateReadA(b, m, e);
    } else if e.ReadB? {
      steps := SimulateReadB(b, m, e);
    } else {
      assert [e][0] == e;
      SimulateOther(b, m, e);
      CleanStep(m, StepOf(e));
      RunOne(m, StepOf(e));
      steps := [StepOf(e)];
    }
  }

  lemma {:induction false} SimulateRun(b: ByteSys, m: Sys, bytes: seq<ByteStep>) returns (steps: seq<Step>)
    requires Rel(b, m) && Clean(m) && AllParsed(b) && PayloadsOk(bytes)
    ensures NoNoise(steps) && Clean(Run(m, steps))
    ensures Rel(ByteRun(b, bytes), Run(m, steps)) && AllParsed(ByteRun(b, bytes))
    decreases |bytes|
  {
    hide Rel, Clean, AllParsed, ByteApply, Apply;
    steps := [];
    if bytes != [] {
      var first := SimulateStep(b, m, bytes[0]);
      var later := SimulateRun(ByteApply(b, bytes[0]), Run(m, first), bytes[1..]);
      RunAppend(m, first, later);
      steps := first + later;
    }
  }

  /** Refinement: every run over bytes, however the reads cut them, follows a run over messages. */
  lemma Refinement(bytes: seq<ByteStep>) returns (steps: seq<Step>)
    requires PayloadsOk(bytes)
    ensures NoNoise(steps) && Clean(Run(IDLE, steps))
    ensures Rel(ByteRun(BYTE_IDLE, bytes), Run(IDLE, steps)) && AllParsed(ByteRun(BYTE_IDLE, bytes))
  {
    steps := SimulateRun(BYTE_IDLE, IDLE, bytes);
  }

  /** What the message level guarantees therefore holds of the bytes. */
  lemma ByteLevelGuarantees(bytes: seq<ByteStep>) returns (fly: seq<Msg>)
    requires PayloadsOk(bytes)
    ensures
      var b := ByteRun(BYTE_IDLE, bytes);
      && b.alpha.fault == NoFault && b.bravo.fault == NoFault
      && !(IsMaster(b.alpha.state) && IsMaster(b.bravo.state))
      && (b.bufB + b.ab == [] || b.bufA + b.ba == [])
      && AllSendable(fly) && b.bufB + b.ab == PrintAll(fly)
      && b.enqA == b.gotB + b.bravo.inQ + InfoPart(fly) + b.alpha.outQ
  {
    var steps := Refinement(bytes);
    var m := Run(IDLE, steps);
    HalfDuplexSafety(steps);
    CleanBalance(m);
    fly := m.ab;
  }

  /** Once the lines are silent again the controller's queue is all that is missing at bravo. */
  lemma ByteLevelDelivery(bytes: seq<ByteStep>)
    requires PayloadsOk(bytes)
    ensures
      var b := ByteRun(BYTE_IDLE, bytes);
      b.bufB + b.ab == [] ==> b.enqA == b.gotB + b.bravo.inQ + b.alpha.outQ
  {
    var fly := ByteLevelGuarantees(bytes);
    PrintAllEmpty(fly);
    var b := ByteRun(BYTE_IDLE, bytes);
    if fly == [] {
      assert b.gotB + b.bravo.inQ + InfoPart(fly) == b.gotB + b.bravo.inQ;
    }
  }

  /* ---------- the buffers, on any payloads ---------- */

  /** Until a handler throws or aborts, both stations keep little enough. */
  predicate BuffersKept(b: ByteSys) {
    b.alpha.fault == NoFault && b.bravo.fault == NoFault ==> Kept(b.bufA) && Kept(b.bufB)
  }

  lemma StepKeepsBuffers(b: ByteSys, e: ByteStep)
    requires BuffersKept(b)
    ensures BuffersKept(ByteApply(b, e))
  {
    hide Kept, Drain, Poll, Timeout, PrintAll;
    if b.alpha.fault == NoFault && b.bravo.fault == NoFault {
      if e.ReadA? {
        ReadKept(b.alpha, b.bufA, b.ba[..Available(e.n, b.ba)]);
      } else if e.ReadB? {
        ReadKept(b.bravo, b.bufB, b.ab[..Available(e.n, b.ab)]);
      }
    }
  }

  /** In every run over bytes, whatever is enqueued, at most 9742 unparsed bytes wait at a station. */
  lemma ByteBuffersBounded(bytes: seq<ByteStep>)
    ensures BuffersKept(ByteRun(BYTE_IDLE, bytes))
  {
    WaitingNone();
    RunKeepsBuffers(BYTE_IDLE, bytes);
  }

  lemma {:induction false} RunKeepsBuffers(b: ByteSys, bytes: seq<ByteStep>)
    requires BuffersKept(b)
    ensures BuffersKept(ByteRun(b, bytes))
    decreases |bytes|
  {
    hide BuffersKept, ByteApply;
    if bytes != [] {
      StepKeepsBuffers(b, bytes[0]);
      RunKeepsBuffers(ByteApply(b, bytes[0]), bytes[1..]);
    }
  }

  /* ---------- sessions over bytes ---------- */

  /** The controller is idle again and bravo has accepted all that was ever enqueued. */
  predicate AllDelivered(s: Sys) {
    s.alpha.state == Neutral && s.alpha.outQ == [] && s.gotB + s.bravo.inQ == s.enqA
  }

  lemma NothingMore(s: Sys, k: nat)
    requires s.ba == []
    ensures Run(s, seq(k, _ => DeliverA)) == s
  {
    hide Apply;
    if k > 0 {
      RunMore(s, DeliverA, k - 1);
      NothingToDeliver(s, DeliverA);
      NothingMore(s, k - 1);
    }
  }

  /** One delivery of a noise-free session: nothing to do, progress, or the end of the session. */
  lemma DeliverInSession(m: Sys, e: Step)
    requires Clean(m) && IsMaster(m.alpha.state) && (e == DeliverA || e == DeliverB)
    ensures
      var t := Apply(m, e);
      && Clean(t)
      && (|| t == m
          || (IsMaster(t.alpha.state) && Rank(t) < Rank(m))
          || (e == DeliverA && AllDelivered(t) && t.ba == []))
  {
    hide Apply, Rank, Inv, Clean;
    CleanInv(m);
    CleanStep(m, e);
    var t := Apply(m, e);
    if t != m {
      SessionStep(m, e);
      if t.alpha.state == Neutral {
        SessionLeft(m, e);
        SessionDeliversAll(m, e);
        LastStep(m);
      }
    }
  }

  lemma {:induction false} DeliverMany(m: Sys, e: Step, k: nat)
    requires Clean(m) && IsMaster(m.alpha.state) && (e == DeliverA || e == DeliverB)
    ensures
      var t := Run(m, seq(k, _ => e));
      && Clean(t)
      && (t == m || (IsMaster(t.alpha.state) && Rank(t) < Rank(m)) || AllDelivered(t))
    decreases k
  {
    hide Apply, Rank, Clean, IsMaster, AllDelivered;
    if k > 0 {
      RunMore(m, e, k - 1);
      DeliverInSession(m, e);
      var t := Apply(m, e);
      if e == DeliverA && AllDelivered(t) && t.ba == [] {
        NothingMore(t, k - 1);
      } else {
        DeliverMany(t, e, k - 1);
      }
    }
  }

  /** A read that returns at least one byte. */
  predicate Reads(b: ByteSys, e: ByteStep) {
    (e.ReadA? && Available(e.n, b.ba) > 0) || (e.ReadB? && Available(e.n, b.ab) > 0)
  }

  /** The bytes that neither station has read yet. */
  function Unread(b: ByteSys): nat {
    |b.ab| + |b.ba|
  }

  lemma UnreadShrinks(b: ByteSys, m: Sys, e: ByteStep)
    requires Rel(b, m) && Rel(ByteApply(b, e), m) && Reads(b, e)
    requires b.alpha.fault == NoFault && b.bravo.fault == NoFault
    ensures Unread(ByteApply(b, e)) < Unread(b)
  {
    hide Drain, QueueOk, PrintAll, AllSendable;
    var c := ByteApply(b, e);
    if e.ReadA? {
      assert c.bufB == b.bufB;
      CancelFront(b.bufB, b.ab, c.ab);
    } else {
      assert c.bufA == b.bufA;
      CancelFront(b.bufA, b.ba, c.ba);
    }
  }

  /** Every read of a session ends it, lowers its rank, or leaves fewer bytes unread. */
  lemma ReadInSession(b: ByteSys, m: Sys, e: ByteStep) returns (t: Sys)
    requires Rel(b, m) && Clean(m) && AllParsed(b) && IsMaster(m.alpha.state) && Reads(b, e)
    ensures Rel(ByteApply(b, e), t) && Clean(t) && AllParsed(ByteApply(b, e))
    ensures
      || AllDelivered(t)
      || (IsMaster(t.alpha.state) && Rank(t) < Rank(m))
      || (t == m && Unread(ByteApply(b, e)) < Unread(b))
  {
    hide Clean, Rel, AllParsed, ByteApply, Rank, IsMaster, AllDelivered, Unread, Apply, Run;
    var steps: seq<Step>;
    if e.ReadA? {
      steps := SimulateReadA(b, m, e);
      DeliverMany(m, DeliverA, |steps|);
    } else {
      steps := SimulateReadB(b, m, e);
      DeliverMany(m, DeliverB, |steps|);
    }
    t := Run(m, steps);
    if t == m {
      CleanIsFaultFree(m);
      RelStations(b, m);
      UnreadShrinks(b, m, e);
    }
  }

  lemma RelStations(b: ByteSys, m: Sys)
    requires Rel(b, m)
    ensures b.alpha == m.alpha && b.bravo == m.bravo && b.enqA == m.enqA && b.gotB == m.gotB
  {
  }

  /** In a session some line always has bytes to read. */
  lemma ByteSessionProgress(bytes: seq<ByteStep>)
    requires PayloadsOk(bytes) && IsMaster(ByteRun(BYTE_IDLE, bytes).alpha.state)
    ensures
      var b := ByteRun(BYTE_IDLE, bytes);
      Reads(b, ReadA(1)) || Reads(b, ReadB(1))
  {
    var b := ByteRun(BYTE_IDLE, bytes);
    hide ByteRun, Run, Clean, Inv, IsMaster, Print, PrintAll, Waiting, Sendable;
    var steps := Refinement(bytes);
    var m := Run(IDLE, steps);
    CleanInv(m);
    SessionProgress(m);
    if m.ab != [] {
      LineNotEmpty(b.bufB, b.ab, m.ab);
    } else {
      LineNotEmpty(b.bufA, b.ba, m.ba);
    }
  }

  lemma LineNotEmpty(buf: seq<Byte>, line: seq<Byte>, link: seq<Msg>)
    requires LineRel(buf, line, link) && Waiting(buf) && link != []
    ensures line != []
  {
    ParseFront(buf, line, link);
  }

  /** The state after `n` steps of an endless schedule. */
  ghost function Trace(b: ByteSys, f: nat -> ByteStep, n: nat): ByteSys {
    if n == 0 then b else ByteApply(Trace(b, f, n - 1), f(n - 1))
  }

  lemma {:induction false} SessionFrom(b: ByteSys, f: nat -> ByteStep, i: nat, m: Sys) returns (n: nat)
    requires Rel(Trace(b, f, i), m) && Clean(m) && AllParsed(Trace(b, f, i)) && IsMaster(m.alpha.state)
    requires forall j: nat :: Trace(b, f, j).alpha.state == Neutral || Reads(Trace(b, f, j), f(j))
    ensures
      var c := Trace(b, f, n);
      c.alpha.state == Neutral && c.alpha.outQ == [] && c.enqA == c.gotB + c.bravo.inQ
    decreases Rank(m), Unread(Trace(b, f, i))
  {
    hide Rel, Clean, AllParsed, ByteApply, Rank, IsMaster, Reads, Unread;
    var now := Trace(b, f, i);
    RelStations(now, m);
    MasterNotNeutral(m);
    var t := ReadInSession(now, m, f(i));
    var next := Trace(b, f, i + 1);
    assert next == ByteApply(now, f(i));
    RelStations(next, t);
    if AllDelivered(t) {
      n := i + 1;
    } else {
      n := SessionFrom(b, f, i + 1, t);
    }
  }

  /**
   A session over bytes: whatever has happened before, and however the reads that follow cut the
   lines, as long as each returns something, the controller comes back to NEUTRAL with an empty
   queue and bravo has accepted everything ever enqueued.
   */
  lemma ByteSessionCompletes(bytes: seq<ByteStep>, f: nat -> ByteStep) returns (n: nat)
    requires PayloadsOk(bytes) && IsMaster(ByteRun(BYTE_IDLE, bytes).alpha.state)
    requires
      var b := ByteRun(BYTE_IDLE, bytes);
      forall j: nat :: Trace(b, f, j).alpha.state == Neutral || Reads(Trace(b, f, j), f(j))
    ensures
      var c := Trace(ByteRun(BYTE_IDLE, bytes), f, n);
      c.alpha.state == Neutral && c.alpha.outQ == [] && c.enqA == c.gotB + c.bravo.inQ
  {
    hide ByteRun, Run, Rel, Clean, AllParsed, ByteApply, IsMaster, Reads;
    var b := ByteRun(BYTE_IDLE, bytes);
    var steps := Refinement(bytes);
    var m := Run(IDLE, steps);
    RelStations(b, m);
    assert Trace(b, f, 0) == b;
    n := SessionFrom(b, f, 0, m);
  }
}
