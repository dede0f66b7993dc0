/**
 Two stations joined by two FIFO links: the controller "alpha" and its peer "bravo".
 A run is any list of steps: the applications enqueue and take messages, the poll timer of the
 controller fires, a link delivers its oldest message, noise spoils an INFO message in flight,
 or the no-response timer fires.

 The environment is a timely one: the no-response timer may fire only when nothing is in flight
 in either direction.
 */
module LinkSystem {
  import opened Bytes
  import opened LinkMessage
  import opened LinkStation

  /**
   The history of one message that the controller has taken off its output queue: how often it
   was put on the line, how many NAKs it met, how often bravo accepted it, and the value of the
   controller's NAK counter when it was taken off the queue.
   */
  datatype Attempt = Attempt(msg: Msg, base: nat, tries: nat, naks: nat, accepts: nat)

  /** The stations and links, and what an observer has noted so far. */
  datatype Sys = Sys(
    alpha: Station,
    bravo: Station,
    ab: seq<Msg>,         // in flight from alpha to bravo, oldest first
    ba: seq<Msg>,         // in flight from bravo to alpha
    enqA: seq<Msg>,       // everything ever enqueued at alpha
    enqB: seq<Msg>,       // everything ever enqueued at bravo
    gotA: seq<Msg>,       // everything taken from alpha's input queue
    gotB: seq<Msg>,       // everything taken from bravo's input queue
    log: seq<Attempt>)    // one entry for every message alpha has taken off its output queue

  datatype Step =
    | EnqueueA(header: seq<Byte>, body: seq<Byte>)
    | EnqueueB(header: seq<Byte>, body: seq<Byte>)
    | TakeA
    | TakeB
    | PollA
    | DeliverA
    | DeliverB
    | Noise(toBravo: bool, at: nat)
    | NoResponse

  const IDLE := Sys(Initial(true), Initial(false), [], [], [], [], [], [], [])

  /** How many INFO messages are among those written. */
  function Infos(ms: seq<Msg>): nat {
    if ms == [] then 0 else (if ms[0].typ == Info then 1 else 0) + Infos(ms[1..])
  }

  /** Noise leaves of an INFO message only something the parser rejects. */
  function Spoil(link: seq<Msg>, i: nat): (r: seq<Msg>)
    ensures |r| == |link|
  {
    if i < |link| && link[i].typ == Info then link[i := Simple(Malformed, [])] else link
  }

  /** Note what alpha did on receiving `m`: a new entry, or another try or NAK on the newest. */
  function NoteAlpha(log: seq<Attempt>, before: Station, m: Msg, r: Reaction): seq<Attempt> {
    if |r.st.outQ| < |before.outQ| then
      log + [Attempt(before.outQ[0], r.st.infoNak, Infos(r.sent), 0, 0)]
    else if log == [] then log
    else
      var e := log[|log| - 1];
      var nak := if m.typ == Nak && before.state == MasterInfoAckReceive then 1 else 0;
      log[|log| - 1 := e.(tries := e.tries + Infos(r.sent), naks := e.naks + nak)]
  }

  /** Note an acceptance by bravo. */
  function NoteBravo(log: seq<Attempt>, before: Station, after: Station): seq<Attempt> {
    if |after.inQ| > |before.inQ| && log != [] then
      var e := log[|log| - 1];
      log[|log| - 1 := e.(accepts := e.accepts + 1)]
    else log
  }

  /** One step; a delivery from an empty link, or a step after a fault, changes nothing. */
  function Apply(s: Sys, e: Step): Sys {
    if s.alpha.fault != NoFault || s.bravo.fault != NoFault then s
    else
      match e
      case EnqueueA(h, b) => s.(alpha := Enqueue(s.alpha, h, b), enqA := s.enqA + [InfoMsg(h, b)])
      case EnqueueB(h, b) => s.(bravo := Enqueue(s.bravo, h, b), enqB := s.enqB + [InfoMsg(h, b)])
      case TakeA => s.(alpha := TakeNext(s.alpha), gotA := s.gotA + Taken(s.alpha))
      case TakeB => s.(bravo := TakeNext(s.bravo), gotB := s.gotB + Taken(s.bravo))
      case PollA =>
        var r := Poll(s.alpha);
        s.(alpha := r.st, ab := s.ab + r.sent)
      case DeliverA =>
        if s.ba == [] then s
        else
          var r := Handle(s.alpha, s.ba[0]);
          s.(alpha := r.st, ab := s.ab + r.sent, ba := s.ba[1..], log := NoteAlpha(s.log, s.alpha, s.ba[0], r))
      case DeliverB =>
        if s.ab == [] then s
        else
          var r := Handle(s.bravo, s.ab[0]);
          s.(bravo := r.st, ba := s.ba + r.sent, ab := s.ab[1..], log := NoteBravo(s.log, s.bravo, r.st))
      case Noise(toBravo, i) =>
        if toBravo then s.(ab := Spoil(s.ab, i)) else s.(ba := Spoil(s.ba, i))
      case NoResponse =>
        if s.alpha.timer && s.ab == [] && s.ba == [] then
          var r := Timeout(s.alpha);
          s.(alpha := r.st, ab := s.ab + r.sent)
        else s
  }

  function Run(s: Sys, steps: seq<Step>): Sys
    decreases |steps|
  {
    if steps == [] then s else Run(Apply(s, steps[0]), steps[1..])
  }

  /* ---------- the invariant ---------- */

  /** What a poll puts on the line behind an EOT that may still be under way. */
  const SELECT: seq<Msg> := [EOT_MSG, EOT_MSG, ENQ_ALPHA, ENQ_BRAVO]
  const INVITE: seq<Msg> := [EOT_MSG, EOT_MSG, ENQ_BRAVO]

  /** Where bravo stands while `n` messages of an opening are still to arrive. */
  predicate Opening(bravo: State, n: nat, opening: seq<Msg>, ab: seq<Msg>) {
    && n <= |opening| && ab == opening[|opening| - n..]
    && bravo ==
       if n == |opening| then SlaveInfoReceive
       else if opening == SELECT && n == 1 then SlaveSelectReceive
       else Neutral
  }

  /** The configurations of the two stations and the links. */
  predicate Wire(s: Sys) {
    match s.alpha.state
    case Neutral =>
      && s.ba == []
      && ((s.bravo.state == Neutral && s.ab == []) || (s.bravo.state == SlaveInfoReceive && s.ab == [EOT_MSG]))
    case MasterSelectAckReceive =>
      || (s.ba == [] && |s.ab| > 0 && Opening(s.bravo.state, |s.ab|, SELECT, s.ab))
      || (s.ab == [] && s.ba == [ACK_MSG] && s.bravo.state == SlaveInfoReceive)
    case MasterInfoAckReceive =>
      && s.bravo.state == SlaveInfoReceive
      && (|| (s.ba == [] && (s.ab == [s.alpha.last] || s.ab == [Simple(Malformed, [])]))
          || (s.ab == [] && (s.ba == [ACK_MSG] || s.ba == [NAK_MSG])))
    case SlaveSelectReceive =>
      || (s.ba == [] && |s.ab| > 0 && Opening(s.bravo.state, |s.ab|, INVITE, s.ab))
      || (s.ab == [] && s.ba == [EOT_MSG] && s.bravo.state == Neutral)
      || (s.ab == [] && s.ba == [ENQ_ALPHA] && s.bravo.state == MasterSelectAckReceive)
      || Wedged(s)
    case _ => false
  }

  /** Each station waits for the other, and nothing is on the way. */
  predicate Wedged(s: Sys) {
    && s.alpha.state == SlaveSelectReceive && s.bravo.state == MasterSelectAckReceive
    && s.ab == [] && s.ba == [] && !s.alpha.timer
  }

  predicate AllInfo(ms: seq<Msg>) {
    forall i :: 0 <= i < |ms| ==> ms[i].typ == Info
  }

  predicate Roles(s: Sys) {
    && s.alpha.fault == NoFault && s.bravo.fault == NoFault
    && s.alpha.controller && !s.bravo.controller && s.bravo.accepting
    && AllInfo(s.alpha.outQ) && AllInfo(s.bravo.outQ)
    && (s.alpha.state == MasterSelectAckReceive ==> s.alpha.outQ != [])
    && (s.bravo.state == MasterSelectAckReceive ==> s.bravo.outQ != [])
    && (s.alpha.timer ==> s.alpha.state == MasterSelectAckReceive || s.alpha.state == MasterInfoAckReceive)
    && s.gotA == [] && s.alpha.inQ == [] && s.enqB == s.bravo.outQ
  }

  function Msgs(log: seq<Attempt>): seq<Msg> {
    if log == [] then [] else Msgs(log[..|log| - 1]) + [log[|log| - 1].msg]
  }

  /** The messages of `log` that bravo accepted, in order. */
  function Accepted(log: seq<Attempt>): seq<Msg> {
    if log == [] then []
    else
      var e := log[|log| - 1];
      Accepted(log[..|log| - 1]) + if e.accepts > 0 then [e.msg] else []
  }

  /** The NAK counter with which the message after `log` starts. */
  function Carry(log: seq<Attempt>): nat {
    if log == [] then 0
    else
      var e := log[|log| - 1];
      if e.accepts > 0 then 0 else e.base + e.naks
  }

  /** A message on which alpha has given its verdict: accepted once, or given up at the limit. */
  predicate Settled(e: Attempt) {
    || (e.accepts == 1 && e.tries == e.naks + 1 && (e.naks == 0 || e.base + e.naks < MAX_INFO_TRIES))
    || (e.accepts == 0 && e.tries == e.naks >= 1 && e.base + e.naks >= MAX_INFO_TRIES
        && (e.naks == 1 || e.base + e.naks == MAX_INFO_TRIES))
  }

  predicate GoodLog(log: seq<Attempt>) {
    log == [] ||
    var rest, e := log[..|log| - 1], log[|log| - 1];
    GoodLog(rest) && Settled(e) && e.base == Carry(rest)
  }

  /** The entry of the message that alpha is waiting to see answered. */
  predicate Pending(s: Sys) {
    && s.log != []
    && var rest, e := s.log[..|s.log| - 1], s.log[|s.log| - 1];
       && GoodLog(rest) && e.base == Carry(rest)
       && e.msg == s.alpha.last && e.msg.typ == Info
       && s.alpha.infoNak == e.base + e.naks && e.tries == e.naks + 1
       && (e.naks == 0 || e.base + e.naks < MAX_INFO_TRIES)
       && e.accepts == if s.ba == [ACK_MSG] then 1 else 0
  }

  predicate Books(s: Sys) {
    && s.enqA == Msgs(s.log) + s.alpha.outQ
    && s.gotB + s.bravo.inQ == Accepted(s.log)
    && (if s.alpha.state == MasterInfoAckReceive then Pending(s)
        else GoodLog(s.log) && s.alpha.infoNak == Carry(s.log))
  }

  predicate Inv(s: Sys) {
    Wire(s) && Roles(s) && Books(s)
  }

  /* ---------- every step keeps it ---------- */

  lemma KeepEnqueue(s: Sys, e: Step)
    requires Inv(s) && (e.EnqueueA? || e.EnqueueB?)
    ensures Inv(Apply(s, e))
  {
    var t := Apply(s, e);
    Assoc(Msgs(s.log), s.alpha.outQ, [InfoMsg(e.header, e.body)]);
    assert Books(t);
    assert Wire(t);
  }

  lemma KeepTake(s: Sys, e: Step)
    requires Inv(s) && (e.TakeA? || e.TakeB?)
    ensures Inv(Apply(s, e))
  {
    if e.TakeB? && s.bravo.inQ != [] {
      assert s.bravo.inQ[..1] + s.bravo.inQ[1..] == s.bravo.inQ;
      assert (s.gotB + s.bravo.inQ[..1]) + s.bravo.inQ[1..] == s.gotB + s.bravo.inQ;
    }
  }

  /** Outside an information transfer the books depend only on what they mention. */
  lemma SameBooks(s: Sys, t: Sys)
    requires Books(s) && s.alpha.state != MasterInfoAckReceive && t.alpha.state != MasterInfoAckReceive
    requires t.enqA == s.enqA && t.alpha.outQ == s.alpha.outQ && t.log == s.log
    requires t.gotB == s.gotB && t.bravo.inQ == s.bravo.inQ && t.alpha.infoNak == s.alpha.infoNak
    ensures Books(t)
  {
  }

  lemma KeepPoll(s: Sys)
    requires Inv(s)
    ensures Inv(Apply(s, PollA))
  {
    if s.alpha.state == Neutral {
      if s.alpha.outQ != [] {
        OpenSelect(s);
      } else {
        OpenInvite(s);
      }
    }
  }

  /** What a poll of the idle controller puts on the line. */
  lemma PollSends(s: Sys)
    requires Roles(s) && s.alpha.state == Neutral
    ensures Apply(s, PollA) ==
            if s.alpha.outQ != [] then
              s.(alpha := s.alpha.(state := MasterSelectAckReceive, timer := true), ab := s.ab + SELECT[1..])
            else s.(alpha := s.alpha.(state := SlaveSelectReceive), ab := s.ab + INVITE[1..])
  {
    assert SELECT[1..] == [EOT_MSG, ENQ_ALPHA, ENQ_BRAVO] && INVITE[1..] == [EOT_MSG, ENQ_BRAVO];
  }

  /** ... behind an EOT that may still be under way. */
  lemma Opened(bravo: State, opening: seq<Msg>, ab: seq<Msg>, t: seq<Msg>)
    requires opening == SELECT || opening == INVITE
    requires (bravo == Neutral && ab == []) || (bravo == SlaveInfoReceive && ab == [EOT_MSG])
    requires t == ab + opening[1..]
    ensures |t| > 0 && Opening(bravo, |t|, opening, t)
  {
    assert opening[0] == EOT_MSG && |opening| >= 3;
    if ab == [] {
      assert t == opening[1..];
    } else {
      assert t == opening == opening[0..];
    }
  }

  lemma OpenSelect(s: Sys)
    requires Inv(s) && s.alpha.state == Neutral && s.alpha.outQ != []
    ensures Inv(Apply(s, PollA))
  {
    hide Apply, Books, Opening;
    PollSends(s);
    var t := Apply(s, PollA);
    SameBooks(s, t);
    Opened(s.bravo.state, SELECT, s.ab, t.ab);
  }

  lemma OpenInvite(s: Sys)
    requires Inv(s) && s.alpha.state == Neutral && s.alpha.outQ == []
    ensures Inv(Apply(s, PollA))
  {
    hide Apply, Books, Opening;
    PollSends(s);
    var t := Apply(s, PollA);
    SameBooks(s, t);
    Opened(s.bravo.state, INVITE, s.ab, t.ab);
  }

  lemma KeepNoise(s: Sys, e: Step)
    requires Inv(s) && e.Noise?
    ensures Inv(Apply(s, e))
  {
    if s.alpha.state == MasterInfoAckReceive && s.ba == [] {
      assert Spoil(s.ab, e.at) == s.ab || Spoil(s.ab, e.at) == [Simple(Malformed, [])];
      assert Spoil(s.ba, e.at) == s.ba;
    } else {
      OnlyInfoIsSpoilt(s, e.at);
      assert Apply(s, e) == s;
    }
  }

  lemma OnlyInfoIsSpoilt(s: Sys, i: nat)
    requires Wire(s) && !(s.alpha.state == MasterInfoAckReceive && s.ba == [])
    ensures Spoil(s.ab, i) == s.ab && Spoil(s.ba, i) == s.ba
  {
    assert i < |s.ab| ==> s.ab[i].typ != Info;
    assert i < |s.ba| ==> s.ba[i].typ != Info;
  }

  /* ---------- what each delivery does, configuration by configuration ---------- */

  /** Bravo on the next message of a selection. */
  function AfterSelect(s: Sys): Sys {
    if |s.ab| <= 1 then s.(bravo := s.bravo.(state := SlaveInfoReceive), ab := [], ba := [ACK_MSG])
    else s.(bravo := s.bravo.(state := if |s.ab| == 2 then SlaveSelectReceive else Neutral), ab := s.ab[1..])
  }

  /** Bravo alone, on the message before the last `n - 1` of a selection. */
  lemma BravoOnSelect(b: Station, n: nat)
    requires 1 <= n <= 4 && !b.controller && b.accepting
    requires b.state == if n == 4 then SlaveInfoReceive else if n == 1 then SlaveSelectReceive else Neutral
    ensures Handle(b, SELECT[4 - n]) ==
            if n == 1 then Reaction(b.(state := SlaveInfoReceive), [ACK_MSG])
            else Reaction(b.(state := if n == 2 then SlaveSelectReceive else Neutral), [])
  {
    assert ALPHA[0] != BRAVO[0];
  }

  lemma SelectShape(s: Sys)
    requires Wire(s) && Roles(s) && s.ab != [] && s.alpha.state == MasterSelectAckReceive
    ensures
      var n := |s.ab|;
      && 1 <= n <= 4 && s.ba == [] && s.ab == SELECT[4 - n..] && s.ab[0] == SELECT[4 - n]
      && s.bravo.state == (if n == 4 then SlaveInfoReceive else if n == 1 then SlaveSelectReceive else Neutral)
      && s.alpha.fault == NoFault && s.bravo.fault == NoFault && !s.bravo.controller && s.bravo.accepting
  {
  }

  lemma SelectStep(s: Sys)
    requires Wire(s) && Roles(s) && s.ab != [] && s.alpha.state == MasterSelectAckReceive
    ensures Apply(s, DeliverB) == AfterSelect(s)
  {
    SelectShape(s);
    hide Wire, Roles, Handle;
    BravoOnSelect(s.bravo, |s.ab|);
    var r := Handle(s.bravo, s.ab[0]);
    assert NoteBravo(s.log, s.bravo, r.st) == s.log;
    assert s.ba + r.sent == r.sent;
    assert |s.ab| == 1 ==> s.ab[1..] == [];
  }

  /** Bravo on the next message of an invitation. */
  function AfterInvite(s: Sys): Sys {
    if |s.ab| <= 1 then
      if s.bravo.outQ == [] then s.(ab := [], ba := [EOT_MSG])
      else s.(bravo := s.bravo.(state := MasterSelectAckReceive), ab := [], ba := [ENQ_ALPHA])
    else s.(bravo := s.bravo.(state := Neutral), ab := s.ab[1..])
  }

  /** Bravo alone, on the message before the last `n - 1` of an invitation. */
  lemma BravoOnInvite(b: Station, n: nat)
    requires 1 <= n <= 3 && b.state == if n == 3 then SlaveInfoReceive else Neutral
    ensures Handle(b, INVITE[3 - n]) ==
            if n > 1 then Reaction(b.(state := Neutral), [])
            else if b.outQ == [] then Reaction(b, [EOT_MSG])
            else Reaction(b.(state := MasterSelectAckReceive), [ENQ_ALPHA])
  {
  }

  lemma InviteShape(s: Sys)
    requires Wire(s) && Roles(s) && s.ab != [] && s.alpha.state == SlaveSelectReceive
    ensures
      var n := |s.ab|;
      && 1 <= n <= 3 && s.ba == [] && s.ab == INVITE[3 - n..] && s.ab[0] == INVITE[3 - n]
      && s.bravo.state == (if n == 3 then SlaveInfoReceive else Neutral)
      && s.alpha.fault == NoFault && s.bravo.fault == NoFault
  {
  }

  lemma InviteStep(s: Sys)
    requires Wire(s) && Roles(s) && s.ab != [] && s.alpha.state == SlaveSelectReceive
    ensures Apply(s, DeliverB) == AfterInvite(s)
  {
    InviteShape(s);
    hide Wire, Roles, Handle;
    BravoOnInvite(s.bravo, |s.ab|);
    var r := Handle(s.bravo, s.ab[0]);
    assert NoteBravo(s.log, s.bravo, r.st) == s.log;
    assert s.ba + r.sent == r.sent;
    assert |s.ab| == 1 ==> s.ab[1..] == [];
  }

  /** Bravo on an INFO message, whole or spoilt. */
  function AfterInfo(s: Sys): Sys
    requires s.log != [] && s.ab != []
  {
    var n := |s.log| - 1;
    if s.ab[0].typ == Info then
      s.(bravo := s.bravo.(inQ := s.bravo.inQ + [s.ab[0]]), ab := [], ba := [ACK_MSG],
         log := s.log[n := s.log[n].(accepts := s.log[n].accepts + 1)])
    else s.(ab := [], ba := [NAK_MSG])
  }

  lemma InfoStep(s: Sys)
    requires Inv(s) && s.ab != [] && s.alpha.state == MasterInfoAckReceive
    ensures Apply(s, DeliverB) == AfterInfo(s)
  {
    assert s.ab[1..] == [];
    assert s.ba + [ACK_MSG] == [ACK_MSG] && s.ba + [NAK_MSG] == [NAK_MSG];
  }

  /** Alpha on the answer that lets it send the next message of its queue. */
  function AfterGrant(s: Sys): Sys
    requires s.alpha.outQ != []
  {
    var m := s.alpha.outQ[0];
    var selecting := s.alpha.state == MasterSelectAckReceive;
    var count := if selecting then s.alpha.infoNak else 0;
    s.(alpha := s.alpha.(state := MasterInfoAckReceive, infoNak := count, last := m, outQ := s.alpha.outQ[1..],
                         enqNak := if selecting then 0 else s.alpha.enqNak,
                         timer := selecting && s.alpha.timer),
       ab := [m], ba := [], log := s.log + [Attempt(m, count, 1, 0, 0)])
  }

  lemma GrantStep(s: Sys)
    requires Wire(s) && Roles(s) && IsMaster(s.alpha.state) && s.ba == [ACK_MSG] && s.alpha.outQ != []
    ensures Apply(s, DeliverA) == AfterGrant(s)
  {
    var m := s.alpha.outQ[0];
    assert Infos([m]) == 1;
    assert s.ab + [m] == [m] && s.ba[1..] == [];
  }

  /** Alpha on the acknowledgement of the last message of its queue. */
  function AfterLast(s: Sys): Sys {
    s.(alpha := s.alpha.(state := Neutral, timer := false, infoNak := 0), ab := [EOT_MSG], ba := [])
  }

  lemma LastStep(s: Sys)
    requires Inv(s) && s.alpha.state == MasterInfoAckReceive && s.ba == [ACK_MSG] && s.alpha.outQ == []
    ensures Apply(s, DeliverA) == AfterLast(s)
  {
    assert Infos([EOT_MSG]) == 0;
    assert s.ab + [EOT_MSG] == [EOT_MSG] && s.ba[1..] == [];
    var e := s.log[|s.log| - 1];
    assert s.log[|s.log| - 1 := e.(tries := e.tries + 0, naks := e.naks + 0)] == s.log;
  }

  /** Alpha on a NAK: it tries again, or gives up at the limit. */
  function AfterNak(s: Sys): Sys
    requires s.log != []
  {
    var again := s.alpha.infoNak + 1 < MAX_INFO_TRIES;
    var n := |s.log| - 1;
    s.(alpha := s.alpha.(timer := false, infoNak := s.alpha.infoNak + 1,
                         state := if again then s.alpha.state else Neutral),
       ab := [if again then s.alpha.last else EOT_MSG], ba := [],
       log := s.log[n := s.log[n].(tries := s.log[n].tries + (if again then 1 else 0), naks := s.log[n].naks + 1)])
  }

  /** Alpha alone, on a NAK. */
  lemma AlphaOnNak(a: Station)
    requires a.state == MasterInfoAckReceive && a.last.typ == Info
    ensures
      var again := a.infoNak + 1 < MAX_INFO_TRIES;
      Handle(a, NAK_MSG) ==
        Reaction(a.(timer := false, infoNak := a.infoNak + 1, state := if again then a.state else Neutral),
                 [if again then a.last else EOT_MSG])
  {
  }

  lemma NakStep(s: Sys)
    requires Inv(s) && s.alpha.state == MasterInfoAckReceive && s.ba == [NAK_MSG]
    ensures Apply(s, DeliverA) == AfterNak(s)
  {
    hide Handle, GoodLog, Msgs, Accepted, Carry, Infos;
    AlphaOnNak(s.alpha);
    OneInfo(s.alpha.last);
    OneInfo(EOT_MSG);
    assert s.ab + [EOT_MSG] == [EOT_MSG] && s.ab + [s.alpha.last] == [s.alpha.last] && s.ba[1..] == [];
  }

  lemma OneInfo(m: Msg)
    ensures Infos([m]) == if m.typ == Info then 1 else 0
  {
  }

  /** Alpha on bravo's answer to an invitation: it notes a refusal, and ignores a selection. */
  function AfterAnswer(s: Sys): Sys {
    s.(alpha := s.alpha.(state := if s.ba == [EOT_MSG] then Neutral else SlaveSelectReceive), ba := [])
  }

  lemma AnswerStep(s: Sys)
    requires Wire(s) && Roles(s) && s.alpha.state == SlaveSelectReceive && s.ba != []
    ensures Apply(s, DeliverA) == AfterAnswer(s)
  {
    assert s.ab + [] == s.ab && s.ba[1..] == [];
    var r := Handle(s.alpha, s.ba[0]);
    assert Infos(r.sent) == 0;
    if s.log != [] {
      var e := s.log[|s.log| - 1];
      assert s.log[|s.log| - 1 := e.(tries := e.tries + 0, naks := e.naks + 0)] == s.log;
    }
  }

  /* ---------- deliveries keep the invariant ---------- */

  lemma SelectKept(s: Sys, t: Sys)
    requires Inv(s) && s.ab != [] && s.alpha.state == MasterSelectAckReceive && t == AfterSelect(s)
    ensures Inv(t)
  {
    var n := |s.ab|;
    if n > 1 {
      assert t.ab == SELECT[4 - (n - 1)..];
      assert Opening(t.bravo.state, n - 1, SELECT, t.ab);
    }
    SameBooks(s, t);
  }

  lemma InviteKept(s: Sys, t: Sys)
    requires Inv(s) && s.ab != [] && s.alpha.state == SlaveSelectReceive && t == AfterInvite(s)
    ensures Inv(t)
  {
    var n := |s.ab|;
    if n > 1 {
      assert t.ab == INVITE[3 - (n - 1)..];
      assert Opening(t.bravo.state, n - 1, INVITE, t.ab);
    }
    SameBooks(s, t);
  }

  lemma InfoKept(s: Sys, t: Sys)
    requires Inv(s) && s.ab != [] && s.alpha.state == MasterInfoAckReceive && t == AfterInfo(s)
    ensures Inv(t)
  {
    var n := |s.log| - 1;
    if s.ab[0].typ == Info {
      assert t.log[..n] == s.log[..n];
      Assoc(s.gotB, s.bravo.inQ, [s.alpha.last]);
      assert Books(t);
    }
  }

  lemma KeepDeliverB(s: Sys)
    requires Inv(s)
    ensures Inv(Apply(s, DeliverB))
  {
    if s.ab != [] {
      if s.alpha.state == MasterInfoAckReceive {
        InfoStep(s);
        InfoKept(s, AfterInfo(s));
      } else if s.alpha.state == MasterSelectAckReceive {
        SelectStep(s);
        SelectKept(s, AfterSelect(s));
      } else if s.alpha.state == SlaveSelectReceive {
        InviteStep(s);
        InviteKept(s, AfterInvite(s));
      } else {
        SameBooks(s, Apply(s, DeliverB));
      }
    }
  }

  lemma NewEntry(log: seq<Attempt>, e: Attempt)
    ensures (log + [e])[..|log|] == log
    ensures Msgs(log + [e]) == Msgs(log) + [e.msg]
    ensures Accepted(log + [e]) == Accepted(log) + if e.accepts > 0 then [e.msg] else []
  {
    assert (log + [e])[..|log|] == log;
  }

  /** The newest entry with one more NAK and `more` further tries. */
  lemma Amended(log: seq<Attempt>, more: nat, nak: nat)
    requires log != []
    ensures
      var n := |log| - 1;
      var e := log[n].(tries := log[n].tries + more, naks := log[n].naks + nak);
      log[n := e][..n] == log[..n] && Msgs(log[n := e]) == Msgs(log) && Accepted(log[n := e]) == Accepted(log)
  {
    var n := |log| - 1;
    var e := log[n].(tries := log[n].tries + more, naks := log[n].naks + nak);
    assert log[n := e][..n] == log[..n];
  }

  lemma GrantKept(s: Sys, t: Sys)
    requires Inv(s) && IsMaster(s.alpha.state) && s.ba == [ACK_MSG] && s.alpha.outQ != []
    requires t == AfterGrant(s)
    ensures Inv(t)
  {
    var m := s.alpha.outQ[0];
    assert GoodLog(s.log);
    var count := t.alpha.infoNak;
    assert count == Carry(s.log);
    NewEntry(s.log, Attempt(m, count, 1, 0, 0));
    assert s.alpha.outQ == [m] + t.alpha.outQ;
    Assoc(Msgs(s.log), [m], t.alpha.outQ);
    assert Books(t);
  }

  lemma LastKept(s: Sys, t: Sys)
    requires Inv(s) && s.alpha.state == MasterInfoAckReceive && s.ba == [ACK_MSG] && s.alpha.outQ == []
    requires t == AfterLast(s)
    ensures Inv(t)
  {
    assert GoodLog(s.log) && Carry(s.log) == 0;
  }

  lemma NakKept(s: Sys, t: Sys)
    requires Inv(s) && s.ba == [NAK_MSG] && s.alpha.state == MasterInfoAckReceive && t == AfterNak(s)
    ensures Inv(t)
  {
    var again := s.alpha.infoNak + 1 < MAX_INFO_TRIES;
    Amended(s.log, if again then 1 else 0, 1);
    assert Books(t);
  }

  lemma KeepDeliverA(s: Sys)
    requires Inv(s)
    ensures Inv(Apply(s, DeliverA))
  {
    if s.ba != [] {
      if s.alpha.state == SlaveSelectReceive {
        AnswerStep(s);
        SameBooks(s, AfterAnswer(s));
      } else if s.ba == [NAK_MSG] {
        NakStep(s);
        NakKept(s, AfterNak(s));
      } else if s.alpha.outQ != [] {
        GrantStep(s);
        GrantKept(s, AfterGrant(s));
      } else {
        LastStep(s);
        LastKept(s, AfterLast(s));
      }
    }
  }

  lemma Keep(s: Sys, e: Step)
    requires Inv(s)
    ensures Inv(Apply(s, e))
  {
    match e
    case EnqueueA(_, _) => KeepEnqueue(s, e);
    case EnqueueB(_, _) => KeepEnqueue(s, e);
    case TakeA => KeepTake(s, e);
    case TakeB => KeepTake(s, e);
    case PollA => KeepPoll(s);
    case DeliverA => KeepDeliverA(s);
    case DeliverB => KeepDeliverB(s);
    case Noise(_, _) => KeepNoise(s, e);
    case NoResponse =>
  }

  lemma {:induction false} RunKeeps(s: Sys, steps: seq<Step>)
    requires Inv(s)
    ensures Inv(Run(s, steps))
    decreases |steps|
  {
    if steps != [] {
      Keep(s, steps[0]);
      RunKeeps(Apply(s, steps[0]), steps[1..]);
    }
  }
}
