/** What holds of every run of the two-station system. */
module LinkTheorems {
  import opened Bytes
  import opened LinkMessage
  import opened LinkStation
  import opened LinkSystem

  lemma StartHolds()
    ensures Inv(IDLE)
  {
  }

  /**
   Over every interleaving, noise included: no handler throws or aborts, the stations are never
   both master, messages are never under way in both directions at once, and the no-response
   timer never finds the line silent.
   */
  lemma HalfDuplexSafety(steps: seq<Step>)
    ensures
      var s := Run(IDLE, steps);
      && s.alpha.fault == NoFault && s.bravo.fault == NoFault
      && !(IsMaster(s.alpha.state) && IsMaster(s.bravo.state))
      && (s.ab == [] || s.ba == [])
      && !(s.alpha.timer && s.ab == [] && s.ba == [])
  {
    RunKeeps(IDLE, steps);
  }

  /** The only configurations in which the line is silent. */
  lemma QuiescentConfigurations(steps: seq<Step>)
    ensures
      var s := Run(IDLE, steps);
      s.ab == [] && s.ba == [] ==>
        (s.alpha.state == Neutral && s.bravo.state == Neutral) || Wedged(s)
  {
    RunKeeps(IDLE, steps);
  }

  /** Nothing ever moves from bravo to alpha: the controller does not answer bravo's selection. */
  lemma BravoNeverSends(steps: seq<Step>)
    ensures
      var s := Run(IDLE, steps);
      && s.bravo.outQ == s.enqB && s.gotA + s.alpha.inQ == []
      && s.bravo.state != MasterInfoAckReceive
  {
    RunKeeps(IDLE, steps);
  }

  /* ---------- the wedge ---------- */

  lemma WedgeStep(s: Sys, e: Step)
    requires Wedged(s)
    ensures Wedged(Apply(s, e)) && Apply(s, e).log == s.log
    ensures Apply(s, e).gotB + Apply(s, e).bravo.inQ == s.gotB + s.bravo.inQ
  {
    hide Handle, NoteAlpha, NoteBravo;
    if e.TakeB? && s.bravo.inQ != [] {
      assert s.bravo.inQ == s.bravo.inQ[..1] + s.bravo.inQ[1..];
      Assoc(s.gotB, s.bravo.inQ[..1], s.bravo.inQ[1..]);
    }
  }

  /** No step leads out of the wedge, and from then on nothing more is transferred. */
  lemma {:induction false} WedgeIsForever(s: Sys, steps: seq<Step>)
    requires Wedged(s)
    ensures
      var t := Run(s, steps);
      Wedged(t) && t.log == s.log && t.gotB + t.bravo.inQ == s.gotB + s.bravo.inQ
    decreases |steps|
  {
    hide Apply, Wedged;
    if steps != [] {
      WedgeStep(s, steps[0]);
      WedgeIsForever(Apply(s, steps[0]), steps[1..]);
    }
  }

  /** The controller waits to be selected while bravo waits for an answer to its selection. */
  predicate Doomed(s: Sys) {
    s.alpha.state == SlaveSelectReceive && s.bravo.state == MasterSelectAckReceive
  }

  /** The step that dooms the pair: an invitation reaches bravo while bravo has something to send. */
  predicate Trap(s: Sys, e: Step) {
    && e == DeliverB && s.alpha.state == SlaveSelectReceive
    && s.ab == [ENQ_BRAVO] && s.bravo.outQ != []
  }

  /** Exactly the steps on which the pair is doomed: those after the trap, and the trap itself. */
  lemma DoomedStep(s: Sys, e: Step)
    requires Inv(s)
    ensures Doomed(Apply(s, e)) <==> Doomed(s) || Trap(s, e)
  {
    if e == DeliverB {
      DoomedDeliverB(s);
    } else if e == DeliverA {
      DoomedDeliverA(s);
    }
  }

  lemma DoomedDeliverB(s: Sys)
    requires Inv(s)
    ensures Doomed(Apply(s, DeliverB)) <==> Doomed(s) || Trap(s, DeliverB)
  {
    hide Apply, Books;
    if s.ab == [] {
      NothingToDeliver(s, DeliverB);
    } else if s.alpha.state == SlaveSelectReceive {
      InviteStep(s);
      assert |s.ab| == 1 ==> s.ab == [INVITE[2]];
    } else if s.alpha.state == MasterSelectAckReceive {
      SelectStep(s);
    } else if s.alpha.state == MasterInfoAckReceive {
      InfoStep(s);
    } else {
      AlphaUntouched(s);
    }
  }

  lemma DoomedDeliverA(s: Sys)
    requires Inv(s)
    ensures Doomed(Apply(s, DeliverA)) <==> Doomed(s)
  {
    hide Apply, Books;
    if s.ba == [] {
      NothingToDeliver(s, DeliverA);
    } else if s.alpha.state == SlaveSelectReceive {
      AnswerStep(s);
      assert EOT_MSG.typ != ENQ_ALPHA.typ;
    } else if s.ba == [NAK_MSG] {
      NakStep(s);
    } else if s.alpha.outQ != [] {
      GrantStep(s);
    } else {
      LastStep(s);
    }
  }

  lemma NothingToDeliver(s: Sys, e: Step)
    requires (e == DeliverA && s.ba == []) || (e == DeliverB && s.ab == [])
    ensures Apply(s, e) == s
  {
  }

  lemma AlphaUntouched(s: Sys)
    ensures Apply(s, DeliverB).alpha == s.alpha
  {
    hide Handle, NoteBravo;
  }

  /** The trap is sprung at step `k` of the run. */
  predicate Sprung(s: Sys, steps: seq<Step>, k: nat) {
    k < |steps| && Trap(Run(s, steps[..k]), steps[k])
  }

  /**
   Over every interleaving: a run ends with the pair doomed if and only if, at some delivery of
   an invitation on the way, bravo has something to send when it arrives.
   */
  lemma {:induction false} DoomedExactly(s: Sys, steps: seq<Step>)
    requires Inv(s) && !Doomed(s)
    ensures Doomed(Run(s, steps)) <==> exists k: nat :: Sprung(s, steps, k)
    decreases |steps|
  {
    hide Inv, Apply, Doomed, Trap;
    if steps != [] {
      var e, t, rest := steps[0], Apply(s, steps[0]), steps[1..];
      Keep(s, e);
      DoomedStep(s, e);
      assert steps[..0] == [];
      assert Sprung(s, steps, 0) <==> Trap(s, e);
      if Trap(s, e) {
        DoomedForever(t, rest);
      } else {
        DoomedExactly(t, rest);
        forall k: nat ensures Sprung(t, rest, k) <==> Sprung(s, steps, k + 1) {
          if k < |rest| {
            assert steps[..k + 1][0] == e && steps[..k + 1][1..] == rest[..k];
          }
        }
        if k: nat :| Sprung(s, steps, k) {
          assert Sprung(t, rest, k - 1);
        }
        if k: nat :| Sprung(t, rest, k) {
          assert Sprung(s, steps, k + 1);
        }
      }
    }
  }

  lemma {:induction false} DoomedForever(s: Sys, steps: seq<Step>)
    requires Inv(s) && Doomed(s)
    ensures Doomed(Run(s, steps))
    decreases |steps|
  {
    hide Inv, Apply, Doomed, Trap;
    if steps != [] {
      Keep(s, steps[0]);
      DoomedStep(s, steps[0]);
      DoomedForever(Apply(s, steps[0]), steps[1..]);
    }
  }

  /** ... from the idle pair on; a doomed pair is wedged as soon as bravo's selection is delivered. */
  lemma WedgeExactly(steps: seq<Step>)
    ensures Doomed(Run(IDLE, steps)) <==> exists k: nat :: Sprung(IDLE, steps, k)
    ensures Doomed(Run(IDLE, steps)) ==> Wedged(Apply(Run(IDLE, steps), DeliverA))
    ensures Doomed(Run(IDLE, steps)) && Run(IDLE, steps).ba == [] ==> Wedged(Run(IDLE, steps))
  {
    hide Run, Trap;
    StartHolds();
    DoomedExactly(IDLE, steps);
    RunKeeps(IDLE, steps);
    var s := Run(IDLE, steps);
    if Doomed(s) {
      DoomedWedges(s);
    }
  }

  lemma DoomedWedges(s: Sys)
    requires Inv(s) && Doomed(s)
    ensures s.ba == [] ==> Wedged(s)
    ensures Wedged(Apply(s, DeliverA))
  {
    hide Books;
    if s.ba != [] {
      AnswerStep(s);
      assert EOT_MSG.typ != ENQ_ALPHA.typ;
    } else {
      NothingToDeliver(s, DeliverA);
    }
  }

  /**
   A controller with nothing to send is polled while the line is silent, and nothing is enqueued
   meanwhile: the pair wedges if bravo has something to send, and is idle again if not.
   */
  lemma PollOutcome(s: Sys)
    requires Inv(s) && s.alpha.state == Neutral && s.ab == [] && s.alpha.outQ == []
    ensures
      var t := Run(s, [PollA, DeliverB, DeliverB, DeliverA]);
      if s.bravo.outQ != [] then Wedged(t)
      else t.alpha.state == Neutral && t.bravo.state == Neutral && t.ab == [] && t.ba == []
  {
    PollSends(s);
    hide Apply, Run, Wedged, Books, Wire, Roles, Opening;
    var s1 := Apply(s, PollA);
    Keep(s, PollA);
    assert s1.ab == [EOT_MSG, ENQ_BRAVO];
    InviteStep(s1);
    var s2 := AfterInvite(s1);
    Keep(s1, DeliverB);
    assert s2.ab == [ENQ_BRAVO];
    InviteAnswered(s2);
    RunFour(s, PollA, DeliverB, DeliverB, DeliverA);
  }

  lemma InviteAnswered(s: Sys)
    requires Inv(s) && s.alpha.state == SlaveSelectReceive && s.ab == [ENQ_BRAVO]
    ensures
      var t := Apply(Apply(s, DeliverB), DeliverA);
      if s.bravo.outQ != [] then Wedged(t)
      else t.alpha.state == Neutral && t.bravo.state == Neutral && t.ab == [] && t.ba == []
  {
    hide Apply, Books;
    InviteStep(s);
    Keep(s, DeliverB);
    var t := AfterInvite(s);
    AnswerStep(t);
    assert EOT_MSG.typ != ENQ_ALPHA.typ;
  }

  /** A message enqueued at bravo before the first poll is enough. */
  lemma WedgeReachable(header: seq<Byte>, body: seq<Byte>)
    ensures Wedged(Run(IDLE, [EnqueueB(header, body), PollA, DeliverB, DeliverB, DeliverA]))
  {
    hide Apply, Wedged, Inv;
    var e := EnqueueB(header, body);
    var s := Apply(IDLE, e);
    StartHolds();
    Keep(IDLE, e);
    assert [e, PollA, DeliverB, DeliverB, DeliverA][1..] == [PollA, DeliverB, DeliverB, DeliverA];
    EnqueuedAtBravo(header, body);
    PollOutcome(s);
  }

  lemma EnqueuedAtBravo(header: seq<Byte>, body: seq<Byte>)
    ensures
      var s := Apply(IDLE, EnqueueB(header, body));
      s.alpha.state == Neutral && s.ab == [] && s.alpha.outQ == [] && s.bravo.outQ != []
  {
  }

  lemma RunFour(s: Sys, a: Step, b: Step, c: Step, d: Step)
    ensures Run(s, [a, b, c, d]) == Apply(Apply(Apply(Apply(s, a), b), c), d)
  {
    assert [a, b, c, d][1..] == [b, c, d];
    assert [b, c, d][1..] == [c, d];
    assert [c, d][1..] == [d];
    var t := Apply(Apply(s, a), b);
    assert Run(t, [c, d]) == Run(Apply(t, c), [d]) == Apply(Apply(t, c), d);
    assert Run(Apply(s, a), [b, c, d]) == Run(t, [c, d]);
  }

  /* ---------- what bravo accepts ---------- */

  /** `idx` picks `part` out of `whole`, each place at most once and in order. */
  ghost predicate Picks(idx: seq<nat>, part: seq<Msg>, whole: seq<Msg>) {
    && |idx| == |part|
    && (forall j :: 0 <= j < |idx| ==> idx[j] < |whole| && part[j] == whole[idx[j]])
    && (forall j, k :: 0 <= j < k < |idx| ==> idx[j] < idx[k])
  }

  function AcceptedAt(log: seq<Attempt>): seq<nat> {
    if log == [] then []
    else AcceptedAt(log[..|log| - 1]) + if log[|log| - 1].accepts > 0 then [|log| - 1] else []
  }

  lemma {:induction false} AcceptedPicks(log: seq<Attempt>)
    ensures |Msgs(log)| == |log|
    ensures Picks(AcceptedAt(log), Accepted(log), Msgs(log))
  {
    if log != [] {
      AcceptedPicks(log[..|log| - 1]);
    }
  }

  lemma PicksMore(idx: seq<nat>, part: seq<Msg>, whole: seq<Msg>, more: seq<Msg>)
    requires Picks(idx, part, whole)
    ensures Picks(idx, part, whole + more)
  {
  }

  /** Every entry of a good log, by its place. */
  lemma {:induction false} GoodLogAt(log: seq<Attempt>, i: nat)
    requires GoodLog(log) && i < |log|
    ensures Settled(log[i]) && log[i].base == Carry(log[..i])
    ensures log[i].base == 0 || log[i].base >= MAX_INFO_TRIES
  {
    var n := |log| - 1;
    if i < n {
      assert log[..n][..i] == log[..i];
      GoodLogAt(log[..n], i);
    } else if n > 0 {
      assert log[..n][n - 1] == log[n - 1];
      GoodLogAt(log[..n], n - 1);
    }
  }

  /** The message alpha is still waiting to see answered, if any, is the newest one. */
  predicate Open(s: Sys, i: nat) {
    s.alpha.state == MasterInfoAckReceive && i == |s.log| - 1
  }

  /**
   With noise of any amount: what bravo has accepted is picked, in order and without repetition,
   from what was enqueued.
   */
  lemma InOrderWithoutDuplicates(steps: seq<Step>)
    ensures
      var s := Run(IDLE, steps);
      && Picks(AcceptedAt(s.log), s.gotB + s.bravo.inQ, s.enqA)
      && s.enqA == Msgs(s.log) + s.alpha.outQ
  {
    RunKeeps(IDLE, steps);
    var s := Run(IDLE, steps);
    AcceptedPicks(s.log);
    PicksMore(AcceptedAt(s.log), Accepted(s.log), Msgs(s.log), s.alpha.outQ);
  }

  /**
   Retransmission accounting: every message is sent between 1 and 20 times and accepted at most
   once; one that is given up was refused on every try with the NAK counter at the limit, and it
   had 20 tries if the message before it got through, but only a single one if that was given up
   as well, because giving up leaves the counter where it is.
   */
  lemma TriesAndLosses(steps: seq<Step>, i: nat)
    requires i < |Run(IDLE, steps).log|
    ensures
      var s := Run(IDLE, steps);
      var e := s.log[i];
      && 1 <= e.tries <= 20 && e.accepts <= 1
      && (e.accepts == 0 && !Open(s, i) ==>
            && e.naks == e.tries && e.base + e.naks >= 20
            && e.tries == if i == 0 || s.log[i - 1].accepts == 1 then 20 else 1)
  {
    hide Run, Apply;
    RunKeeps(IDLE, steps);
    EntryFate(Run(IDLE, steps), i);
  }

  lemma EntryFate(s: Sys, i: nat)
    requires Books(s) && i < |s.log|
    ensures
      var e := s.log[i];
      && 1 <= e.tries <= 20 && e.accepts <= 1
      && (e.accepts == 0 && !Open(s, i) ==>
            && e.naks == e.tries && e.base + e.naks >= 20
            && e.tries == if i == 0 || s.log[i - 1].accepts == 1 then 20 else 1)
  {
    hide Msgs, Accepted;
    var n := |s.log| - 1;
    if s.alpha.state == MasterInfoAckReceive {
      if i < n {
        assert s.log[..n][i] == s.log[i] && s.log[..n][..i] == s.log[..i];
        GoodLogAt(s.log[..n], i);
        PreviousEntry(s.log[..n], i);
      }
    } else {
      GoodLogAt(s.log, i);
      PreviousEntry(s.log, i);
    }
  }

  lemma PreviousEntry(log: seq<Attempt>, i: nat)
    requires GoodLog(log) && i < |log|
    ensures i == 0 || log[i - 1].accepts == 1 ==> log[i].base == 0
    ensures i > 0 && log[i - 1].accepts != 1 ==> log[i].base >= MAX_INFO_TRIES
  {
    GoodLogAt(log, i);
    if i > 0 {
      GoodLogAt(log, i - 1);
      assert log[..i][i - 1] == log[i - 1];
    }
  }

  /* ---------- without noise ---------- */

  predicate NoNoise(steps: seq<Step>) {
    forall i :: 0 <= i < |steps| ==> !steps[i].Noise?
  }

  predicate AllAccepted(log: seq<Attempt>) {
    forall i :: 0 <= i < |log| ==> log[i].accepts > 0
  }

  lemma {:induction false} AcceptedAll(log: seq<Attempt>)
    requires AllAccepted(log)
    ensures Accepted(log) == Msgs(log)
  {
    if log != [] {
      AcceptedAll(log[..|log| - 1]);
    }
  }

  /** Nothing on the line is spoilt or refused, and all but the newest message are through. */
  predicate Clean(s: Sys) {
    && Inv(s) && s.ba != [NAK_MSG] && s.ab != [Simple(Malformed, [])]
    && AllAccepted(if s.alpha.state == MasterInfoAckReceive then s.log[..|s.log| - 1] else s.log)
  }

  lemma CleanStep(s: Sys, e: Step)
    requires Clean(s) && !e.Noise?
    ensures Clean(Apply(s, e))
  {
    hide Clean, Apply;
    CleanInv(s);
    match e
    case DeliverA =>
      if s.ba != [] {
        CleanDeliverA(s);
      } else {
        NothingToDeliver(s, e);
      }
    case DeliverB =>
      if s.ab != [] {
        CleanDeliverB(s);
      } else {
        NothingToDeliver(s, e);
      }
    case PollA =>
      CleanPoll(s);
    case NoResponse =>
      NeverSilent(s);
    case _ =>
      CleanQueues(s, e);
  }

  /** The no-response timer never finds the line silent. */
  lemma NeverSilent(s: Sys)
    requires Inv(s)
    ensures Apply(s, NoResponse) == s
  {
    hide Books;
  }

  lemma CleanPoll(s: Sys)
    requires Clean(s)
    ensures Clean(Apply(s, PollA))
  {
    hide Apply, Books, Roles, AllAccepted;
    Keep(s, PollA);
    if s.alpha.state == Neutral {
      PollSends(s);
      var t := Apply(s, PollA);
      assert t.ab[0].typ == Eot;
      CleanOpening(s, t);
    } else {
      NotPolled(s);
    }
  }

  lemma NotPolled(s: Sys)
    requires s.alpha.state != Neutral
    ensures Apply(s, PollA) == s
  {
    assert s.ab + [] == s.ab;
  }

  lemma CleanQueues(s: Sys, e: Step)
    requires Clean(s) && (e.EnqueueA? || e.EnqueueB? || e.TakeA? || e.TakeB?)
    ensures Clean(Apply(s, e))
  {
    Keep(s, e);
    hide Inv;
  }

  lemma CleanDeliverA(s: Sys)
    requires Clean(s) && s.ba != []
    ensures Clean(Apply(s, DeliverA))
  {
    Keep(s, DeliverA);
    if s.alpha.state == SlaveSelectReceive {
      AnswerStep(s);
      CleanAnswer(s);
    } else {
      assert s.ba == [ACK_MSG];
      CleanAck(s);
    }
  }

  lemma CleanAnswer(s: Sys)
    requires Clean(s) && s.ba != [] && s.alpha.state == SlaveSelectReceive && Inv(AfterAnswer(s))
    ensures Clean(AfterAnswer(s))
  {
    hide Books, Roles;
  }

  /** On an ACK of a session: the newest message is through, and the next or an EOT follows. */
  lemma CleanAck(s: Sys)
    requires Clean(s) && s.ba == [ACK_MSG] && IsMaster(s.alpha.state)
    requires Inv(Apply(s, DeliverA))
    ensures Clean(Apply(s, DeliverA))
  {
    AckedAll(s);
    if s.alpha.outQ != [] {
      GrantStep(s);
      hide Inv, Wire, Books;
      var t := AfterGrant(s);
      assert t.log[..|t.log| - 1] == s.log;
      assert s.alpha.outQ[0].typ == Info;
      assert t.ab[0].typ == Info;
    } else {
      LastStep(s);
      hide Inv, Wire, Books, Roles;
      assert AfterLast(s).ab[0].typ == Eot;
    }
  }

  lemma AckedAll(s: Sys)
    requires Clean(s) && s.ba == [ACK_MSG] && IsMaster(s.alpha.state)
    ensures AllAccepted(s.log)
  {
    hide GoodLog, Carry, Roles;
    if s.alpha.state == MasterInfoAckReceive {
      var n := |s.log| - 1;
      forall i | 0 <= i < |s.log| ensures s.log[i].accepts > 0 {
        if i < n {
          assert s.log[..n][i] == s.log[i];
        }
      }
    }
  }

  lemma CleanDeliverB(s: Sys)
    requires Clean(s) && s.ab != []
    ensures Clean(Apply(s, DeliverB))
  {
    CleanInv(s);
    hide Clean, Apply, Books, Roles, Opening;
    Keep(s, DeliverB);
    if s.alpha.state == MasterInfoAckReceive {
      InfoStep(s);
      CleanInfo(s);
    } else if s.alpha.state == MasterSelectAckReceive {
      CleanSelect(s);
    } else if s.alpha.state == SlaveSelectReceive {
      CleanInvite(s);
    } else {
      CleanEot(s);
    }
  }

  lemma CleanSelect(s: Sys)
    requires Clean(s) && s.ab != [] && s.alpha.state == MasterSelectAckReceive && Inv(Apply(s, DeliverB))
    ensures Clean(Apply(s, DeliverB))
  {
    SelectStep(s);
    SelectShape(s);
    hide Clean, Inv, Apply, Wire, Roles, Opening, Books;
    OpeningTypes(s.ab, SELECT);
    CleanOpening(s, AfterSelect(s));
  }

  lemma CleanInvite(s: Sys)
    requires Clean(s) && s.ab != [] && s.alpha.state == SlaveSelectReceive && Inv(Apply(s, DeliverB))
    ensures Clean(Apply(s, DeliverB))
  {
    InviteStep(s);
    InviteShape(s);
    hide Clean, Inv, Apply, Wire, Roles, Opening, Books;
    OpeningTypes(s.ab, INVITE);
    CleanOpening(s, AfterInvite(s));
  }

  lemma OpeningTypes(ab: seq<Msg>, opening: seq<Msg>)
    requires opening == SELECT || opening == INVITE
    requires |ab| <= |opening| && ab == opening[|opening| - |ab|..]
    ensures forall i :: 0 <= i < |ab| ==> ab[i].typ == Eot || ab[i].typ == Enq
  {
    assert forall i :: 0 <= i < |ab| ==> ab[i] == opening[|opening| - |ab| + i];
  }

  lemma CleanInfo(s: Sys)
    requires Clean(s) && s.ab != [] && s.alpha.state == MasterInfoAckReceive && Inv(AfterInfo(s))
    ensures Clean(AfterInfo(s))
  {
    hide GoodLog, Carry, Msgs, Accepted, Roles;
    var t := AfterInfo(s);
    assert t.log[..|t.log| - 1] == s.log[..|s.log| - 1];
    assert t.ba[0].typ == Ack;
  }

  /** Outside an information transfer, an opening leaves the log alone. */
  lemma CleanOpening(s: Sys, t: Sys)
    requires Clean(s) && s.alpha.state != MasterInfoAckReceive && Inv(t)
    requires t.alpha.state != MasterInfoAckReceive && t.log == s.log
    requires t.ba == [] || t.ba[0].typ != Nak
    requires t.ab == [] || t.ab[0].typ != Malformed
    ensures Clean(t)
  {
    hide Inv;
  }

  lemma CleanEot(s: Sys)
    requires Clean(s) && s.ab != [] && s.alpha.state == Neutral && Inv(Apply(s, DeliverB))
    ensures Clean(Apply(s, DeliverB))
  {
    hide Books;
    var t := Apply(s, DeliverB);
    assert t.log == s.log;
    CleanOpening(s, t);
  }

  lemma {:induction false} CleanRun(s: Sys, steps: seq<Step>)
    requires Clean(s) && NoNoise(steps)
    ensures Clean(Run(s, steps))
    decreases |steps|
  {
    if steps != [] {
      CleanStep(s, steps[0]);
      CleanRun(Apply(s, steps[0]), steps[1..]);
    }
  }

  /** The INFO messages among those under way. */
  function InfoPart(link: seq<Msg>): seq<Msg> {
    if link == [] then [] else (if link[0].typ == Info then [link[0]] else []) + InfoPart(link[1..])
  }

  lemma CleanBalance(s: Sys)
    requires Clean(s)
    ensures s.enqA == s.gotB + s.bravo.inQ + InfoPart(s.ab) + s.alpha.outQ
  {
    if s.alpha.state == MasterInfoAckReceive {
      CleanPending(s);
    } else {
      NoInfoAhead(s);
      hide Wire, Roles, GoodLog, Carry, InfoPart, Accepted, Msgs;
      AcceptedAll(s.log);
      NoInfoPart(s.ab);
      assert Msgs(s.log) + InfoPart(s.ab) == Msgs(s.log);
    }
  }

  /** Outside an information transfer no INFO message is under way. */
  lemma NoInfoAhead(s: Sys)
    requires Wire(s) && s.alpha.state != MasterInfoAckReceive
    ensures forall i :: 0 <= i < |s.ab| ==> s.ab[i].typ != Info
  {
    if s.alpha.state == MasterSelectAckReceive && s.ab != [] {
      OpeningTypes(s.ab, SELECT);
    } else if s.alpha.state == SlaveSelectReceive && s.ab != [] {
      OpeningTypes(s.ab, INVITE);
    }
  }

  lemma CleanPending(s: Sys)
    requires Clean(s) && s.alpha.state == MasterInfoAckReceive
    ensures s.enqA == s.gotB + s.bravo.inQ + InfoPart(s.ab) + s.alpha.outQ
  {
    var n := |s.log| - 1;
    AcceptedAll(s.log[..n]);
    if s.ab != [] {
      assert InfoPart(s.ab) == [s.alpha.last];
      assert Msgs(s.log) == Accepted(s.log) + [s.alpha.last];
    } else {
      assert Msgs(s.log) == Accepted(s.log);
      assert Accepted(s.log) + InfoPart(s.ab) == Accepted(s.log);
    }
  }

  lemma {:induction false} NoInfoPart(link: seq<Msg>)
    requires forall i :: 0 <= i < |link| ==> link[i].typ != Info
    ensures InfoPart(link) == []
  {
    if link != [] {
      NoInfoPart(link[1..]);
    }
  }

  /**
   Exactly once and in order: everything enqueued at the controller is what bravo has accepted,
   then the INFO under way to bravo, then the controller's output queue.
   */
  lemma ExactlyOnce(steps: seq<Step>)
    requires NoNoise(steps)
    ensures
      var s := Run(IDLE, steps);
      s.enqA == s.gotB + s.bravo.inQ + InfoPart(s.ab) + s.alpha.outQ
  {
    CleanRun(IDLE, steps);
    CleanBalance(Run(IDLE, steps));
  }

  /* ---------- sessions end ---------- */

  function TriesLeft(naks: nat): nat {
    if naks < MAX_INFO_TRIES - 1 then MAX_INFO_TRIES - 1 - naks else 0
  }

  /** The number of deliveries and noise hits that a session can still take. */
  function Rank(s: Sys): nat {
    if s.alpha.state == MasterSelectAckReceive then 60 * |s.alpha.outQ| + 1 + |s.ab|
    else 60 * |s.alpha.outQ| + 3 * TriesLeft(s.alpha.infoNak)
         + if s.ab == [] then 1 else if s.ab[0].typ == Info then 3 else 2
  }

  predicate IsLinkStep(e: Step) {
    e == DeliverA || e == DeliverB || e.Noise?
  }

  /** In a session some link can always deliver. */
  lemma SessionProgress(s: Sys)
    requires Inv(s) && IsMaster(s.alpha.state)
    ensures s.ab != [] || s.ba != []
  {
  }

  /** The session is over, or has come closer to its end. */
  predicate Nearer(s: Sys, t: Sys) {
    t.alpha.state == Neutral || (IsMaster(t.alpha.state) && Rank(t) < Rank(s))
  }

  /** Every effective link step of a session lowers the rank or ends the session. */
  lemma SessionStep(s: Sys, e: Step)
    requires Inv(s) && IsMaster(s.alpha.state) && IsLinkStep(e)
    requires Apply(s, e) != s
    ensures Nearer(s, Apply(s, e))
  {
    hide Apply, Nearer, Inv, IsMaster;
    match e
    case DeliverA =>
      if s.ba == [] {
        NothingToDeliver(s, e);
      } else {
        SessionDeliverA(s);
      }
    case DeliverB =>
      if s.ab == [] {
        NothingToDeliver(s, e);
      } else {
        SessionDeliverB(s);
      }
    case Noise(_, _) =>
      SessionNoise(s, e);
  }

  lemma SessionDeliverA(s: Sys)
    requires Inv(s) && IsMaster(s.alpha.state) && s.ba != []
    ensures Nearer(s, Apply(s, DeliverA))
  {
    hide Apply, GoodLog, Carry, Msgs, Accepted;
    if s.ba == [NAK_MSG] {
      NakStep(s);
    } else if s.alpha.outQ != [] {
      GrantStep(s);
      assert AfterGrant(s).ab[0].typ == Info;
    } else {
      LastStep(s);
    }
  }

  lemma SessionDeliverB(s: Sys)
    requires Inv(s) && IsMaster(s.alpha.state) && s.ab != []
    ensures Nearer(s, Apply(s, DeliverB))
  {
    hide Apply;
    if s.alpha.state == MasterSelectAckReceive {
      SelectStep(s);
      hide Inv, Wire, Roles, Books;
    } else {
      InfoStep(s);
      hide Books, Roles;
    }
  }

  lemma SessionNoise(s: Sys, e: Step)
    requires Inv(s) && IsMaster(s.alpha.state) && e.Noise?
    requires Apply(s, e) != s
    ensures Nearer(s, Apply(s, e))
  {
    hide Books;
    if s.alpha.state == MasterInfoAckReceive && s.ba == [] {
      assert Spoil(s.ba, e.at) == s.ba;
      assert Spoil(s.ab, e.at) == s.ab || Spoil(s.ab, e.at) == [Simple(Malformed, [])];
    } else {
      OnlyInfoIsSpoilt(s, e.at);
    }
  }

  /** Every step of `steps` is a link step that does something, as long as the session lasts. */
  predicate Effective(s: Sys, steps: seq<Step>)
    decreases |steps|
  {
    steps == [] || s.alpha.state == Neutral ||
    (IsLinkStep(steps[0]) && Apply(s, steps[0]) != s && Effective(Apply(s, steps[0]), steps[1..]))
  }

  /**
   Session termination: from any state of a session, noise included, every run of at least
   `Rank` effective link steps brings the controller back to NEUTRAL on the way.
   */
  lemma {:induction false} SessionTermination(s: Sys, steps: seq<Step>) returns (k: nat)
    requires Inv(s) && IsMaster(s.alpha.state)
    requires Effective(s, steps) && |steps| >= Rank(s)
    ensures k <= |steps| && k <= Rank(s) && Run(s, steps[..k]).alpha.state == Neutral
    decreases |steps|
  {
    hide Apply, Rank, Inv, IsMaster;
    RankPositive(s);
    MasterNotNeutral(s);
    var t := Apply(s, steps[0]);
    Keep(s, steps[0]);
    SessionStep(s, steps[0]);
    if t.alpha.state == Neutral {
      k := 1;
      assert steps[..1][1..] == [];
    } else {
      var j := SessionTermination(t, steps[1..]);
      k := j + 1;
      assert steps[..k][1..] == steps[1..][..j];
    }
  }

  /** A poll that opens a session leaves at most 60 link steps for every queued message, and 5 more. */
  lemma PollRank(s: Sys)
    requires Inv(s) && s.alpha.state == Neutral && s.alpha.outQ != []
    ensures
      var t := Apply(s, PollA);
      IsMaster(t.alpha.state) && Rank(t) <= 60 * |s.alpha.outQ| + 5
  {
  }

  /** Without noise a session ends only when bravo has accepted all that was ever enqueued. */
  lemma SessionDeliversAll(s: Sys, e: Step)
    requires Clean(s) && IsMaster(s.alpha.state) && !e.Noise?
    requires Apply(s, e).alpha.state == Neutral
    ensures Apply(s, e).alpha.outQ == []
    ensures Apply(s, e).gotB + Apply(s, e).bravo.inQ == Apply(s, e).enqA
  {
    CleanStep(s, e);
    SessionLeft(s, e);
    LastStep(s);
    assert InfoPart([EOT_MSG]) == [];
    hide Inv, Wire, Books, Roles, Apply;
    CleanBalance(AfterLast(s));
    assert s.gotB + s.bravo.inQ + [] + [] == s.gotB + s.bravo.inQ;
  }

  /** Only the acknowledgement of the last queued message leads out of a noise-free session. */
  lemma SessionLeft(s: Sys, e: Step)
    requires Clean(s) && IsMaster(s.alpha.state) && !e.Noise?
    requires Apply(s, e).alpha.state == Neutral
    ensures e == DeliverA && s.alpha.state == MasterInfoAckReceive && s.ba == [ACK_MSG] && s.alpha.outQ == []
  {
    hide Books, GoodLog;
    if e == DeliverA && s.ba != [] && s.alpha.outQ != [] {
      GrantStep(s);
    }
  }

  /**
   A whole noise-free session: within `Rank` effective deliveries the controller is back in
   NEUTRAL with an empty queue, and bravo has accepted everything ever enqueued.
   */
  lemma {:induction false} SessionComplete(s: Sys, steps: seq<Step>) returns (k: nat)
    requires Clean(s) && IsMaster(s.alpha.state) && NoNoise(steps)
    requires Effective(s, steps) && |steps| >= Rank(s)
    ensures k <= |steps| && k <= Rank(s)
    ensures
      var t := Run(s, steps[..k]);
      t.alpha.state == Neutral && t.alpha.outQ == [] && t.gotB + t.bravo.inQ == t.enqA
    decreases |steps|
  {
    hide Apply, Rank, Inv, IsMaster, Clean;
    CleanInv(s);
    RankPositive(s);
    var t := Apply(s, steps[0]);
    CleanStep(s, steps[0]);
    MasterNotNeutral(s);
    SessionStep(s, steps[0]);
    if t.alpha.state == Neutral {
      k := 1;
      assert steps[..1][1..] == [];
      SessionDeliversAll(s, steps[0]);
    } else {
      var j := SessionComplete(t, steps[1..]);
      k := j + 1;
      assert steps[..k][1..] == steps[1..][..j];
    }
  }

  lemma CleanInv(s: Sys)
    requires Clean(s)
    ensures Inv(s)
  {
  }

  lemma MasterNotNeutral(s: Sys)
    requires IsMaster(s.alpha.state)
    ensures s.alpha.state != Neutral
  {
  }

  lemma RankPositive(s: Sys)
    ensures Rank(s) > 0
  {
  }
}
