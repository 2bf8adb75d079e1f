/**
 A channel never gets stuck of itself: a writer stops for good only on a send error, and
 from every other reachable state some run empties the queue.
 */
module AgentProgress {
  import opened Octets
  import opened Frames
  import opened AgentChannel
  import opened AgentWire

  // ----- who stops for good -----

  /** A send of writer `t` fails with another error than EAGAIN. */
  predicate Breaks(s: State, a: Step, t: Tid)
    requires s.ring != []
  {
    a == Send(t, Broken) && !Strays(s, t)
  }

  predicate NeverBreaks(s: State, run: seq<Step>, t: Tid)
    requires Possible(s, run)
    decreases |run|
  {
    run == [] || (!Breaks(s, run[0], t) && NeverBreaks(Apply(s, run[0]), run[1..], t))
  }

  lemma StepFailed(s: State, a: Step, t: Tid)
    requires Inv(s) && Enabled(s, a)
    ensures PcOf(Apply(s, a), t) == Failed <==> PcOf(s, t) == Failed || Breaks(s, a, t)
  {
    if a.Start? {
      assert Holder(PcOf(s, a.t));
    } else if a.Send? {
      SendFailed(s, a.t, a.outcome, t);
    }
  }

  lemma SendFailed(s: State, u: Tid, o: Outcome, t: Tid)
    requires Enabled(s, Send(u, o))
    ensures PcOf(ApplySend(s, u, o), t) == Failed <==> PcOf(s, t) == Failed || Breaks(s, Send(u, o), t)
  {
  }

  /** A writer has failed exactly if a send error has occurred to it. */
  lemma {:induction false} FailedExactly(s: State, run: seq<Step>, t: Tid)
    requires Inv(s) && Possible(s, run)
    ensures PcOf(After(s, run), t) == Failed <==> PcOf(s, t) == Failed || !NeverBreaks(s, run, t)
    decreases |run|
  {
    if run != [] {
      StepFailed(s, run[0], t);
      StepInv(s, run[0]);
      FailedExactly(Apply(s, run[0]), run[1..], t);
    }
  }

  // ----- the next step -----

  /** What thread `t` does next, with a send that takes all it is given. */
  function Own(s: State, t: Tid): Step
    requires s.ring != []
  {
    match PcOf(s, t)
    case Filling(_, _) => Fill(t)
    case Unlocking => Unlock(t)
    case Arming => Arm(t)
    case Starting => Start(t)
    case Dequeuing => Dequeue(t)
    case Releasing => Release(t)
    case _ => Send(t, Wrote(if Wanted(s.ring[Index(s)]) < 0 then 0 else Wanted(s.ring[Index(s)])))
  }

  /** The holder of the lock, if there is one, can go on. */
  predicate Sane(s: State)
    requires s.ring != []
  {
    s.lock.HeldBy? ==> PcOf(s, s.lock.t) != Failed && !Doomed(s, s.lock.t)
  }

  lemma OwnEnabled(s: State, t: Tid)
    requires WireInv(s) && Sane(s) && s.lock == HeldBy(t)
    ensures Enabled(s, Own(s, t)) || (PcOf(s, t) == Dequeuing && s.filler >= 0)
  {
    assert Holder(PcOf(s, t));
    if PcOf(s, t) == Writing || PcOf(s, t) == Sending {
      HeadFilled(s, t);
      var p := Latest(s, s.head);
      assert SlotOk(s, p);
    }
  }

  lemma FillEnabled(s: State)
    requires Inv(s) && s.filler >= 0
    ensures Enabled(s, Fill(s.filler))
  {
    assert PcOf(s, s.filler).Filling?;
  }

  /** In every reachable state with something in the queue, a wakeup is coming, or the
      holder of the lock or the thread that fills a slot can take its next step, or the
      holder has failed or strayed. */
  lemma NeverStuck(s: State, run: seq<Step>)
    requires Init(s) && Possible(s, run) && !Empty(After(s, run))
    ensures var z := After(s, run);
      z.ring != [] && (WakeupComing(z) || (z.lock.HeldBy? && (!Sane(z) || Enabled(z, Own(z, z.lock.t)) || (z.filler >= 0 && Enabled(z, Fill(z.filler))))))
  {
    WireIntact(s, run);
    var z := After(s, run);
    if z.lock.HeldBy? && Sane(z) {
      OwnEnabled(z, z.lock.t);
      if z.filler >= 0 { FillEnabled(z); }
    }
  }

  // ----- a run that empties the queue -----

  lemma {:induction false} Above(k: set<Tid>) returns (n: Tid)
    ensures forall x :: x in k ==> x < n
  {
    if k == {} {
      n := 0;
    } else {
      var x :| x in k;
      var m := Above(k - {x});
      n := if x < m then m else x + 1;
      assert forall y :: y in k ==> y == x || y in k - {x};
    }
  }

  /** How many steps the holder, or the wakeup, is away from the next dequeue at most. */
  function Rank(s: State): nat {
    (if s.filler >= 0 then 1 else 0) + 2 *
    match s.lock
    case Parked => 0
    case Unlocked => if s.inHand then 6 else if s.armed && s.oneShot then 7 else 8
    case HeldBy(t) =>
      match PcOf(s, t)
      case Filling(_, _) => 10
      case Unlocking => 9
      case Releasing => 9
      case Starting => 5
      case Writing => 4
      case Sending => 3
      case _ => 2
  }

  /** One step on the way to an empty queue. */
  ghost predicate Onward(s: State, a: Step) {
    && s.ring != [] && Enabled(s, a)
    && var s' := Apply(s, a);
      && s'.ring != [] && Sane(s') && s'.history == s.history && s'.faults == s.faults && s'.tail == s.tail
      && (s'.head > s.head || (s'.head == s.head && Rank(s') < Rank(s)))
  }

  lemma FillOnward(s: State)
    requires Inv(s) && Sane(s) && s.filler >= 0 && !(s.lock.HeldBy? && PcOf(s, s.lock.t) == Sending)
    ensures Onward(s, Fill(s.filler))
  {
    FillEnabled(s);
    if s.lock.HeldBy? { assert Holder(PcOf(s, s.lock.t)); }
  }

  lemma SendOnward(s: State, t: Tid)
    requires WireInv(s) && Sane(s) && s.lock == HeldBy(t) && (PcOf(s, t) == Writing || PcOf(s, t) == Sending)
    ensures Onward(s, Own(s, t))
  {
    OwnEnabled(s, t);
    SendMoves(s, t, Own(s, t).outcome);
    SendNext(s, t, Own(s, t).outcome);
  }

  lemma SendNext(s: State, t: Tid, o: Outcome)
    requires Enabled(s, Send(t, o)) && !Strays(s, t) && o == Wrote(Wanted(s.ring[Index(s)]))
    ensures var s' := ApplySend(s, t, o);
      && PcOf(s', t) == (if s.ring[Index(s)].writeIndex < HEAD_SIZE then Sending else Dequeuing)
      && s'.ring[Index(s')].writeIndex >= HEAD_SIZE && s'.faults == s.faults
  {
  }

  lemma OwnOnward(s: State, t: Tid)
    requires WireInv(s) && Sane(s) && s.lock == HeldBy(t) && s.filler == -1
    ensures Onward(s, Own(s, t))
  {
    assert Holder(PcOf(s, t));
    if PcOf(s, t) == Writing || PcOf(s, t) == Sending {
      SendOnward(s, t);
    } else {
      OwnEnabled(s, t);
      RequesterOnward(s, t);
      WriterOnward(s, t);
    }
  }

  lemma RequesterOnward(s: State, t: Tid)
    requires Inv(s) && s.lock == HeldBy(t) && s.filler == -1 && Enabled(s, Own(s, t))
    ensures PcOf(s, t) == Unlocking || PcOf(s, t) == Releasing ==> Onward(s, Own(s, t))
  {
  }

  lemma WriterOnward(s: State, t: Tid)
    requires Inv(s) && s.lock == HeldBy(t) && s.filler == -1 && Enabled(s, Own(s, t))
    ensures PcOf(s, t) == Starting || PcOf(s, t) == Dequeuing ==> Onward(s, Own(s, t))
  {
  }

  lemma WakeOnward(s: State) returns (a: Step)
    requires Inv(s) && s.lock == Unlocked && s.filler == -1
    ensures Onward(s, a)
  {
    if s.inHand {
      var t := Above(s.pc.Keys);
      assert t !in s.pc;
      a := TryLock(t);
    } else if s.armed && s.oneShot {
      a := Fire;
    } else {
      var t :| t in s.pc && s.pc[t] == Arming;
      a := Arm(t);
    }
  }

  lemma NextOnward(s: State) returns (a: Step)
    requires WireInv(s) && Sane(s) && !Empty(s)
    ensures Onward(s, a)
  {
    if s.lock.HeldBy? && PcOf(s, s.lock.t) == Sending {
      SendOnward(s, s.lock.t);
      a := Own(s, s.lock.t);
    } else if s.filler >= 0 {
      FillOnward(s);
      a := Fill(s.filler);
    } else if s.lock.HeldBy? {
      OwnOnward(s, s.lock.t);
      a := Own(s, s.lock.t);
    } else {
      a := WakeOnward(s);
    }
  }

  /** From every state whose holder has not failed or strayed, some run without new
      requests and without EAGAIN in a data phase empties the queue. */
  lemma {:induction false} Drains(s: State) returns (run: seq<Step>)
    requires WireInv(s) && Sane(s)
    ensures Possible(s, run) && Empty(After(s, run))
    ensures After(s, run).history == s.history && After(s, run).faults == s.faults
    decreases s.tail - s.head, Rank(s)
  {
    if Empty(s) {
      run := [];
    } else {
      var a := NextOnward(s);
      StepWire(s, a);
      var rest := Drains(Apply(s, a));
      run := [a] + rest;
      assert run[1..] == rest;
    }
  }

  /** In particular after every run in which no send fails and no slot is filled again
      between header and data. */
  lemma AlwaysDrains(s: State, run: seq<Step>) returns (more: seq<Step>)
    requires Init(s) && Possible(s, run)
    requires forall t: Tid :: NeverBreaks(s, run, t) && NeverStruck(s, run, t)
    ensures Possible(After(s, run), more) && Empty(After(After(s, run), more))
    ensures After(After(s, run), more).history == After(s, run).history
  {
    WireIntact(s, run);
    var z := After(s, run);
    if z.lock.HeldBy? {
      FailedExactly(s, run, z.lock.t);
      StraysExactly(s, run, z.lock.t);
    }
    more := Drains(z);
  }
}
