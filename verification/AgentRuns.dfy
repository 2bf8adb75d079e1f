/**
 Runs of one channel with a queue of one: an EAGAIN in the data phase, and a request put
 over one that is not sent, over one that is sent, and between the header and the data
 of one.  The runs are built from their ends.
 */
module AgentRuns {
  import opened Octets
  import opened Frames
  import opened AgentChannel
  import opened AgentWire

  /** From `s`, `run` goes by `y` and on as `rest` does from there. */
  predicate By(s: State, run: seq<Step>, y: State, rest: seq<Step>) {
    Possible(y, rest) && Possible(s, run) && After(s, run) == After(y, rest)
  }

  lemma Cons(s: State, a: Step, y: State, rest: seq<Step>) returns (run: seq<Step>)
    requires Enabled(s, a) && Apply(s, a) == y && Possible(y, rest)
    ensures By(s, run, y, rest)
  {
    run := [a] + rest;
    assert run[1..] == rest;
  }

  /** After `acm_connect`, with a queue of one. */
  ghost function Start0(): (s: State)
    ensures Init(s) && |s.ring| == 1
  {
    State(map[], Parked, -1, true, false, false, 0, 1, [Slot(Msg(0, []), 0)], [], [], 0, 0)
  }

  /** The first request is queued and waits for the writable event. */
  ghost function Queued(m: Msg): State {
    State(map[0 := Idle], Unlocked, -1, true, true, false, 0, 2, [Slot(m, 0)], [m], [], 0, 0)
  }

  /** Requester 0 queues `m` and registers for the writable event. */
  lemma Queue(m: Msg, rest: seq<Step>) returns (run: seq<Step>)
    requires Sendable(m) && Possible(Queued(m), rest)
    ensures By(Start0(), run, Queued(m), rest)
  {
    var s3 := Queued(m).(pc := map[0 := Arming], oneShot := false);
    var s2 := s3.(pc := map[0 := Unlocking], lock := HeldBy(0));
    var s1 := s2.(pc := map[0 := Filling(true, m)], filler := 0, ring := Start0().ring);
    run := Cons(s3, Arm(0), Queued(m), rest);
    run := Cons(s2, Unlock(0), s3, run);
    run := Cons(s1, Fill(0), s2, run);
    run := Cons(Start0(), Claim(0, m), s1, run);
  }

  /** Requester 0 queues `n` in a queue that is not empty, over what is in the slot. */
  ghost function Added(s: State, n: Msg): State
    requires |s.ring| == 1
  {
    s.(pc := s.pc[0 := Idle], tail := s.tail + 1, history := s.history + [n], ring := [Slot(n, 0)],
       lost := s.lost + Unsent(s.ring[0]))
  }

  lemma Add(s: State, n: Msg, rest: seq<Step>) returns (run: seq<Step>)
    requires |s.ring| == 1 && s.filler == -1 && PcOf(s, 0) == Idle && s.head + 2 == s.tail && Sendable(n)
    requires Possible(Added(s, n), rest)
    ensures By(s, run, Added(s, n), rest)
  {
    var s1 := s.(pc := s.pc[0 := Filling(false, n)], filler := 0, tail := s.tail + 1, history := s.history + [n]);
    run := Cons(s1, Fill(0), Added(s, n), rest);
    run := Cons(s, Claim(0, n), s1, run);
  }

  /** Writer 1 is woken. */
  ghost function Awake(s: State): State {
    s.(pc := s.pc[1 := Writing], lock := HeldBy(1), armed := false)
  }

  lemma Wake(s: State, rest: seq<Step>) returns (run: seq<Step>)
    requires s.ring != [] && s.armed && s.oneShot && !s.inHand && s.lock == Unlocked && PcOf(s, 1) == Idle && !Empty(s)
    requires Possible(Awake(s), rest)
    ensures By(s, run, Awake(s), rest)
  {
    var s1 := s.(inHand := true, armed := false);
    var s2 := s.(pc := s.pc[1 := Starting], lock := HeldBy(1), armed := false);
    run := Cons(s2, Start(1), Awake(s), rest);
    run := Cons(s1, TryLock(1), s2, run);
    run := Cons(s, Fire, s1, run);
  }

  /** Writer 1 has sent the rest of the header, or of the data, of the one task. */
  ghost function Sent(s: State, p: Pc): State
    requires |s.ring| == 1 && Sendable(s.ring[0].m) && 0 <= s.ring[0].writeIndex <= HEAD_SIZE + |s.ring[0].m.data|
  {
    var c := s.ring[0];
    var i := c.writeIndex + Wanted(c);
    s.(pc := s.pc[1 := p], wire := s.wire + Frame(c.m)[c.writeIndex..i], ring := [c.(writeIndex := i)])
  }

  lemma SendHeader(s: State, rest: seq<Step>) returns (run: seq<Step>)
    requires |s.ring| == 1 && Sendable(s.ring[0].m) && 0 <= s.ring[0].writeIndex < HEAD_SIZE && PcOf(s, 1) == Writing
    requires Possible(Sent(s, Sending), rest)
    ensures By(s, run, Sent(s, Sending), rest)
  {
    run := Cons(s, Send(1, Wrote(Wanted(s.ring[0]))), Sent(s, Sending), rest);
  }

  lemma SendRest(s: State, rest: seq<Step>) returns (run: seq<Step>)
    requires |s.ring| == 1 && Sendable(s.ring[0].m) && HEAD_SIZE <= s.ring[0].writeIndex <= HEAD_SIZE + |s.ring[0].m.data|
    requires (PcOf(s, 1) == Writing || PcOf(s, 1) == Sending) && Possible(Sent(s, Dequeuing), rest)
    ensures By(s, run, Sent(s, Dequeuing), rest)
  {
    run := Cons(s, Send(1, Wrote(Wanted(s.ring[0]))), Sent(s, Dequeuing), rest);
  }

  /** Writer 1 has sent the whole task. */
  ghost function SentAll(s: State, m: Msg): State
    requires Sendable(m)
  {
    s.(pc := s.pc[1 := Dequeuing], wire := s.wire + Frame(m), ring := [Slot(m, HEAD_SIZE + |m.data|)])
  }

  lemma SendAll(s: State, m: Msg, rest: seq<Step>) returns (run: seq<Step>)
    requires s.ring == [Slot(m, 0)] && Sendable(m) && PcOf(s, 1) == Writing && Possible(SentAll(s, m), rest)
    ensures By(s, run, SentAll(s, m), rest)
  {
    var f, s1 := Frame(m), Sent(s, Sending);
    TakeMore(f, HEAD_SIZE, |m.data|);
    assert f[0..HEAD_SIZE] == f[..HEAD_SIZE] && f[..HEAD_SIZE + |m.data|] == f;
    Assoc(s.wire, f[..HEAD_SIZE], f[HEAD_SIZE..HEAD_SIZE + |m.data|]);
    assert Sent(s1, Dequeuing) == SentAll(s, m);
    run := SendRest(s1, rest);
    run := SendHeader(s, run);
  }

  /** Writer 1 takes the last task out of the queue. */
  ghost function Emptied(s: State): State {
    s.(pc := s.pc[1 := Idle], head := s.head + 1, lock := Parked)
  }

  lemma TakeLast(s: State, rest: seq<Step>) returns (run: seq<Step>)
    requires s.ring != [] && PcOf(s, 1) == Dequeuing && s.filler == -1 && s.head + 2 == s.tail && s.lock == HeldBy(1)
    requires Possible(Emptied(s), rest)
    ensures By(s, run, Emptied(s), rest)
  {
    run := Cons(s, Dequeue(1), Emptied(s), rest);
  }

  /** Writer 1 takes a task out of the queue and goes on with the next. */
  ghost function Advanced(s: State): State {
    s.(pc := s.pc[1 := Writing], head := s.head + 1)
  }

  lemma TakeNext(s: State, rest: seq<Step>) returns (run: seq<Step>)
    requires s.ring != [] && PcOf(s, 1) == Dequeuing && s.filler == -1 && s.head + 2 < s.tail
    requires Possible(Advanced(s), rest)
    ensures By(s, run, Advanced(s), rest)
  {
    run := Cons(s, Dequeue(1), Advanced(s), rest);
  }

  // ----- an EAGAIN in the data phase -----

  /** The EAGAIN moved the index back; the writer has left and registered again. */
  ghost function Backed(s: State): State
    requires |s.ring| == 1
  {
    var c := s.ring[0];
    s.(pc := s.pc[1 := Idle], lock := Unlocked, armed := true, oneShot := true, faults := s.faults + 1,
       ring := [c.(writeIndex := c.writeIndex - 1)])
  }

  lemma BackOff(s: State, rest: seq<Step>) returns (run: seq<Step>)
    requires |s.ring| == 1 && Sendable(s.ring[0].m) && PcOf(s, 1) == Sending
    requires HEAD_SIZE <= s.ring[0].writeIndex <= HEAD_SIZE + |s.ring[0].m.data|
    requires Possible(Backed(s), rest)
    ensures By(s, run, Backed(s), rest)
  {
    var z := Backed(s);
    var s2 := z.(pc := s.pc[1 := Arming], armed := s.armed, oneShot := s.oneShot);
    var s1 := s2.(pc := s.pc[1 := Releasing], lock := s.lock);
    run := Cons(s2, Arm(1), z, rest);
    run := Cons(s1, Release(1), s2, run);
    run := Cons(s, Send(1, Again), s1, run);
  }

  /** Writer 1 sends the last byte of the header, the data, and leaves an empty queue. */
  lemma Resume(s: State) returns (run: seq<Step>)
    requires |s.ring| == 1 && Sendable(s.ring[0].m) && s.ring[0].writeIndex == HEAD_SIZE - 1
    requires PcOf(s, 1) == Writing && s.filler == -1 && s.head + 2 == s.tail && s.lock == HeldBy(1)
    ensures Possible(s, run) && After(s, run) == Emptied(Sent(Sent(s, Sending), Dequeuing))
  {
    var s1 := Sent(s, Sending);
    run := TakeLast(Sent(s1, Dequeuing), []);
    run := SendRest(s1, run);
    run := SendHeader(s, run);
  }

  /** The header is sent, the first data send meets EAGAIN, and the rest goes well: one
      byte of the header is on the wire twice, and the queue is empty. */
  lemma FaultExample(m: Msg) returns (run: seq<Step>)
    requires Sendable(m)
    ensures Possible(Start0(), run)
    ensures var z := After(Start0(), run);
      && Empty(z) && z.history == [m] && z.faults == 1 && z.lost == 0
      && z.wire == Frame(m)[..HEAD_SIZE] + Frame(m)[HEAD_SIZE - 1..] && z.wire != Stream([m])
  {
    var s1 := Awake(Queued(m));
    var s2 := Sent(s1, Sending);
    run := Resume(Awake(Backed(s2)));
    run := Wake(Backed(s2), run);
    run := BackOff(s2, run);
    run := SendHeader(s1, run);
    run := Wake(Queued(m), run);
    run := Queue(m, run);
    FaultWire(m);
  }

  lemma FaultWire(m: Msg)
    requires Sendable(m)
    ensures var f := Frame(m);
      && [] + f[0..HEAD_SIZE] + f[HEAD_SIZE - 1..HEAD_SIZE] + f[HEAD_SIZE..HEAD_SIZE + |m.data|]
         == f[..HEAD_SIZE] + f[HEAD_SIZE - 1..]
      && AllSendable([m]) && f[..HEAD_SIZE] + f[HEAD_SIZE - 1..] != Stream([m])
  {
    StreamOne(m);
    assert |Frame(m)| == HEAD_SIZE + |m.data|;
  }

  // ----- a second request in a queue of one -----

  /** Writer 1 sends the last task and leaves an empty queue. */
  lemma Finish(s: State, n: Msg) returns (run: seq<Step>)
    requires s.ring == [Slot(n, 0)] && Sendable(n) && PcOf(s, 1) == Writing && s.filler == -1
    requires s.head + 2 == s.tail && s.lock == HeldBy(1)
    ensures Possible(s, run) && After(s, run) == Emptied(SentAll(s, n))
  {
    run := TakeLast(SentAll(s, n), []);
    run := SendAll(s, n, run);
  }

  /** Writer 1 sends the last task when it is the turn of the one before it, and nothing
      when its own turn comes. */
  lemma FinishTwice(s: State, n: Msg) returns (run: seq<Step>)
    requires s.ring == [Slot(n, 0)] && Sendable(n) && PcOf(s, 1) == Writing && s.filler == -1
    requires s.head + 3 == s.tail && s.lock == HeldBy(1)
    ensures Possible(s, run) && After(s, run) == Emptied(Advanced(SentAll(s, n)))
  {
    var s2 := Advanced(SentAll(s, n));
    var i := HEAD_SIZE + |n.data|;
    assert s2.wire + Frame(n)[i..i] == s2.wire;
    run := TakeLast(Sent(s2, Dequeuing), []);
    run := SendRest(s2, run);
    run := TakeNext(SentAll(s, n), run);
    run := SendAll(s, n, run);
  }

  /** The second request is queued before the first is sent.  The writer sends it in the
      place of the first, finds it sent when its own turn comes, and leaves an empty queue:
      the first request is lost. */
  lemma OverflowExample(m: Msg, n: Msg) returns (run: seq<Step>)
    requires Sendable(m) && Sendable(n)
    ensures Possible(Start0(), run)
    ensures var z := After(Start0(), run);
      Empty(z) && z.history == [m, n] && z.faults == 0 && z.lost == |Frame(m)| && z.wire == Frame(n)
  {
    run := FinishTwice(Awake(Added(Queued(m), n)), n);
    run := Wake(Added(Queued(m), n), run);
    run := Add(Queued(m), n, run);
    run := Queue(m, run);
    assert [] + Frame(n) == Frame(n) && |Frame(m)| == HEAD_SIZE + |m.data|;
  }

  /** The first request is sent but not yet taken out, and the second in its slot. */
  ghost function Reused(m: Msg, n: Msg): State
    requires Sendable(m)
  {
    Added(SentAll(Awake(Queued(m)), m), n)
  }

  lemma Reuse(m: Msg, n: Msg) returns (run: seq<Step>)
    requires Sendable(m) && Sendable(n)
    ensures Possible(Start0(), run) && After(Start0(), run) == Reused(m, n)
  {
    var s1 := Awake(Queued(m));
    run := Add(SentAll(s1, m), n, []);
    run := SendAll(s1, m, run);
    run := Wake(Queued(m), run);
    run := Queue(m, run);
  }

  /** The queue is over-full for a moment, and nothing is lost. */
  lemma ReuseExample(m: Msg, n: Msg) returns (first: seq<Step>, rest: seq<Step>)
    requires Sendable(m) && Sendable(n)
    ensures Possible(Start0(), first) && Possible(After(Start0(), first), rest)
    ensures var y := After(Start0(), first); y.tail - 1 - y.head > |y.ring|
    ensures var z := After(After(Start0(), first), rest);
      Empty(z) && z.history == [m, n] && z.faults == 0 && z.lost == 0 && z.wire == Stream([m, n])
  {
    first := Reuse(m, n);
    var y := Reused(m, n);
    rest := Finish(Advanced(y), n);
    rest := TakeNext(y, rest);
    TwoFrames(m, n);
  }

  lemma TwoFrames(m: Msg, n: Msg)
    requires Sendable(m) && Sendable(n)
    ensures [] + Frame(m) + Frame(n) == Stream([m] + [n]) && [m] + [n] == [m, n]
  {
    StreamOne(m);
    StreamOne(n);
    StreamCat([m], [n]);
  }

  /** The second request is queued between the header of the first, which has no data, and
      its data: no byte is lost, but the writer takes bytes in front of the new buffer. */
  lemma StrayExample(m: Msg, n: Msg) returns (run: seq<Step>)
    requires Sendable(m) && Sendable(n) && m.data == []
    ensures Possible(Start0(), run)
    ensures var z := After(Start0(), run); PcOf(z, 1) == Strayed && z.lost == 0 && z.faults == 0
  {
    var s1 := Awake(Queued(m));
    var s2 := Added(Sent(s1, Sending), n);
    run := Cons(s2, Send(1, Wrote(0)), s2.(pc := s2.pc[1 := Strayed]), []);
    run := Add(Sent(s1, Sending), n, run);
    run := SendHeader(s1, run);
    run := Wake(Queued(m), run);
    run := Queue(m, run);
  }
}
