/** One worker is enough: from every reachable state it can start all the calls in the queue. */
module ThreadProgress {
  import opened ThreadPool

  predicate AtTicket(p: Pc) { p.Ticket? }

  /** How far the thread in the write lock has to go. */
  function Stage(s: State): nat {
    if s.writer < 0 then 0
    else match PcOf(s, s.writer)
      case Claimed(_) => 3
      case HalfWritten(_) => 2
      case _ => 1
  }

  /** What is left to do, with worker `w` for the calls that nobody has a token for. */
  ghost function Work(s: State, w: Tid): nat {
    12 * |Group(s, ToPost)| + Stage(s) + 6 * s.sem + 5 * |Group(s, HasToken)| + 3 * |Group(s, Reading)|
    + |Group(s, AtTicket)| + One(PcOf(s, w).Running?)
  }

  /** Only `w` comes back for another call, and no call enters. */
  predicate Serving(a: Step, w: Tid) {
    !a.Enter? && ((a.Wait? || a.Finish?) ==> a.t == w)
  }

  lemma WorkLess(s: State, a: Step, w: Tid)
    requires Inv(s) && Enabled(s, a) && Serving(a, w)
    ensures Work(Apply(s, a), w) < Work(s, w) && Apply(s, a).tail == s.tail
  {
    var s', p := Apply(s, a), Moved(s, a);
    NeverFull(s, a);
    GroupMove(s, s', a.t, p, ToPost);
    GroupMove(s, s', a.t, p, HasToken);
    GroupMove(s, s', a.t, p, Reading);
    GroupMove(s, s', a.t, p, AtTicket);
    Others(s, s', a.t, p);
    StageMove(s, a);
  }

  lemma StageMove(s: State, a: Step)
    requires Inv(s) && Enabled(s, a) && !a.Enter?
    ensures Stage(Apply(s, a)) == Stage(s) - One(a.StoreFunc? || a.StoreArg? || a.Leave?)
  {
    NeverFull(s, a);
    Others(s, Apply(s, a), a.t, Moved(s, a));
    if s.writer >= 0 { assert InLock(PcOf(s, s.writer)); }
    assert InLock(PcOf(s, a.t)) <==> s.writer == a.t;
  }

  /** There is always a step until every call has been started. */
  lemma NextServing(s: State, w: Tid) returns (a: Step)
    requires Inv(s) && |s.done| < s.tail - 1
    ensures Enabled(s, a) && Serving(a, w)
  {
    if s.writer >= 0 {
      var t: Tid := s.writer;
      assert InLock(PcOf(s, t));
      a := if PcOf(s, t).Claimed? then StoreFunc(t) else if PcOf(s, t).HalfWritten? then StoreArg(t) else Leave(t);
    } else if t: Tid :| t in Group(s, ToPost) {
      assert !InLock(PcOf(s, t));
      a := Post(t);
    } else if t: Tid :| t in Group(s, HasToken) {
      a := Take(t);
    } else if t: Tid :| t in Group(s, Reading) {
      a := if PcOf(s, t).Ticket? then LoadFunc(t) else LoadArg(t);
    } else {
      assert Group(s, ToPost) == {} && Group(s, HasToken) == {} && Group(s, Reading) == {};
      assert !(w in Group(s, ToPost)) && !(w in Group(s, HasToken)) && !(w in Group(s, Reading));
      a := if PcOf(s, w).Running? then Finish(w) else Wait(w);
    }
  }

  /** Some run without new calls, in which only worker `w` comes back for more, starts every
      call that has entered the queue, each under its own ticket. */
  lemma {:induction false} Serves(s: State, w: Tid) returns (run: seq<Step>)
    requires Inv(s)
    ensures Possible(s, run) && forall i :: 0 <= i < |run| ==> Serving(run[i], w)
    ensures var z := After(s, run); Inv(z) && z.tail == s.tail && |z.done| == s.tail - 1
    decreases Work(s, w)
  {
    if |s.done| >= s.tail - 1 {
      run := [];
    } else {
      var a := NextServing(s, w);
      WorkLess(s, a, w);
      StepInv(s, a);
      var rest := Serves(Apply(s, a), w);
      run := [a] + rest;
      assert run[1..] == rest;
    }
  }

  lemma AlwaysServes(s: State, before: seq<Step>, w: Tid) returns (run: seq<Step>)
    requires Init(s) && Possible(s, before)
    ensures Possible(After(s, before), run) && forall i :: 0 <= i < |run| ==> Serving(run[i], w)
    ensures var y, z := After(s, before), After(After(s, before), run);
      && z.tail == y.tail && |z.done| == y.tail - 1
      && (forall i, j :: 0 <= i < j < |z.done| ==> z.done[i].Running? && z.done[j].Running? && z.done[i].k != z.done[j].k)
  {
    assert Group(s, ToPost) == {} && Group(s, HasToken) == {} && Group(s, Reading) == {};
    RunInv(s, before);
    run := Serves(After(s, before), w);
  }
}
