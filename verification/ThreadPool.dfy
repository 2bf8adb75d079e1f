/**
 The call queue of `tdpool.c` under every interleaving: producers enter calls under
 a spin lock and post a semaphore, workers take a token and then a ticket, and read
 the ring slot of that ticket without any lock.

 Calls are numbered from 1 in the order they enter the ring.  A slot field holds the
 number of the call whose function or argument was last stored there, so that a
 worker that picks up a field of another call can be told apart.
 */
module ThreadPool {
  import opened Arith

  type Tid = nat

  datatype Slot = Slot(func: nat, arg: nat)

  datatype Pc =
    | Idle
    | Claimed(n: nat)    // tdpl_call_func: slot of call n claimed, in the write lock
    | HalfWritten(n: nat)  // function stored
    | Written(n: nat)    // argument stored
    | Posting            // lock released, semaphore not posted yet
    | Token              // tdpl_worker_thread: semaphore passed, no ticket yet
    | Ticket(k: nat)     // head advanced to k
    | HalfRead(k: nat, func: nat)
    | Running(k: nat, func: nat, arg: nat)

  datatype State = State(
    pc: map<Tid, Pc>,
    writer: int,         // thread in the write lock, or -1
    head: nat,
    tail: nat,
    sem: nat,
    ring: seq<Slot>,
    done: seq<Pc>        // every call that a worker has started, as it ran
  )

  datatype Step =
    | Enter(t: Tid)
    | StoreFunc(t: Tid)
    | StoreArg(t: Tid)
    | Leave(t: Tid)
    | Post(t: Tid)
    | Wait(t: Tid)
    | Take(t: Tid)
    | LoadFunc(t: Tid)
    | LoadArg(t: Tid)
    | Finish(t: Tid)

  function PcOf(s: State, t: Tid): Pc {
    if t in s.pc then s.pc[t] else Idle
  }

  predicate Init(s: State) {
    s.pc == map[] && s.writer == -1 && s.head == 0 && s.tail == 1 && s.sem == 0 && s.ring != [] && s.done == []
  }

  predicate Enabled(s: State, a: Step) {
    s.ring != [] &&
    match a
    case Enter(t) => PcOf(s, t) == Idle && s.writer == -1
    case StoreFunc(t) => PcOf(s, t).Claimed?
    case StoreArg(t) => PcOf(s, t).HalfWritten?
    case Leave(t) => PcOf(s, t).Written?
    case Post(t) => PcOf(s, t) == Posting
    case Wait(t) => PcOf(s, t) == Idle && s.sem > 0
    case Take(t) => PcOf(s, t) == Token
    case LoadFunc(t) => PcOf(s, t).Ticket?
    case LoadArg(t) => PcOf(s, t).HalfRead?
    case Finish(t) => PcOf(s, t).Running?
  }

  function Cell(s: State, n: nat): nat
    requires s.ring != []
  {
    n % |s.ring|
  }

  function Apply(s: State, a: Step): State
    requires Enabled(s, a)
  {
    match a
    case Enter(t) =>
      // the test for a full queue: counters are compared without reduction
      if s.head == s.tail then s else s.(pc := s.pc[t := Claimed(s.tail)], writer := t, tail := s.tail + 1)
    case StoreFunc(t) =>
      var n := PcOf(s, t).n;
      s.(pc := s.pc[t := HalfWritten(n)], ring := s.ring[Cell(s, n) := s.ring[Cell(s, n)].(func := n)])
    case StoreArg(t) =>
      var n := PcOf(s, t).n;
      s.(pc := s.pc[t := Written(n)], ring := s.ring[Cell(s, n) := s.ring[Cell(s, n)].(arg := n)])
    case Leave(t) => s.(pc := s.pc[t := Posting], writer := -1)
    case Post(t) => s.(pc := s.pc[t := Idle], sem := s.sem + 1)
    case Wait(t) => s.(pc := s.pc[t := Token], sem := s.sem - 1)
    case Take(t) => s.(pc := s.pc[t := Ticket(s.head + 1)], head := s.head + 1)
    case LoadFunc(t) => s.(pc := s.pc[t := HalfRead(PcOf(s, t).k, s.ring[Cell(s, PcOf(s, t).k)].func)])
    case LoadArg(t) =>
      var p := PcOf(s, t);
      var r := Running(p.k, p.func, s.ring[Cell(s, p.k)].arg);
      s.(pc := s.pc[t := r], done := s.done + [r])
    case Finish(t) => s.(pc := s.pc[t := Idle])
  }

  predicate Possible(s: State, run: seq<Step>)
    decreases |run|
  {
    run == [] || (Enabled(s, run[0]) && Possible(Apply(s, run[0]), run[1..]))
  }

  function After(s: State, run: seq<Step>): State
    requires Possible(s, run)
    decreases |run|
  {
    if run == [] then s else After(Apply(s, run[0]), run[1..])
  }

  // ----- the counters -----

  predicate InLock(p: Pc) {
    p.Claimed? || p.HalfWritten? || p.Written?
  }

  predicate Reading(p: Pc) {
    p.Ticket? || p.HalfRead?
  }

  predicate ToPost(p: Pc) {
    InLock(p) || p.Posting?
  }

  predicate HasToken(p: Pc) {
    p.Token?
  }

  /** The threads whose place satisfies `f`. */
  ghost function Group(s: State, f: Pc -> bool): set<Tid> {
    set t | t in s.pc && f(s.pc[t])
  }

  /** Calls entered whose post is still to come, and posts taken without a ticket. */
  ghost function Posters(s: State): nat {
    |Group(s, ToPost)|
  }

  ghost function Tokens(s: State): nat {
    |Group(s, HasToken)|
  }

  /** The semaphore and the steps under way account for every queued call. */
  ghost predicate Counted(s: State) {
    s.head + s.sem + Posters(s) + Tokens(s) + 1 == s.tail
  }

  ghost predicate LockInv(s: State) {
    && s.writer >= -1
    && (forall t: Tid {:trigger PcOf(s, t)} :: InLock(PcOf(s, t)) <==> s.writer == t)
    && (s.writer >= 0 ==> PcOf(s, s.writer).n == s.tail - 1)
  }

  lemma Others(s: State, s': State, t: Tid, p: Pc)
    requires s'.pc == s.pc[t := p]
    ensures PcOf(s', t) == p && forall u: Tid {:trigger PcOf(s', u)} :: u != t ==> PcOf(s', u) == PcOf(s, u)
  {
  }

  function One(b: bool): nat {
    if b then 1 else 0
  }

  lemma GroupElsewhere(s: State, s': State, t: Tid, p: Pc, f: Pc -> bool)
    requires s'.pc == s.pc[t := p] && !f(Idle)
    ensures Group(s', f) - {t} == Group(s, f) - {t}
  {
    var g, g' := Group(s, f), Group(s', f);
    forall u: Tid | u != t ensures u in g' <==> u in g {
    }
  }

  /** A thread's move changes the size of a group by what it leaves and what it enters. */
  lemma GroupMove(s: State, s': State, t: Tid, p: Pc, f: Pc -> bool)
    requires s'.pc == s.pc[t := p] && !f(Idle)
    ensures |Group(s', f)| + One(f(PcOf(s, t))) == |Group(s, f)| + One(f(p))
  {
    var g, g' := Group(s, f), Group(s', f);
    assert t in g' <==> f(p);
    assert t in g <==> f(PcOf(s, t));
    GroupElsewhere(s, s', t, p, f);
    Without(g', t);
    Without(g, t);
  }

  lemma Without<T>(s: set<T>, x: T)
    ensures |s| == |s - {x}| + if x in s then 1 else 0
  {
    if x in s { assert s == (s - {x}) + {x}; } else { assert s == s - {x}; }
  }

  /** Where the acting thread goes. */
  function Moved(s: State, a: Step): Pc
    requires Enabled(s, a)
  {
    match a
    case Enter(t) => Claimed(s.tail)
    case StoreFunc(t) => HalfWritten(PcOf(s, t).n)
    case StoreArg(t) => Written(PcOf(s, t).n)
    case Leave(t) => Posting
    case Post(t) => Idle
    case Wait(t) => Token
    case Take(t) => Ticket(s.head + 1)
    case LoadFunc(t) => HalfRead(PcOf(s, t).k, s.ring[Cell(s, PcOf(s, t).k)].func)
    case LoadArg(t) => Running(PcOf(s, t).k, PcOf(s, t).func, s.ring[Cell(s, PcOf(s, t).k)].arg)
    case Finish(t) => Idle
  }

  /** The full branch of `tdpl_call_func` is never taken, whatever the capacity. */
  lemma NeverFull(s: State, a: Step)
    requires Counted(s) && Enabled(s, a)
    ensures s.head < s.tail && Apply(s, a).pc == s.pc[a.t := Moved(s, a)]
  {
  }

  lemma StepCounted(s: State, a: Step)
    requires Counted(s) && Enabled(s, a)
    ensures Counted(Apply(s, a))
  {
    NeverFull(s, a);
    GroupMove(s, Apply(s, a), a.t, Moved(s, a), ToPost);
    GroupMove(s, Apply(s, a), a.t, Moved(s, a), HasToken);
  }

  lemma StepLock(s: State, a: Step)
    requires Counted(s) && LockInv(s) && Enabled(s, a)
    ensures LockInv(Apply(s, a))
  {
    NeverFull(s, a);
    Others(s, Apply(s, a), a.t, Moved(s, a));
  }

  // ----- tickets -----

  ghost predicate ReadersOk(s: State) {
    && (forall t: Tid {:trigger PcOf(s, t)} :: Reading(PcOf(s, t)) ==> 1 <= PcOf(s, t).k <= s.head)
    && (forall t: Tid, u: Tid {:trigger PcOf(s, t), PcOf(s, u)} ::
          t != u && Reading(PcOf(s, t)) && Reading(PcOf(s, u)) ==> PcOf(s, t).k != PcOf(s, u).k)
  }

  ghost predicate DoneOk(s: State) {
    && (forall i :: 0 <= i < |s.done| ==> s.done[i].Running? && 1 <= s.done[i].k <= s.head)
    && (forall i, j :: 0 <= i < j < |s.done| ==> s.done[i].k != s.done[j].k)
    && (forall t: Tid, i {:trigger PcOf(s, t), s.done[i]} ::
          Reading(PcOf(s, t)) && 0 <= i < |s.done| ==> s.done[i].k != PcOf(s, t).k)
  }

  /** Every ticket is with one reader or done once. */
  ghost predicate TicketInv(s: State) {
    ReadersOk(s) && DoneOk(s) && |s.done| + |Group(s, Reading)| == s.head
  }

  lemma StepTicket(s: State, a: Step)
    requires Counted(s) && TicketInv(s) && Enabled(s, a)
    ensures TicketInv(Apply(s, a))
  {
    var s' := Apply(s, a);
    NeverFull(s, a);
    Others(s, s', a.t, Moved(s, a));
    GroupMove(s, s', a.t, Moved(s, a), Reading);
  }

  // ----- the ring -----

  /** Number of calls whose function, whose argument is stored. */
  ghost function Funcs(s: State): int {
    if s.writer >= 0 && PcOf(s, s.writer).Claimed? then s.tail - 2 else s.tail - 1
  }

  ghost function Args(s: State): int {
    if s.writer >= 0 && !PcOf(s, s.writer).Written? then s.tail - 2 else s.tail - 1
  }

  /** Each slot holds the newest call stored in it. */
  ghost predicate RingInv(s: State) {
    && s.ring != []
    && (forall j: nat {:trigger Cell(s, j)} :: 1 <= j <= Funcs(s) < j + |s.ring| ==> s.ring[Cell(s, j)].func == j)
    && (forall j: nat {:trigger Cell(s, j)} :: 1 <= j <= Args(s) < j + |s.ring| ==> s.ring[Cell(s, j)].arg == j)
  }

  lemma CellsApart(s: State, i: nat, j: nat)
    requires s.ring != [] && i < j < i + |s.ring|
    ensures Cell(s, i) != Cell(s, j)
  {
    ModDistinct(i, j, |s.ring|);
  }

  lemma StepRing(s: State, a: Step)
    requires Counted(s) && LockInv(s) && RingInv(s) && Enabled(s, a)
    ensures RingInv(Apply(s, a))
  {
    var s' := Apply(s, a);
    NeverFull(s, a);
    Others(s, s', a.t, Moved(s, a));
    if a.StoreFunc? || a.StoreArg? {
      var n := PcOf(s, a.t).n;
      assert PcOf(s, a.t) == PcOf(s, s.writer);
      forall j: nat | j < n < j + |s.ring| ensures Cell(s, j) != Cell(s, n) {
        CellsApart(s, j, n);
      }
    }
    forall j: nat | 1 <= j <= Funcs(s') < j + |s'.ring| ensures s'.ring[Cell(s', j)].func == j {
      assert Cell(s', j) == Cell(s, j);
    }
    forall j: nat | 1 <= j <= Args(s') < j + |s'.ring| ensures s'.ring[Cell(s', j)].arg == j {
      assert Cell(s', j) == Cell(s, j);
    }
  }

  ghost predicate Inv(s: State) {
    Counted(s) && LockInv(s) && TicketInv(s) && RingInv(s)
  }

  lemma StepInv(s: State, a: Step)
    requires Inv(s) && Enabled(s, a)
    ensures Inv(Apply(s, a))
  {
    StepCounted(s, a);
    StepLock(s, a);
    StepTicket(s, a);
    StepRing(s, a);
  }

  /** A ticket is given out only for a call that is stored completely. */
  lemma TicketStored(s: State)
    requires Counted(s) && LockInv(s)
    ensures s.head <= Args(s) <= Funcs(s) <= s.tail - 1
  {
    if s.writer >= 0 {
      assert InLock(PcOf(s, s.writer));
      assert s.writer in Group(s, ToPost);
    }
  }

  /** Whose function the reader of ticket `k` gets: its own exactly until the next call
      for the same slot has been stored. */
  lemma ReadExact(s: State, t: Tid)
    requires Inv(s) && Reading(PcOf(s, t))
    ensures var k := PcOf(s, t).k;
      && (s.ring[Cell(s, k)].func == k <==> Funcs(s) < k + |s.ring|)
      && (s.ring[Cell(s, k)].arg == k <==> Args(s) < k + |s.ring|)
  {
    TicketStored(s);
    var k := PcOf(s, t).k;
    if Funcs(s) >= k + |s.ring| { var j := Newest(s, k, Funcs(s)); }
    if Args(s) >= k + |s.ring| { var j := Newest(s, k, Args(s)); }
  }

  /** The newest number up to `m` that shares the slot of `k`. */
  lemma {:induction false} Newest(s: State, k: nat, m: int) returns (j: nat)
    requires s.ring != [] && k + |s.ring| <= m
    ensures k < j <= m < j + |s.ring| && Cell(s, j) == Cell(s, k)
    decreases m - k
  {
    j := k + |s.ring|;
    ModNext(k, |s.ring|);
    if j + |s.ring| <= m { j := Newest(s, j, m); }
  }

  // ----- whole runs -----

  lemma {:induction false} RunInv(s: State, run: seq<Step>)
    requires Inv(s) && Possible(s, run)
    ensures Inv(After(s, run))
    decreases |run|
  {
    if run != [] {
      StepInv(s, run[0]);
      RunInv(Apply(s, run[0]), run[1..]);
    }
  }

  /** In every reachable state the counters add up, the queue is never judged full, and
      every ticket given out is with one reader or has run once. */
  lemma Accounted(s: State, run: seq<Step>)
    requires Init(s) && Possible(s, run)
    ensures var z := After(s, run);
      && z.sem + Posters(z) + Tokens(z) == z.tail - 1 - z.head
      && z.head < z.tail
      && TicketInv(z)
  {
    assert Group(s, ToPost) == {} && Group(s, HasToken) == {} && Group(s, Reading) == {};
    RunInv(s, run);
  }

  /** Nobody has picked up a field of another call. */
  ghost predicate OwnCalls(s: State) {
    && (forall t: Tid {:trigger PcOf(s, t)} :: PcOf(s, t).HalfRead? ==> PcOf(s, t).func == PcOf(s, t).k)
    && (forall i :: 0 <= i < |s.done| ==> s.done[i].Running? && s.done[i].func == s.done[i].k == s.done[i].arg)
  }

  /** The slot being read has not been stored over by the call one period later. */
  ghost predicate InTime(s: State, a: Step)
    requires Enabled(s, a)
  {
    && (a.LoadFunc? ==> Funcs(s) < PcOf(s, a.t).k + |s.ring|)
    && (a.LoadArg? ==> Args(s) < PcOf(s, a.t).k + |s.ring|)
  }

  ghost predicate AllInTime(s: State, run: seq<Step>)
    requires Possible(s, run)
    decreases |run|
  {
    run == [] || (InTime(s, run[0]) && AllInTime(Apply(s, run[0]), run[1..]))
  }

  lemma StepOwn(s: State, a: Step)
    requires Inv(s) && Enabled(s, a)
    ensures OwnCalls(Apply(s, a)) <==> OwnCalls(s) && InTime(s, a)
  {
    var s' := Apply(s, a);
    NeverFull(s, a);
    Others(s, s', a.t, Moved(s, a));
    if a.LoadFunc? || a.LoadArg? { ReadExact(s, a.t); }
    if OwnCalls(s') {
      forall i | 0 <= i < |s.done| ensures s.done[i].Running? && s.done[i].func == s.done[i].k == s.done[i].arg {
        assert s'.done[i] == s.done[i];
      }
      if a.LoadArg? { assert s'.done[|s.done|] == PcOf(s', a.t); }
      forall t: Tid | PcOf(s, t).HalfRead? ensures PcOf(s, t).func == PcOf(s, t).k {
        assert t == a.t || PcOf(s', t) == PcOf(s, t);
      }
    }
  }

  lemma {:induction false} RunOwn(s: State, run: seq<Step>)
    requires Inv(s) && Possible(s, run)
    ensures OwnCalls(After(s, run)) <==> OwnCalls(s) && AllInTime(s, run)
    decreases |run|
  {
    if run != [] {
      StepOwn(s, run[0]);
      StepInv(s, run[0]);
      RunOwn(Apply(s, run[0]), run[1..]);
    }
  }

  /** The worker with ticket k runs the k-th call, over a whole run, exactly if every
      read happened before the slot was stored over. */
  lemma OwnCallsExactly(s: State, run: seq<Step>)
    requires Init(s) && Possible(s, run)
    ensures OwnCalls(After(s, run)) <==> AllInTime(s, run)
  {
    assert Group(s, ToPost) == {} && Group(s, HasToken) == {} && Group(s, Reading) == {};
    RunOwn(s, run);
  }

  // ----- a bound on the number of unread calls is not enough -----

  function Unread(s: State): int { s.tail - 1 - |s.done| }

  /** At no time are there more unread calls than the ring has slots. */
  predicate Uncrowded(s: State, run: seq<Step>)
    requires Possible(s, run)
    decreases |run|
  {
    Unread(s) <= |s.ring| && (run == [] || Uncrowded(Apply(s, run[0]), run[1..]))
  }

  /** From `s`, `run` goes by `y` and on as `rest` does, without crowding if that does. */
  predicate By(s: State, run: seq<Step>, y: State, rest: seq<Step>) {
    && Possible(y, rest) && Possible(s, run) && After(s, run) == After(y, rest)
    && (Uncrowded(y, rest) ==> Uncrowded(s, run))
  }

  lemma Cons(s: State, a: Step, y: State, rest: seq<Step>) returns (run: seq<Step>)
    requires Enabled(s, a) && Apply(s, a) == y && Possible(y, rest) && Unread(s) <= |s.ring|
    ensures By(s, run, y, rest)
  {
    run := [a] + rest;
    assert run[1..] == rest;
  }

  /** A whole call of `tdpl_call_func` with nobody else in between. */
  function Called(s: State, t: Tid): State
    requires s.ring != []
  {
    s.(pc := s.pc[t := Idle], tail := s.tail + 1, sem := s.sem + 1,
       ring := s.ring[Cell(s, s.tail) := Slot(s.tail, s.tail)])
  }

  /** Both fields are stored, the lock is still held. */
  function Stored(s: State, t: Tid): State
    requires s.ring != []
  {
    s.(pc := s.pc[t := Written(s.tail)], writer := t, tail := s.tail + 1,
       ring := s.ring[Cell(s, s.tail) := Slot(s.tail, s.tail)])
  }

  lemma Store(s: State, t: Tid, rest: seq<Step>) returns (run: seq<Step>)
    requires s.ring != [] && s.writer == -1 && PcOf(s, t) == Idle && s.head < s.tail && Unread(s) < |s.ring|
    requires Possible(Stored(s, t), rest)
    ensures By(s, run, Stored(s, t), rest)
  {
    var n, i := s.tail, Cell(s, s.tail);
    var s1 := s.(pc := s.pc[t := Claimed(n)], writer := t, tail := n + 1);
    var s2 := s1.(pc := s.pc[t := HalfWritten(n)], ring := s.ring[i := s.ring[i].(func := n)]);
    run := Cons(s2, StoreArg(t), Stored(s, t), rest);
    run := Cons(s1, StoreFunc(t), s2, run);
    run := Cons(s, Enter(t), s1, run);
  }

  lemma Call(s: State, t: Tid, rest: seq<Step>) returns (run: seq<Step>)
    requires s.ring != [] && s.writer == -1 && PcOf(s, t) == Idle && s.head < s.tail && Unread(s) < |s.ring|
    requires Possible(Called(s, t), rest)
    ensures By(s, run, Called(s, t), rest)
  {
    var s3 := Stored(s, t);
    var s4 := s3.(pc := s.pc[t := Posting], writer := -1);
    run := Cons(s4, Post(t), Called(s, t), rest);
    run := Cons(s3, Leave(t), s4, run);
    run := Store(s, t, run);
  }

  /** Worker `t` takes the next ticket. */
  function Ticketed(s: State, t: Tid): State
    requires s.sem > 0
  {
    s.(pc := s.pc[t := Ticket(s.head + 1)], head := s.head + 1, sem := s.sem - 1)
  }

  lemma TakeTicket(s: State, t: Tid, rest: seq<Step>) returns (run: seq<Step>)
    requires s.ring != [] && PcOf(s, t) == Idle && s.sem > 0 && Unread(s) <= |s.ring|
    requires Possible(Ticketed(s, t), rest)
    ensures By(s, run, Ticketed(s, t), rest)
  {
    var s1 := s.(pc := s.pc[t := Token], sem := s.sem - 1);
    run := Cons(s1, Take(t), Ticketed(s, t), rest);
    run := Cons(s, Wait(t), s1, run);
  }

  /** Worker `t` reads the slot of its ticket. */
  function Started(s: State, t: Tid): State
    requires s.ring != [] && PcOf(s, t).Ticket?
  {
    var c := s.ring[Cell(s, PcOf(s, t).k)];
    var r := Running(PcOf(s, t).k, c.func, c.arg);
    s.(pc := s.pc[t := r], done := s.done + [r])
  }

  lemma ReadSlot(s: State, t: Tid, rest: seq<Step>) returns (run: seq<Step>)
    requires s.ring != [] && PcOf(s, t).Ticket? && Unread(s) <= |s.ring|
    requires Possible(Started(s, t), rest)
    ensures By(s, run, Started(s, t), rest)
  {
    var k := PcOf(s, t).k;
    var s1 := s.(pc := s.pc[t := HalfRead(k, s.ring[Cell(s, k)].func)]);
    run := Cons(s1, LoadArg(t), Started(s, t), rest);
    run := Cons(s, LoadFunc(t), s1, run);
  }

  /** Two calls have entered, and workers 1 and 2 have the tickets. */
  function Dawdling(s: State): State
    requires s.ring != []
  {
    Ticketed(Ticketed(Called(Called(s, 0), 0), 1), 2)
  }

  lemma Dawdle(s: State, rest: seq<Step>) returns (run: seq<Step>)
    requires Init(s) && |s.ring| == 2 && Possible(Dawdling(s), rest)
    ensures By(s, run, Dawdling(s), rest)
  {
    var s1 := Called(s, 0);
    var s2 := Called(s1, 0);
    run := TakeTicket(Ticketed(s2, 1), 2, rest);
    run := TakeTicket(s2, 1, run);
    run := Call(s1, 0, run);
    run := Call(s, 0, run);
  }

  /** With max_wait_n = 1, worker 1 takes ticket 1 and dawdles, worker 2 reads call 2, and
      call 3 enters: worker 1 then runs call 3, although there never were more unread calls
      than the ring has slots. */
  lemma CountIsNotEnough(s: State) returns (run: seq<Step>)
    requires Init(s) && |s.ring| == 2
    ensures Possible(s, run) && Uncrowded(s, run)
    ensures var z := After(s, run); !OwnCalls(z) && PcOf(z, 1) == Running(1, 3, 3)
  {
    var s1 := Dawdling(s);
    var s2 := Started(s1, 2);
    var s3 := Called(s2, 0);
    var z := Started(s3, 1);
    ModNext(1, 2);
    run := ReadSlot(s3, 1, []);
    run := Call(s2, 0, run);
    run := ReadSlot(s1, 2, run);
    run := Dawdle(s, run);
    assert z.done[|z.done| - 1] == Running(1, 3, 3);
  }
}
