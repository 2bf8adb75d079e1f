/** Whole runs of the memory pool: requests and releases in any order. */
module MemRuns {
  import opened MemAges
  import opened MemRing
  import opened MemPool

  /** `supply` is what `malloc` returns, should the request need it, and `junk` what the
      stack holds during the release, should it evict. */
  datatype Op = Get(size: nat, supply: Addr) | Release(p: Addr, junk: seq<nat>)

  datatype Answer = Handed(p: Addr) | Code(ret: int)

  /** Why a run ends early: stack contents used as a class, or a caller or `malloc` that
      does not keep to the rules. */
  datatype Stop = Done | Stray | Misuse

  /** `malloc` returns addresses that are not taken, and only blocks of the pool are released. */
  ghost predicate Sensible(s: Snap, op: Op) {
    match op
    case Get(size, supply) => size < UINT && supply !in s.mem
    case Release(p, junk) => p in s.mem && s.mem[p].index < CLASSES && |junk| == OLDEST_RANGE
  }

  ghost predicate StraysAt(s: Snap, op: Op)
    requires Shaped(s) && Sensible(s, op)
  {
    op.Release? && Strays(s, op.p, op.junk)
  }

  ghost predicate Stepped(s: Snap, op: Op, a: Answer, t: Snap)
    requires Shaped(s) && Sensible(s, op)
  {
    match op
    case Get(size, supply) => a.Handed? && Got(s, size, supply, a.p, t)
    case Release(p, junk) => a.Code? && Released(s, p, a.ret, t) && Makes(s, p, junk, a.ret, t.rings)
  }

  /** The pool as it should be: the counters tell what the rings hold, not too much lies
      idle, the blocks in use are in no ring, and the others each in that of their class. */
  ghost predicate Healthy(s: Snap) {
    && Shaped(s) && CountsOk(s.freeSize, s.currentFree, s.rings) && s.currentFree <= s.maxFree
    && (forall a :: a in s.mem && s.mem[a].inUse ==> InNoRing(s.rings, a))
    && Homed(s.mem, s.rings, NULL) && (forall j: nat :: j < CLASSES ==> HoldsIdle(s, j))
  }

  ghost predicate HoldsIdle(s: Snap, j: nat)
    requires Shaped(s) && j < CLASSES
  {
    forall a :: a in s.rings[j] ==> a in s.mem && s.mem[a].index == j && !s.mem[a].inUse
  }

  /** One step after the other, none of them straying. */
  ghost predicate Path(trace: seq<Snap>, ops: seq<Op>, answers: seq<Answer>) {
    && |trace| == |answers| + 1 && |answers| <= |ops|
    && (forall i :: 0 <= i < |trace| ==> Healthy(trace[i]))
    && (forall i: nat :: i < |answers| ==> StepAt(trace, ops, answers, i))
  }

  ghost predicate StepAt(trace: seq<Snap>, ops: seq<Op>, answers: seq<Answer>, i: nat)
    requires |trace| == |answers| + 1 && i < |answers| <= |ops| && Healthy(trace[i])
  {
    Sensible(trace[i], ops[i]) && !StraysAt(trace[i], ops[i]) && Stepped(trace[i], ops[i], answers[i], trace[i + 1])
  }

  /** What has been handed out and not released since, and the sizes asked for. */
  function Live(ops: seq<Op>, answers: seq<Answer>): map<Addr, nat>
    requires |answers| <= |ops|
  {
    if answers == [] then map[]
    else
      var n := |answers| - 1;
      var l := Live(ops, answers[..n]);
      match ops[n]
      case Get(size, _) => if answers[n].Handed? && answers[n].p != NULL then l[answers[n].p := size] else l
      case Release(p, _) => l - {p}
  }

  /** The run does one specified step after the other, and ends early exactly where a
      release strays or somebody breaks the rules. */
  method RunPool(pool: Pool, ops: seq<Op>) returns (answers: seq<Answer>, stop: Stop, ghost trace: seq<Snap>)
    requires pool.Valid() && Kempt(pool.Now()) && pool.boundary < UINT
    modifies pool
    ensures Path(trace, ops, answers) && trace[0] == old(pool.Now())
    ensures stop == Done <==> |answers| == |ops|
    ensures stop == Misuse <==> |answers| < |ops| && !Sensible(trace[|answers|], ops[|answers|])
    ensures stop == Stray <==> |answers| < |ops| && Sensible(trace[|answers|], ops[|answers|]) && StraysAt(trace[|answers|], ops[|answers|])
    ensures stop != Stray ==> pool.Valid() && trace[|answers|] == pool.Now()
  {
    answers, stop, trace := [], Done, [pool.Now()];
    PoolHealthy(pool);
    while |answers| < |ops|
      invariant pool.Valid() && Kempt(pool.Now()) && pool.boundary < UINT
      invariant Path(trace, ops, answers) && trace[0] == old(pool.Now()) && trace[|answers|] == pool.Now()
      invariant |answers| <= |ops| && stop == Done
      decreases |ops| - |answers|
    {
      var a;
      a, stop := RunOne(pool, ops[|answers|]);
      if stop != Done {
        return;
      }
      PathMore(trace, ops, answers, a, pool.Now());
      answers, trace := answers + [a], trace + [pool.Now()];
    }
  }

  method RunOne(pool: Pool, op: Op) returns (a: Answer, stop: Stop)
    requires pool.Valid() && Kempt(pool.Now()) && pool.boundary < UINT
    modifies pool
    ensures stop == Misuse <==> !Sensible(old(pool.Now()), op)
    ensures stop == Stray <==> Sensible(old(pool.Now()), op) && StraysAt(old(pool.Now()), op)
    ensures stop == Misuse ==> pool.Valid() && pool.Now() == old(pool.Now())
    ensures stop == Done ==> pool.Valid() && Kempt(pool.Now()) && pool.boundary < UINT && Healthy(pool.Now())
    ensures stop == Done ==> Stepped(old(pool.Now()), op, a, pool.Now())
  {
    a, stop := Code(0), Done;
    match op {
      case Get(size, supply) =>
        if size >= UINT || supply in pool.mem {
          stop := Misuse;
          return;
        }
        var p := pool.GetMem(size, supply);
        a := Handed(p);
      case Release(p, junk) =>
        if p !in pool.mem || |junk| != OLDEST_RANGE {
          stop := Misuse;
          return;
        }
        var ret, trap := pool.RlsMem(p, junk);
        if trap {
          stop := Stray;
          return;
        }
        a := Code(ret);
    }
    PoolHealthy(pool);
  }

  lemma PoolHealthy(pool: Pool)
    requires pool.Valid() && Kempt(pool.Now())
    ensures Healthy(pool.Now())
  {
    forall j: nat | j < CLASSES ensures HoldsIdle(pool.Now(), j) {
      assert RingOk(pool.mem, pool.free[j], pool.rings[j], j);
    }
    forall a | a in pool.mem && pool.mem[a].inUse ensures InNoRing(pool.rings, a) {
      UsedInNoRing(pool.mem, pool.free, pool.rings, a);
    }
  }

  lemma PathMore(trace: seq<Snap>, ops: seq<Op>, answers: seq<Answer>, a: Answer, t: Snap)
    requires Path(trace, ops, answers) && |answers| < |ops| && Healthy(t)
    requires var s := trace[|answers|];
      Sensible(s, ops[|answers|]) && !StraysAt(s, ops[|answers|]) && Stepped(s, ops[|answers|], a, t)
    ensures Path(trace + [t], ops, answers + [a])
  {
    var tr, an := trace + [t], answers + [a];
    assert forall i :: 0 <= i < |tr| ==> Healthy(tr[i]);
    forall i: nat | i < |an| ensures StepAt(tr, ops, an, i) {
      if i < |answers| { assert StepAt(trace, ops, answers, i); }
    }
  }

  /** A block in use that was asked for with `size`: it is large enough exactly if rounding
      up did not wrap around. */
  ghost predicate Lives(s: Snap, a: Addr, size: nat) {
    && a in s.mem && s.mem[a].inUse && a in s.cap
    && (size <= s.cap[a] <==> size + s.boundary - 1 < UINT)
  }

  /** Over any run of a pool that starts unused, blocks live are in use, in no ring, of the
      right size, and never handed out again before they are released. */
  lemma {:induction false} LiveBlocks(trace: seq<Snap>, ops: seq<Op>, answers: seq<Answer>)
    requires Path(trace, ops, answers) && 0 < trace[0].boundary < UINT
    requires forall a :: a in trace[0].mem ==> !trace[0].mem[a].inUse
    ensures var s, live := trace[|answers|], Live(ops, answers);
      s.boundary == trace[0].boundary && forall a :: a in live ==> Lives(s, a, live[a]) && InNoRing(s.rings, a)
    ensures forall i :: 0 <= i < |answers| && answers[i].Handed? && answers[i].p != NULL ==> answers[i].p !in Live(ops, answers[..i])
    decreases |answers|
  {
    if answers != [] {
      var n := |answers| - 1;
      var tr, an := trace[..n + 1], answers[..n];
      PathLess(trace, ops, answers);
      LiveBlocks(tr, ops, an);
      assert StepAt(trace, ops, answers, n);
      LiveStep(trace[n], ops[n], answers[n], trace[n + 1], Live(ops, an));
      forall i | 0 <= i < |answers| && answers[i].Handed? && answers[i].p != NULL ensures answers[i].p !in Live(ops, answers[..i]) {
        if i < n { assert an[i] == answers[i] && an[..i] == answers[..i]; }
      }
      LiveApart(trace[n + 1], Live(ops, answers));
    }
  }

  lemma LiveApart(s: Snap, live: map<Addr, nat>)
    requires Healthy(s) && forall a :: a in live ==> Lives(s, a, live[a])
    ensures forall a :: a in live ==> InNoRing(s.rings, a)
  {
  }

  lemma PathLess(trace: seq<Snap>, ops: seq<Op>, answers: seq<Answer>)
    requires Path(trace, ops, answers) && answers != []
    ensures Path(trace[..|answers|], ops, answers[..|answers| - 1])
  {
    var tr, an := trace[..|answers|], answers[..|answers| - 1];
    assert forall i :: 0 <= i < |tr| ==> Healthy(tr[i]);
    forall i: nat | i < |an| ensures StepAt(tr, ops, an, i) {
      assert StepAt(trace, ops, answers, i);
    }
  }

  lemma LiveStep(s: Snap, op: Op, a: Answer, t: Snap, live: map<Addr, nat>)
    requires Shaped(s) && Sensible(s, op) && Stepped(s, op, a, t) && 0 < s.boundary < UINT
    requires forall b :: b in live ==> Lives(s, b, live[b])
    ensures t.boundary == s.boundary
    ensures op.Get? ==> forall b :: b in live ==> Lives(t, b, live[b])
    ensures op.Get? && a.p != NULL ==> a.p !in live && Lives(t, a.p, op.size)
    ensures op.Release? ==> forall b :: b in live && b != op.p ==> Lives(t, b, live[b])
  {
    if op.Get? { AlignEnough(op.size, s.boundary); }
  }

  /** No block gets lost: apart from the one handed out or released, just the blocks that
      leave the rings leave the pool. */
  lemma BlocksKept(s: Snap, op: Op, a: Answer, t: Snap, b: Addr)
    requires Healthy(s) && Healthy(t) && Sensible(s, op) && Stepped(s, op, a, t)
    requires if op.Get? then b != a.p else b != op.p
    ensures b in t.mem <==> b in s.mem && (s.mem[b].inUse || !InNoRing(t.rings, b))
  {
    if b in t.mem && !t.mem[b].inUse {
      assert b in t.rings[t.mem[b].index];
    }
    if !InNoRing(t.rings, b) {
      var j: nat :| j < CLASSES && b in t.rings[j];
      assert HoldsIdle(t, j);
    }
  }

  // ----- a run that strays -----

  /** A block of each of the classes 1 and 2 is in use. */
  ghost predicate BothUsed(s: Snap, p: Addr, q: Addr) {
    && Healthy(s) && s.maxFree == 1 && s.boundary == 1024 && s.currentFree == 0
    && p in s.mem && s.mem[p].inUse && s.mem[p].index == 1
    && q in s.mem && s.mem[q].inUse && s.mem[q].index == 2
    && s.rings == seq(CLASSES, _ => []) && s.latest[1] == 1 && s.latest[2] == 2
  }

  /** A pool that was just created. */
  ghost predicate Fresh(s: Snap) {
    && Healthy(s) && s.maxFree == 1 && s.boundary == 1024 && s.currentFree == 0
    && s.mem == map[] && s.rings == seq(CLASSES, _ => []) && s.latest == seq(CLASSES, _ => 0) && s.getCnt == 0
  }

  lemma TwoRequests(s: Snap, p: Addr, q: Addr, a: Answer, b: Answer, t: Snap, u: Snap)
    requires Fresh(s) && p != NULL && q != NULL && p != q && Healthy(t) && Healthy(u)
    requires Stepped(s, Get(1000, p), a, t)
    ensures Sensible(t, Get(2000, q)) && a == Handed(p)
    ensures Stepped(t, Get(2000, q), b, u) ==> BothUsed(u, p, q) && b == Handed(q)
  {
    assert Class(1000, 1024) == 1 && Class(2000, 1024) == 2;
  }

  lemma FirstReleased(s: Snap, p: Addr, q: Addr, junk: seq<nat>, a: Answer, t: Snap)
    requires BothUsed(s, p, q) && p != q && |junk| == OLDEST_RANGE && Healthy(t)
    ensures Sensible(s, Release(p, junk)) && !StraysAt(s, Release(p, junk))
    ensures Stepped(s, Release(p, junk), a, t) && !(0 < junk[1] < CLASSES) ==>
      a == Code(1) && Sensible(t, Release(q, junk)) && StraysAt(t, Release(q, junk))
  {
    if Stepped(s, Release(p, junk), a, t) {
      assert t.rings[1] == [p] && forall c :: 0 <= c < CLASSES && c != 1 ==> t.rings[c] == [];
      OnlyIdle(t);
    }
  }

  lemma OnlyIdle(t: Snap)
    requires Healthy(t) && |t.rings[1]| == 1 && forall c :: 0 <= c < CLASSES && c != 1 ==> t.rings[c] == []
    ensures Idle(t.freeSize) == {1}
  {
    forall c: nat | c < CLASSES ensures t.freeSize[c] == if c == 1 then 1 else 0 {
      assert CountAt(t.freeSize, t.rings, c);
    }
  }

  /** Two blocks of different classes are handed out and released again. */
  function TwoBlocks(p: Addr, q: Addr, junk: seq<nat>): seq<Op> {
    [Get(1000, p), Get(2000, q), Release(p, junk), Release(q, junk)]
  }

  ghost predicate TwoBlocksRun(trace: seq<Snap>, answers: seq<Answer>, p: Addr, q: Addr, junk: seq<nat>) {
    && Path(trace, TwoBlocks(p, q, junk), answers) && Fresh(trace[0])
    && p != NULL && q != NULL && p != q && |junk| == OLDEST_RANGE && !(0 < junk[1] < CLASSES)
  }

  lemma TwoHandedOut(trace: seq<Snap>, answers: seq<Answer>, p: Addr, q: Addr, junk: seq<nat>)
    requires TwoBlocksRun(trace, answers, p, q, junk) && |answers| >= 1
    ensures Sensible(trace[1], Get(2000, q)) && answers[0] == Handed(p)
    ensures |answers| >= 2 ==> BothUsed(trace[2], p, q) && answers[1] == Handed(q)
  {
    var ops := TwoBlocks(p, q, junk);
    assert StepAt(trace, ops, answers, 0);
    if |answers| >= 2 {
      assert StepAt(trace, ops, answers, 1);
      TwoRequests(trace[0], p, q, answers[0], answers[1], trace[1], trace[2]);
    } else {
      TwoRequests(trace[0], p, q, answers[0], answers[0], trace[1], trace[1]);
    }
  }

  lemma ThirdStep(trace: seq<Snap>, answers: seq<Answer>, p: Addr, q: Addr, junk: seq<nat>)
    requires TwoBlocksRun(trace, answers, p, q, junk) && |answers| >= 2 && BothUsed(trace[2], p, q)
    ensures Sensible(trace[2], Release(p, junk)) && !StraysAt(trace[2], Release(p, junk))
    ensures |answers| >= 3 ==>
      answers[2] == Code(1) && Sensible(trace[3], Release(q, junk)) && StraysAt(trace[3], Release(q, junk))
  {
    if |answers| >= 3 {
      assert StepAt(trace, TwoBlocks(p, q, junk), answers, 2);
      FirstReleased(trace[2], p, q, junk, answers[2], trace[3]);
    } else {
      FirstReleased(trace[2], p, q, junk, answers[0], trace[2]);
    }
  }

  /** Such a run gets to its last step and no further. */
  lemma LastStrays(trace: seq<Snap>, answers: seq<Answer>, p: Addr, q: Addr, junk: seq<nat>)
    requires TwoBlocksRun(trace, answers, p, q, junk)
    ensures |answers| <= 3 && Sensible(trace[|answers|], TwoBlocks(p, q, junk)[|answers|])
    ensures StraysAt(trace[|answers|], TwoBlocks(p, q, junk)[|answers|]) <==> |answers| == 3
    ensures answers <= [Handed(p), Handed(q), Code(1)]
  {
    if |answers| >= 1 { TwoHandedOut(trace, answers, p, q, junk); }
    if |answers| >= 2 { ThirdStep(trace, answers, p, q, junk); }
    assert |answers| == 4 ==> StepAt(trace, TwoBlocks(p, q, junk), answers, 3);
  }

  /** A pool with room for one idle block of 1024 bytes.  A block of class 1 lies idle when
      one of class 2, the class requested last, is released: the second class to thin out
      is whatever the stack holds. */
  method StrayExample(p: Addr, q: Addr, junk: seq<nat>) returns (answers: seq<Answer>, stop: Stop)
    requires p != NULL && q != NULL && p != q && |junk| == OLDEST_RANGE && !(0 < junk[1] < CLASSES)
    ensures stop == Stray && answers == [Handed(p), Handed(q), Code(1)]
  {
    var pool := new Pool(1, 1024);
    PoolHealthy(pool);
    assert pool.latest == seq(CLASSES, _ => 0);
    ghost var trace;
    answers, stop, trace := RunPool(pool, TwoBlocks(p, q, junk));
    LastStrays(trace, answers, p, q, junk);
  }

  /** A size requested, released with room for it, and requested again: the same block,
      exactly if no other block of the class lies idle. */
  lemma SameAgain(s: Snap, size: nat, supply: Addr, p: Addr, t: Snap, ret: int, u: Snap, supply': Addr, q: Addr, v: Snap)
    requires Healthy(s) && Healthy(t) && Healthy(u) && size < UINT && 0 < s.boundary < UINT
    requires 0 < size <= 10 * s.boundary && size + s.boundary - 1 < UINT && p != NULL && supply' !in u.mem
    requires Got(s, size, supply, p, t) && t.mem[p].index < CLASSES && Released(t, p, ret, u) && !Overflows(t, p)
    requires Got(u, size, supply', q, v)
    ensures ret == 1 && (q == p <==> t.rings[Class(size, s.boundary)] == [])
    ensures q in u.mem && !u.mem[q].inUse
  {
    var c := Class(size, s.boundary);
    ClassExactly(size, s.boundary, 1);
    assert c > 0 && u.rings[c] == Joined(t.rings[c], p) && q == u.rings[c][0];
    assert q in u.rings[c] && HoldsIdle(u, c);
    if t.rings[c] != [] { assert t.rings[c][0] in t.rings[c] && HoldsIdle(t, c); }
  }
}
