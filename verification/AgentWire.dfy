/**
 What the writers of one channel put on the wire, under every interleaving: the frames
 of the requests in the order of the queue, unless a data send meets EAGAIN or a request
 is put into a slot that still has bytes to send.
 */
module AgentWire {
  import opened Arith
  import opened Octets
  import opened Frames
  import opened AgentChannel

  // ----- slots -----

  /** The slot of message number `j` in a queue of length `n`. */
  function Place(j: nat, n: nat): nat
    requires n > 0
  {
    (j + 1) % n
  }

  function At(ring: seq<Slot>, j: nat): Slot
    requires ring != []
  {
    ring[Place(j, |ring|)]
  }

  /** Number of enqueued messages whose slots have been written. */
  function Filled(s: State): int {
    if s.filler >= 0 then |s.history| - 1 else |s.history|
  }

  /** No later message has been put into the slot of message `j`. */
  predicate Recent(s: State, j: int) {
    Filled(s) - |s.ring| <= j < Filled(s)
  }

  function Oldest(s: State): nat {
    if Filled(s) < |s.ring| then 0 else Filled(s) - |s.ring|
  }

  /** The bytes still to send in the slots of messages `lo` to `hi`. */
  function Debt(ring: seq<Slot>, lo: nat, hi: nat): int
    requires ring != []
  {
    if hi <= lo then 0 else Debt(ring, lo, hi - 1) + Unsent(At(ring, hi - 1))
  }

  lemma PlacesApart(i: nat, j: nat, n: nat)
    requires i < j < i + n
    ensures Place(i, n) != Place(j, n)
  {
    ModDistinct(i + 1, j + 1, n);
  }

  lemma PlaceAgain(j: nat, n: nat)
    requires n > 0
    ensures Place(j + n, n) == Place(j, n)
  {
    ModNext(j + 1, n);
  }

  lemma {:induction false} DebtKept(ring: seq<Slot>, c: Slot, i: nat, lo: nat, hi: nat)
    requires i < |ring| && forall j: nat :: lo <= j < hi ==> Place(j, |ring|) != i
    ensures Debt(ring[i := c], lo, hi) == Debt(ring, lo, hi)
  {
    if lo < hi { DebtKept(ring, c, i, lo, hi - 1); }
  }

  lemma {:induction false} DebtWritten(ring: seq<Slot>, c: Slot, p: nat, lo: nat, hi: nat)
    requires ring != [] && lo <= p < hi <= lo + |ring|
    ensures Debt(ring[Place(p, |ring|) := c], lo, hi) == Debt(ring, lo, hi) - Unsent(At(ring, p)) + Unsent(c)
  {
    if p == hi - 1 {
      forall j: nat | lo <= j < p ensures Place(j, |ring|) != Place(p, |ring|) {
        PlacesApart(j, p, |ring|);
      }
      DebtKept(ring, c, Place(p, |ring|), lo, p);
    } else {
      PlacesApart(p, hi - 1, |ring|);
      DebtWritten(ring, c, p, lo, hi - 1);
    }
  }

  lemma {:induction false} DebtFront(ring: seq<Slot>, lo: nat, hi: nat)
    requires ring != [] && lo < hi
    ensures Debt(ring, lo, hi) == Unsent(At(ring, lo)) + Debt(ring, lo + 1, hi)
  {
    if lo + 1 < hi { DebtFront(ring, lo, hi - 1); }
  }

  lemma {:induction false} DebtPaid(ring: seq<Slot>, lo: nat, hi: nat)
    requires ring != [] && forall j: nat :: lo <= j < hi ==> Unsent(At(ring, j)) == 0
    ensures Debt(ring, lo, hi) == 0
  {
    if lo < hi { DebtPaid(ring, lo, hi - 1); }
  }

  /** The last message that was put into the slot of message `j`. */
  lemma {:induction false} Latest(s: State, j: nat) returns (p: nat)
    requires s.ring != [] && j < Filled(s)
    ensures Recent(s, p) && j <= p && Place(p, |s.ring|) == Place(j, |s.ring|) && (Recent(s, j) ==> p == j)
    decreases Filled(s) - j
  {
    if Recent(s, j) {
      p := j;
    } else {
      p := Latest(s, j + |s.ring|);
      PlaceAgain(j, |s.ring|);
    }
  }

  // ----- what every step keeps, in every run -----

  ghost predicate SlotOk(s: State, j: nat)
    requires s.ring != [] && j < |s.history|
  {
    var c := At(s.ring, j);
    c.m == s.history[j] && 0 <= c.writeIndex && 0 <= Unsent(c) && (j < s.head ==> Unsent(c) == 0)
  }

  ghost predicate SlotsOk(s: State)
    requires s.ring != []
  {
    forall j: nat :: Recent(s, j) ==> SlotOk(s, j)
  }

  /** Every byte of a request whose slot was written is on the wire, still to send, or
      lost; each EAGAIN of a data send puts one byte more on the wire. */
  ghost predicate Balanced(s: State)
    requires s.ring != [] && AllSendable(s.history) && 0 <= Filled(s)
  {
    |s.wire| + Debt(s.ring, Oldest(s), Filled(s)) + s.lost == |Stream(s.history[..Filled(s)])| + s.faults
  }

  /** The part of the invariant that no program counter enters into. */
  ghost predicate Data(s: State) {
    && s.ring != [] && s.tail == |s.history| + 1 && AllSendable(s.history)
    && s.head <= Filled(s) && s.lost >= 0
    && SlotsOk(s) && Balanced(s)
  }

  /** The head task is on the wire completely. */
  ghost predicate Done(s: State)
    requires s.ring != []
  {
    s.head < Filled(s) && (Recent(s, s.head) ==> Unsent(s.ring[Index(s)]) == 0)
  }

  // ----- what every step keeps while nothing is lost -----

  /** How far the head task has got.  Its slot is filled again only after it was sent. */
  function Progress(s: State): int
    requires s.ring != [] && s.head < Filled(s)
  {
    if Recent(s, s.head) then s.ring[Index(s)].writeIndex else HEAD_SIZE + |s.history[s.head].data|
  }

  /** The frames of everything dequeued, and of the head task as far as it got. */
  ghost function Expected(s: State): seq<byte>
    requires Data(s)
  {
    Stream(s.history[..s.head]) +
    if s.head < Filled(s) then (HeadSlot(s); Frame(s.history[s.head])[..Progress(s)]) else []
  }

  lemma HeadSlot(s: State)
    requires Data(s) && s.head < Filled(s)
    ensures 0 <= Progress(s) <= |Frame(s.history[s.head])|
    ensures Recent(s, s.head) ==> s.ring[Index(s)].m == s.history[s.head]
    ensures Done(s) <==> Progress(s) == |Frame(s.history[s.head])|
  {
    if Recent(s, s.head) { assert SlotOk(s, s.head); }
  }

  /** At most the slot of the head task has been filled again, the tasks after it are
      untouched, and the wire is right. */
  ghost predicate Intact(s: State)
    requires Data(s)
  {
    && Filled(s) <= s.head + |s.ring| + 1
    && (forall j: nat :: s.head < j < Filled(s) ==> At(s.ring, j).writeIndex == 0)
    && |s.wire| == |Expected(s)| + s.faults
    && (s.faults == 0 ==> s.wire == Expected(s))
  }

  /** Where the writer can stand when the head task is on the wire. */
  predicate Past(p: Pc) {
    p.Sending? || p.Dequeuing? || p.Failed? || p.Strayed?
  }

  ghost predicate Licensed(s: State)
    requires s.ring != []
  {
    && (Done(s) ==> s.lock.HeldBy? && Past(PcOf(s, s.lock.t)))
    && (forall t: Tid :: PcOf(s, t) == Sending && Recent(s, s.head) ==> s.ring[Index(s)].writeIndex >= HEAD_SIZE)
  }

  ghost predicate FillersOk(s: State) {
    forall t: Tid :: PcOf(s, t).Filling? ==> s.history != [] && PcOf(s, t).m == s.history[|s.history| - 1]
  }

  ghost predicate WireInv(s: State) {
    && Inv(s) && Data(s) && FillersOk(s)
    && (forall t: Tid :: PcOf(s, t) == Dequeuing ==> Done(s))
    && (s.lost == 0 ==> Intact(s) && Licensed(s))
  }

  lemma InitWire(s: State)
    requires Init(s)
    ensures WireInv(s)
  {
  }

  // ----- steps that touch no slot -----

  /** Nothing but program counters, locks and an unfilled message is new. */
  predicate Same(s: State, s': State) {
    && (s'.head, s'.ring, s'.wire, s'.faults, s'.lost) == (s.head, s.ring, s.wire, s.faults, s.lost)
    && s.history <= s'.history && Filled(s') == Filled(s) && s'.tail == |s'.history| + 1
  }

  lemma SameData(s: State, s': State)
    requires Data(s) && Same(s, s') && AllSendable(s'.history)
    ensures Data(s') && (Done(s') <==> Done(s)) && (Intact(s) ==> Intact(s'))
  {
    var h, h', n := s.history, s'.history, Filled(s);
    assert h'[..n] == h[..n] && h'[..s.head] == h[..s.head];
    forall j: nat | Recent(s', j) ensures SlotOk(s', j) {
      assert Recent(s, j) && SlotOk(s, j);
    }
    assert Index(s') == Index(s);
    assert n > s.head ==> h'[s.head] == h[s.head];
    assert Expected(s') == Expected(s);
  }

  predicate Quiet(a: Step) {
    a.Claim? || a.Unlock? || a.Arm? || a.Fire? || a.TryLock? || a.Start? || a.Release?
  }

  lemma QuietSame(s: State, a: Step)
    requires Inv(s) && s.tail == |s.history| + 1 && AllSendable(s.history) && Enabled(s, a) && Quiet(a)
    ensures Same(s, Apply(s, a)) && AllSendable(Apply(s, a).history)
  {
  }

  /** A writer past the header stays where it is. */
  lemma QuietStays(s: State, a: Step, t: Tid)
    requires Inv(s) && Enabled(s, a) && Quiet(a)
    ensures Past(PcOf(Apply(s, a), t)) ==> PcOf(Apply(s, a), t) == PcOf(s, t)
    ensures s.lock == HeldBy(t) && Past(PcOf(s, t)) ==> Apply(s, a).lock == s.lock && PcOf(Apply(s, a), t) == PcOf(s, t)
  {
    assert a.Start? ==> Holder(PcOf(s, a.t));
  }

  lemma QuietLicensed(s: State, s': State)
    requires Data(s) && Licensed(s) && Same(s, s') && (Done(s') <==> Done(s))
    requires forall t: Tid :: PcOf(s', t) == Sending ==> PcOf(s, t) == Sending
    requires Done(s) ==> s'.lock == s.lock && PcOf(s', s.lock.t) == PcOf(s, s.lock.t)
    ensures Licensed(s')
  {
  }

  lemma QuietWire(s: State, a: Step)
    requires WireInv(s) && Enabled(s, a) && Quiet(a)
    ensures var s' := Apply(s, a);
      Data(s') && (Done(s) ==> Done(s')) && (s'.lost == 0 ==> Intact(s') && Licensed(s'))
  {
    QuietSame(s, a);
    SameData(s, Apply(s, a));
    if s.lost == 0 {
      forall t: Tid ensures PcOf(Apply(s, a), t) == Sending ==> PcOf(s, t) == Sending {
        QuietStays(s, a, t);
      }
      if Done(s) { QuietStays(s, a, s.lock.t); }
      QuietLicensed(s, Apply(s, a));
    }
  }

  // ----- a slot is filled -----

  /** The slot of message `n` is filled; the slots of the `|ring|` messages before it stay. */
  lemma DebtFilled(ring: seq<Slot>, lo: nat, n: nat, c: Slot)
    requires ring != [] && n < lo + |ring|
    ensures lo <= n ==> Debt(ring[Place(n, |ring|) := c], lo, n + 1) == Debt(ring, lo, n) + Unsent(c)
  {
    forall j: nat | lo <= j < n ensures Place(j, |ring|) != Place(n, |ring|) {
      PlacesApart(j, n, |ring|);
    }
    DebtKept(ring, c, Place(n, |ring|), lo, n);
  }

  /** What a fill does to the slots and to the account. */
  predicate Fills(s: State, s': State, n: nat) {
    && n < |s.history| && s.ring != [] && Filled(s) == n && Filled(s') == n + 1
    && s'.ring == s.ring[Place(n, |s.ring|) := Slot(s.history[n], 0)]
    && s'.lost == s.lost + (if n < |s.ring| then 0 else Unsent(At(s.ring, n)))
    && (s'.head, s'.tail, s'.history, s'.wire, s'.faults) == (s.head, s.tail, s.history, s.wire, s.faults)
  }

  lemma FillIs(s: State, t: Tid)
    requires Inv(s) && FillersOk(s) && s.tail == |s.history| + 1 && Enabled(s, Fill(t))
    ensures Filled(s) >= 0 && Fills(s, Apply(s, Fill(t)), Filled(s))
  {
  }

  lemma FillSlots(s: State, s': State, n: nat)
    requires Data(s) && Fills(s, s', n)
    ensures SlotsOk(s') && At(s'.ring, n) == Slot(s.history[n], 0)
    ensures forall j: nat :: j < n && Recent(s', j) ==> At(s'.ring, j) == At(s.ring, j)
  {
    forall j: nat | Recent(s', j) ensures SlotOk(s', j) && (j < n ==> At(s'.ring, j) == At(s.ring, j)) {
      if j < n {
        assert Recent(s, j) && SlotOk(s, j);
        PlacesApart(j, n, |s.ring|);
      }
    }
  }

  /** The message whose slot is filled again. */
  lemma FilledAgain(s: State, n: nat)
    requires Data(s) && n == Filled(s) && n >= |s.ring|
    ensures var i: nat := n - |s.ring|; At(s.ring, n) == At(s.ring, i) && Recent(s, i) && SlotOk(s, i)
  {
    var i: nat := n - |s.ring|;
    PlaceAgain(i, |s.ring|);
    assert Recent(s, i);
  }

  /** What the fill writes over is lost, what it writes is still to send. */
  lemma FillDebt(s: State, s': State, n: nat)
    requires Data(s) && Fills(s, s', n)
    ensures Debt(s'.ring, Oldest(s'), n + 1) + s'.lost == Debt(s.ring, Oldest(s), n) + s.lost + HEAD_SIZE + |s.history[n].data|
  {
    DebtFilled(s.ring, Oldest(s'), n, Slot(s.history[n], 0));
    if n >= |s.ring| {
      FilledAgain(s, n);
      DebtFront(s.ring, n - |s.ring|, n);
    }
  }

  lemma FillBalanced(s: State, s': State, n: nat)
    requires Data(s) && Fills(s, s', n)
    ensures Balanced(s')
  {
    var h := s.history;
    FillDebt(s, s', n);
    assert h[..n + 1] == h[..n] + [h[n]];
    StreamCat(h[..n], [h[n]]);
    StreamOne(h[n]);
  }

  lemma FillData(s: State, s': State, n: nat)
    requires Data(s) && Fills(s, s', n)
    ensures Data(s')
  {
    FillSlots(s, s', n);
    FillBalanced(s, s', n);
    if n >= |s.ring| { FilledAgain(s, n); }
  }

  /** If nothing is lost, the slot was free, or that of the head task after it was sent. */
  lemma FillSpared(s: State, s': State, n: nat)
    requires Data(s) && Intact(s) && Fills(s, s', n) && s'.lost == s.lost
    ensures n <= s.head + |s.ring| && (n == s.head + |s.ring| ==> Done(s))
  {
    if n >= |s.ring| {
      FilledAgain(s, n);
    }
  }

  lemma FillIntact(s: State, s': State, n: nat)
    requires Data(s) && Intact(s) && Fills(s, s', n) && s'.lost == s.lost
    ensures Data(s') && Intact(s') && (Done(s') <==> Done(s))
    ensures Recent(s', s.head) && s.head < n ==> s'.ring[Index(s')] == s.ring[Index(s)]
    ensures s.head == n ==> s'.ring[Index(s')].writeIndex == 0
  {
    FillData(s, s', n);
    FillSlots(s, s', n);
    FillSpared(s, s', n);
    assert s.ring[Index(s)] == At(s.ring, s.head) && s'.ring[Index(s')] == At(s'.ring, s.head);
    if s.head < n { HeadSlot(s); }
    HeadSlot(s');
    assert Expected(s') == Expected(s);
  }

  lemma FillWire(s: State, t: Tid)
    requires WireInv(s) && Enabled(s, Fill(t))
    ensures var s' := Apply(s, Fill(t));
      Data(s') && (Done(s) ==> Done(s')) && (s'.lost == 0 ==> Intact(s') && Licensed(s'))
  {
    var s', n := Apply(s, Fill(t)), Filled(s);
    FillIs(s, t);
    FillData(s, s', n);
    if Done(s) { FillDone(s, s', n); }
    if s'.lost == 0 {
      FillLost(s, s', n);
      FillIntact(s, s', n);
      FillLicensed(s, t);
    }
  }

  lemma FillLost(s: State, s': State, n: nat)
    requires Data(s) && Fills(s, s', n)
    ensures s'.lost >= s.lost
  {
    if n >= |s.ring| { FilledAgain(s, n); }
  }

  lemma FillDone(s: State, s': State, n: nat)
    requires Data(s) && Fills(s, s', n) && Done(s)
    ensures Done(s')
  {
    FillSlots(s, s', n);
    assert s.ring[Index(s)] == At(s.ring, s.head) && s'.ring[Index(s')] == At(s'.ring, s.head);
  }

  lemma FillLicensed(s: State, t: Tid)
    requires WireInv(s) && Licensed(s) && Enabled(s, Fill(t))
    requires var s' := Apply(s, Fill(t));
      && (Done(s') ==> Done(s))
      && (Recent(s', s.head) && s.head < Filled(s) ==> s'.ring[Index(s')] == s.ring[Index(s)])
    ensures Licensed(Apply(s, Fill(t)))
  {
    var s' := Apply(s, Fill(t));
    forall u: Tid | PcOf(s', u) == Sending && Recent(s', s.head) ensures s'.ring[Index(s')].writeIndex >= HEAD_SIZE {
      assert PcOf(s, u) == Sending && Holder(PcOf(s, u));
      HeadFilled(s, u);
    }
    if Done(s) { assert s.lock.t != t; }
  }

  /** Only the queue holder writes, and the head task it writes is filled in. */
  lemma HeadFilled(s: State, t: Tid)
    requires Inv(s) && s.tail == |s.history| + 1 && Consuming(PcOf(s, t))
    ensures s.head < Filled(s)
  {
    assert Holder(PcOf(s, t));
    assert s.filler >= 0 ==> PcOf(s, s.filler).Filling? && !PcOf(s, s.filler).wasEmpty;
  }

  // ----- a send -----

  /** The index in the head's slot moves; every byte is accounted for. */
  predicate Moves(s: State, s': State, c: Slot) {
    && s.ring != [] && s'.ring == s.ring[Index(s) := c]
    && c.m == s.ring[Index(s)].m && 0 <= c.writeIndex && 0 <= Unsent(c)
    && |s'.wire| + Unsent(c) + s.faults == |s.wire| + Unsent(s.ring[Index(s)]) + s'.faults
    && (s'.head, s'.tail, s'.history, s'.lost, s'.filler) == (s.head, s.tail, s.history, s.lost, s.filler)
  }

  lemma MovesData(s: State, s': State, c: Slot)
    requires Data(s) && s.head < Filled(s) && Moves(s, s', c)
    ensures Data(s')
  {
    var p := Latest(s, s.head);
    DebtWritten(s.ring, c, p, Oldest(s), Filled(s));
    MovesSlots(s, s', c, p);
  }

  lemma MovesSlots(s: State, s': State, c: Slot, p: nat)
    requires Data(s) && Moves(s, s', c) && Recent(s, p) && s.head <= p && Place(p, |s.ring|) == Index(s)
    ensures SlotsOk(s')
  {
    assert SlotOk(s, p);
    forall j: nat | Recent(s', j) ensures SlotOk(s', j) {
      assert SlotOk(s, j);
      if j < p { PlacesApart(j, p, |s.ring|); } else if p < j { PlacesApart(p, j, |s.ring|); }
    }
  }

  /** The other pending tasks are not touched. */
  lemma MovesOthers(s: State, s': State, c: Slot)
    requires Data(s) && Recent(s, s.head) && Moves(s, s', c)
    ensures s'.ring[Index(s')] == c
    ensures forall j: nat :: s.head < j < Filled(s) ==> At(s'.ring, j) == At(s.ring, j)
  {
    forall j: nat | s.head < j < Filled(s) ensures At(s'.ring, j) == At(s.ring, j) {
      PlacesApart(s.head, j, |s.ring|);
    }
  }

  lemma TakeMore<T>(f: seq<T>, i: nat, k: nat)
    requires i + k <= |f|
    ensures f[..i] + f[i..i + k] == f[..i + k]
  {
  }

  /** Sending `k` more bytes of the head task puts just those on the wire. */
  lemma WroteIntact(s: State, s': State, c: Slot, k: nat)
    requires Data(s) && Recent(s, s.head) && Intact(s) && Moves(s, s', c) && s'.faults == s.faults
    requires var d := s.ring[Index(s)];
      && c.writeIndex == d.writeIndex + k && Sendable(d.m) && 0 <= d.writeIndex && d.writeIndex + k <= |Frame(d.m)|
      && s'.wire == s.wire + Frame(d.m)[d.writeIndex..d.writeIndex + k]
    ensures Data(s') && Intact(s')
  {
    MovesData(s, s', c);
    MovesOthers(s, s', c);
    HeadSlot(s);
    HeadSlot(s');
    var m, i := s.history[s.head], Progress(s);
    TakeMore(Frame(m), i, k);
    Assoc(Stream(s.history[..s.head]), Frame(m)[..i], Frame(m)[i..i + k]);
    assert Expected(s') == Expected(s) + Frame(m)[i..i + k];
  }

  /** An EAGAIN in the data phase moves the index back over a byte already sent. */
  lemma AgainIntact(s: State, s': State, c: Slot)
    requires Data(s) && Recent(s, s.head) && Intact(s) && Moves(s, s', c)
    requires c.writeIndex == s.ring[Index(s)].writeIndex - 1 && s'.wire == s.wire && s'.faults == s.faults + 1
    ensures Data(s') && Intact(s')
  {
    MovesData(s, s', c);
    MovesOthers(s, s', c);
    HeadSlot(s);
    HeadSlot(s');
  }

  /** The send reaches the request in the head's slot. */
  predicate Reaches(s: State, t: Tid, o: Outcome)
    requires Enabled(s, Send(t, o))
  {
    var i := s.ring[Index(s)].writeIndex;
    (o.Wrote? && !Strays(s, t)) || (o.Again? && i >= HEAD_SIZE)
  }

  /** The writer is past the header of a task that is no longer there. */
  predicate Strays(s: State, t: Tid)
    requires s.ring != []
  {
    PcOf(s, t) == Sending && s.ring[Index(s)].writeIndex < HEAD_SIZE
  }

  lemma SendMovesSlot(s: State, t: Tid, o: Outcome)
    requires Enabled(s, Send(t, o)) && Reaches(s, t, o)
    ensures var s', c := ApplySend(s, t, o), s.ring[Index(s)];
      Moves(s, s', c.(writeIndex := c.writeIndex + if o.Wrote? then o.k else -1))
  {
    if o.Wrote? {
      var c := s.ring[Index(s)];
      assert |Frame(c.m)[c.writeIndex..c.writeIndex + o.k]| == o.k;
    }
  }

  lemma SendSame(s: State, t: Tid, o: Outcome)
    requires Data(s) && Enabled(s, Send(t, o)) && !Reaches(s, t, o)
    ensures Same(s, ApplySend(s, t, o))
  {
  }

  lemma SendData(s: State, t: Tid, o: Outcome)
    requires WireInv(s) && Enabled(s, Send(t, o))
    ensures Data(ApplySend(s, t, o))
  {
    HeadFilled(s, t);
    if Reaches(s, t, o) {
      var c := s.ring[Index(s)];
      SendMovesSlot(s, t, o);
      MovesData(s, ApplySend(s, t, o), c.(writeIndex := c.writeIndex + if o.Wrote? then o.k else -1));
    } else {
      SendSame(s, t, o);
      SameData(s, ApplySend(s, t, o));
    }
  }

  /** If nothing is lost, a writer that does not stray finds the head task in its slot. */
  lemma SendRecent(s: State, t: Tid, o: Outcome)
    requires WireInv(s) && s.lost == 0 && Enabled(s, Send(t, o)) && !Strays(s, t)
    ensures Recent(s, s.head)
  {
    HeadFilled(s, t);
    if !Recent(s, s.head) {
      assert Holder(PcOf(s, t)) && Done(s);
      PlaceAgain(s.head, |s.ring|);
    }
  }

  lemma ReachIntact(s: State, t: Tid, o: Outcome)
    requires Data(s) && Recent(s, s.head) && Intact(s) && Enabled(s, Send(t, o)) && Reaches(s, t, o)
    ensures Data(ApplySend(s, t, o)) && Intact(ApplySend(s, t, o))
  {
    var s', c := ApplySend(s, t, o), s.ring[Index(s)];
    SendMovesSlot(s, t, o);
    if o.Wrote? {
      WroteIntact(s, s', c.(writeIndex := c.writeIndex + o.k), o.k);
    } else {
      AgainIntact(s, s', c.(writeIndex := c.writeIndex - 1));
    }
  }

  lemma SendIntact(s: State, t: Tid, o: Outcome)
    requires WireInv(s) && s.lost == 0 && Enabled(s, Send(t, o))
    ensures Data(ApplySend(s, t, o)) && Intact(ApplySend(s, t, o))
  {
    if Reaches(s, t, o) {
      SendRecent(s, t, o);
      ReachIntact(s, t, o);
    } else {
      SendSame(s, t, o);
      SameData(s, ApplySend(s, t, o));
    }
  }

  /** The head request is all sent only if its writer is past the header. */
  lemma SendPast(s: State, t: Tid, o: Outcome)
    requires Enabled(s, Send(t, o)) && Recent(s, s.head) && !Strays(s, t)
    ensures var s' := ApplySend(s, t, o);
      (Done(s') ==> Past(PcOf(s', t))) && (PcOf(s', t) == Sending ==> s'.ring[Index(s')].writeIndex >= HEAD_SIZE)
  {
  }

  lemma SendLicensed(s: State, t: Tid, o: Outcome)
    requires WireInv(s) && s.lost == 0 && Enabled(s, Send(t, o))
    ensures Licensed(ApplySend(s, t, o))
  {
    var s' := ApplySend(s, t, o);
    SendMoves(s, t, o);
    assert Holder(PcOf(s, t));
    assert forall u: Tid :: u != t ==> PcOf(s', u) == PcOf(s, u) && !Holder(PcOf(s, u));
    if !Strays(s, t) {
      SendRecent(s, t, o);
      SendPast(s, t, o);
    }
  }

  /** Whoever goes on to dequeue has sent the whole task. */
  lemma SendDone(s: State, t: Tid, o: Outcome)
    requires WireInv(s) && Enabled(s, Send(t, o)) && PcOf(ApplySend(s, t, o), t) == Dequeuing
    ensures Done(ApplySend(s, t, o))
  {
    HeadFilled(s, t);
  }

  // ----- the head task leaves the queue -----

  /** The queue is one task shorter; only a lock and a program counter change besides. */
  predicate Leaves(s: State, s': State) {
    s' == s.(pc := s'.pc, lock := s'.lock, head := s.head + 1)
  }

  lemma DequeueIs(s: State, t: Tid)
    requires Inv(s) && Enabled(s, Dequeue(t))
    ensures var s' := Apply(s, Dequeue(t));
      Leaves(s, s') && forall u: Tid :: PcOf(s', u) != Sending
  {
    var s' := Apply(s, Dequeue(t));
    assert Holder(PcOf(s, t));
    forall u: Tid ensures PcOf(s', u) != Sending {
      assert u != t ==> PcOf(s', u) == PcOf(s, u) && !Holder(PcOf(s, u));
    }
  }

  lemma DequeueData(s: State, s': State)
    requires Data(s) && Done(s) && Leaves(s, s')
    ensures Data(s')
  {
    forall j: nat | Recent(s', j) ensures SlotOk(s', j) {
      assert Recent(s, j) && SlotOk(s, j);
    }
  }

  lemma DequeueExpected(s: State, s': State)
    requires Data(s) && Data(s') && Intact(s) && Done(s) && Leaves(s, s')
    ensures Intact(s') && !Done(s')
  {
    var h, m := s.history, s.history[s.head];
    HeadSlot(s);
    assert h[..s.head + 1] == h[..s.head] + [m];
    StreamCat(h[..s.head], [m]);
    StreamOne(m);
    assert Frame(m)[..|Frame(m)|] == Frame(m);
    if s'.head < Filled(s) {
      assert At(s.ring, s'.head) == s'.ring[Index(s')];
      HeadSlot(s');
    }
    assert Expected(s') == Expected(s);
  }

  lemma DequeueWire(s: State, t: Tid)
    requires WireInv(s) && Enabled(s, Dequeue(t))
    ensures var s' := Apply(s, Dequeue(t)); Data(s') && (s'.lost == 0 ==> Intact(s') && Licensed(s'))
  {
    var s' := Apply(s, Dequeue(t));
    DequeueIs(s, t);
    DequeueData(s, s');
    if s.lost == 0 { DequeueExpected(s, s'); }
  }

  // ----- every step -----

  /** A thread that fills a slot does so with the newest message. */
  lemma StepFilling(s: State, a: Step)
    requires FillersOk(s) && Enabled(s, a)
    requires forall t: Tid :: PcOf(s, t).Filling? <==> s.filler == t
    ensures FillersOk(Apply(s, a))
  {
    var s' := Apply(s, a);
    if a.Send? { SendMoves(s, a.t, a.outcome); }
    forall u: Tid | PcOf(s', u).Filling? ensures s'.history != [] && PcOf(s', u).m == s'.history[|s'.history| - 1] {
      assert (a.Claim? && a.t == u) || (PcOf(s', u) == PcOf(s, u) && s'.history == s.history);
    }
  }

  /** Whoever is about to dequeue got there by the last send, or was there before. */
  lemma StepDequeuing(s: State, a: Step, t: Tid)
    requires Inv(s) && Enabled(s, a) && PcOf(Apply(s, a), t) == Dequeuing
    ensures (a.Send? && a.t == t) || ((Quiet(a) || a.Fill?) && PcOf(s, t) == Dequeuing)
  {
    if a.Send? || a.Dequeue? {
      assert Holder(PcOf(s, a.t));
      assert a.t != t ==> !Holder(PcOf(s, t));
    }
  }

  lemma StepData(s: State, a: Step)
    requires WireInv(s) && Enabled(s, a)
    ensures var s' := Apply(s, a); Data(s') && (s'.lost == 0 ==> Intact(s') && Licensed(s'))
    ensures (Quiet(a) || a.Fill?) && Done(s) ==> Done(Apply(s, a))
    ensures a.Send? && PcOf(Apply(s, a), a.t) == Dequeuing ==> Done(Apply(s, a))
  {
    match a
    case Fill(t) => FillWire(s, t);
    case Send(t, o) => SendWire(s, t, o);
    case Dequeue(t) => DequeueWire(s, t);
    case _ => QuietWire(s, a);
  }

  lemma SendWire(s: State, t: Tid, o: Outcome)
    requires WireInv(s) && Enabled(s, Send(t, o))
    ensures var s' := ApplySend(s, t, o); Data(s') && (s'.lost == 0 ==> Intact(s') && Licensed(s'))
    ensures PcOf(ApplySend(s, t, o), t) == Dequeuing ==> Done(ApplySend(s, t, o))
  {
    SendData(s, t, o);
    SendMoves(s, t, o);
    if PcOf(ApplySend(s, t, o), t) == Dequeuing { SendDone(s, t, o); }
    if s.lost == 0 {
      SendIntact(s, t, o);
      SendLicensed(s, t, o);
    }
  }

  /** Every step of every thread keeps the slots of the queue, the account of the bytes
      and, as long as nothing is lost, the wire. */
  lemma StepWire(s: State, a: Step)
    requires WireInv(s) && Enabled(s, a)
    ensures WireInv(Apply(s, a))
  {
    var s' := Apply(s, a);
    StepData(s, a);
    StepInv(s, a);
    StepFilling(s, a);
    forall t: Tid | PcOf(s', t) == Dequeuing ensures Done(s') {
      StepDequeuing(s, a, t);
    }
  }

  // ----- theorems about whole runs -----

  lemma {:induction false} RunWire(s: State, run: seq<Step>)
    requires WireInv(s) && Possible(s, run)
    ensures WireInv(After(s, run))
    decreases |run|
  {
    if run != [] {
      StepWire(s, run[0]);
      RunWire(Apply(s, run[0]), run[1..]);
    }
  }

  /** With no byte lost, what is on the wire is the frames of the requests in the order
      they were queued, as far as they got, exactly if no data send ever met EAGAIN. */
  lemma WireIntact(s: State, run: seq<Step>)
    requires Init(s) && Possible(s, run)
    ensures var z := After(s, run);
      WireInv(z) && (z.lost == 0 ==> (z.wire == Expected(z) <==> z.faults == 0))
  {
    InitWire(s);
    RunWire(s, run);
  }

  /** When the queue is empty again, every byte of every request is on the wire or lost,
      and one byte more for each EAGAIN of a data send. */
  lemma Conserved(s: State, run: seq<Step>)
    requires Init(s) && Possible(s, run) && Empty(After(s, run))
    ensures var z := After(s, run);
      AllSendable(z.history) && |z.wire| + z.lost == |Stream(z.history)| + z.faults
  {
    WireIntact(s, run);
    var z := After(s, run);
    assert Filled(z) == |z.history| == z.head && z.history[..|z.history|] == z.history;
    forall j: nat | Oldest(z) <= j < Filled(z) ensures Unsent(At(z.ring, j)) == 0 {
      assert Recent(z, j) && SlotOk(z, j);
    }
    DebtPaid(z.ring, Oldest(z), Filled(z));
  }

  /** When the queue is empty again and no data send met EAGAIN, the wire holds the
      requests exactly if none was put into a slot that had bytes still to send; and if
      none was, exactly if no data send met EAGAIN. */
  lemma AtRest(s: State, run: seq<Step>)
    requires Init(s) && Possible(s, run) && Empty(After(s, run))
    ensures var z := After(s, run);
      && AllSendable(z.history) && z.lost >= 0
      && (z.faults == 0 ==> (z.wire == Stream(z.history) <==> z.lost == 0))
      && (z.lost == 0 ==> (z.wire == Stream(z.history) <==> z.faults == 0))
  {
    WireIntact(s, run);
    Conserved(s, run);
    var z := After(s, run);
    assert Filled(z) == z.head && z.history[..z.head] == z.history;
    assert z.lost == 0 ==> Expected(z) == Stream(z.history);
  }

  /** Whoever is in the loop finds a task that it can send. */
  lemma CanSend(s: State, run: seq<Step>, t: Tid)
    requires Init(s) && Possible(s, run)
    ensures var z := After(s, run);
      (PcOf(z, t) == Writing || PcOf(z, t) == Sending ==> Enabled(z, Send(t, Wrote(0))))
  {
    WireIntact(s, run);
    var z := After(s, run);
    if PcOf(z, t) == Writing || PcOf(z, t) == Sending {
      HeadFilled(z, t);
      var p := Latest(z, z.head);
      assert SlotOk(z, p);
    }
  }

  // ----- a slot filled again between header and data -----

  /** A request is put into the slot of which writer `t` has just sent the header. */
  predicate Strikes(s: State, a: Step, t: Tid)
    requires s.ring != []
  {
    a.Fill? && PcOf(s, t) == Sending && (s.tail - 1) % |s.ring| == Index(s)
  }

  predicate NeverStruck(s: State, run: seq<Step>, t: Tid)
    requires Possible(s, run)
    decreases |run|
  {
    run == [] || (!Strikes(s, run[0], t) && NeverStruck(Apply(s, run[0]), run[1..], t))
  }

  /** The data is, or is about to be, taken from in front of its buffer. */
  predicate Doomed(s: State, t: Tid)
    requires s.ring != []
  {
    PcOf(s, t) == Strayed || Strays(s, t)
  }

  lemma StepDoomed(s: State, a: Step, t: Tid)
    requires Inv(s) && Enabled(s, a)
    ensures Inv(Apply(s, a))
    ensures Doomed(Apply(s, a), t) <==> Doomed(s, t) || Strikes(s, a, t)
  {
    StepInv(s, a);
    if a.Send? {
      SendDoomed(s, a.t, a.outcome, t);
    } else if a.Dequeue? || a.Start? || a.Release? || a.Unlock? {
      assert Holder(PcOf(s, a.t));
    }
  }

  lemma SendDoomed(s: State, u: Tid, o: Outcome, t: Tid)
    requires Inv(s) && Enabled(s, Send(u, o))
    ensures ApplySend(s, u, o).ring != [] && (Doomed(ApplySend(s, u, o), t) <==> Doomed(s, t))
  {
    assert Holder(PcOf(s, u));
    SendMoves(s, u, o);
    if t == u { SenderDoomed(s, u, o); }
  }

  lemma SenderDoomed(s: State, u: Tid, o: Outcome)
    requires Enabled(s, Send(u, o))
    ensures ApplySend(s, u, o).ring != [] && (Doomed(ApplySend(s, u, o), u) <==> Doomed(s, u))
  {
  }

  /** Data is taken from in front of its buffer exactly if a slot is filled again between
      the header and the data of the request in it. */
  lemma {:induction false} StraysExactly(s: State, run: seq<Step>, t: Tid)
    requires Inv(s) && !Doomed(s, t) && Possible(s, run)
    ensures After(s, run).ring != [] && (Doomed(After(s, run), t) <==> !NeverStruck(s, run, t))
    decreases |run|
  {
    if run != [] {
      StepDoomed(s, run[0], t);
      if Doomed(Apply(s, run[0]), t) {
        StaysDoomed(Apply(s, run[0]), run[1..], t);
      } else {
        StraysExactly(Apply(s, run[0]), run[1..], t);
      }
    }
  }

  lemma {:induction false} StaysDoomed(s: State, run: seq<Step>, t: Tid)
    requires Inv(s) && Doomed(s, t) && Possible(s, run)
    ensures After(s, run).ring != [] && Doomed(After(s, run), t)
    decreases |run|
  {
    if run != [] {
      StepDoomed(s, run[0], t);
      StaysDoomed(Apply(s, run[0]), run[1..], t);
    }
  }
}
