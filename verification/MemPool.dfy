/**
 `mmpool.c`: an allocator that keeps released blocks in ten size classes, each a
 ring, and gives memory back to the system when too much lies idle.
 */
module MemPool {
  import opened Arith
  import opened MemAges
  import opened MemRing

  const UINT := 0x1_0000_0000

  function Sum(s: seq<int>): int {
    if s == [] then 0 else s[0] + Sum(s[1..])
  }

  lemma {:induction false} SumUpdate(s: seq<int>, i: nat, v: int)
    requires i < |s|
    ensures Sum(s[i := v]) == Sum(s) - s[i] + v
  {
    if i > 0 {
      SumUpdate(s[1..], i - 1, v);
      assert s[i := v][1..] == s[1..][i - 1 := v];
    } else {
      assert s[0 := v][1..] == s[1..];
    }
  }

  lemma {:induction false} SumZero(s: seq<int>)
    requires forall i :: 0 <= i < |s| ==> s[i] == 0
    ensures Sum(s) == 0
  {
    if s != [] { SumZero(s[1..]); }
  }

  /** `MMPL_ALIGN` in 32-bit arithmetic, for a boundary that is a power of two. */
  function Align(size: nat, boundary: nat): nat
    requires boundary > 0
  {
    var up := (size + boundary - 1) % UINT;
    up - up % boundary
  }

  /** The size class of a request; 0 stands for too large (and for nothing at all). */
  function Class(size: nat, boundary: nat): nat
    requires boundary > 0
  {
    var index := Align(size, boundary) / boundary;
    if index > MAX_INDEX then 0 else index
  }

  lemma AlignClass(size: nat, boundary: nat)
    requires boundary > 0
    ensures Class(size, boundary) < CLASSES
    ensures Class(size, boundary) > 0 ==> Align(size, boundary) == Class(size, boundary) * boundary
  {
    var up := (size + boundary - 1) % UINT;
    var q := up / boundary;
    assert up == boundary * q + up % boundary;
    DivUnique(boundary * q, boundary, q, 0);
  }

  /** The block is large enough exactly if rounding up does not wrap around. */
  lemma AlignEnough(size: nat, boundary: nat)
    requires 0 < boundary < UINT && size < UINT
    ensures Align(size, boundary) >= size <==> size + boundary - 1 < 0x1_0000_0000
  {
    var up := (size + boundary - 1) % UINT;
    var q := up / boundary;
    assert up == boundary * q + up % boundary;
    if size + boundary - 1 < UINT {
      assert up == size + boundary - 1;
    } else {
      DivUnique(size + boundary - 1, UINT, 1, size + boundary - 1 - UINT);
    }
  }

  /** The classes 1 to 10 are the sizes up to one to ten boundaries; everything else, and
      nothing at all, is class 0. */
  lemma ClassExactly(size: nat, boundary: nat, c: nat)
    requires 0 < boundary < UINT && size < UINT && 1 <= c <= 10
    ensures Class(size, boundary) == c <==> size + boundary - 1 < 0x1_0000_0000 && (c - 1) * boundary < size <= c * boundary
    ensures Class(size, boundary) == 0 <==> size == 0 || size > 10 * boundary || size + boundary - 1 >= 0x1_0000_0000
    ensures size + boundary - 1 < UINT ==> size <= Align(size, boundary) < size + boundary && Align(size, boundary) % boundary == 0
  {
    var up := (size + boundary - 1) % UINT;
    var q := up / boundary;
    assert up == boundary * q + up % boundary;
    DivUnique(boundary * q, boundary, q, 0);
    if size + boundary - 1 < UINT {
      assert up == size + boundary - 1;
      Multiples(boundary, q, c, size);
      Multiples(boundary, q, 10, size);
    } else {
      DivUnique(size + boundary - 1, UINT, 1, size + boundary - 1 - UINT);
      DivUnique(up, boundary, 0, up);
    }
  }

  /** `q` boundaries are the fewest that cover `size`. */
  lemma Multiples(b: nat, q: nat, c: nat, size: nat)
    requires b > 0 && c >= 1 && b * q <= size + b - 1 < b * q + b
    ensures q == c <==> (c - 1) * b < size <= c * b
    ensures q > c <==> size > c * b
    ensures q == 0 <==> size == 0
  {
    assert b * (c - 1) == b * c - b && b * c == c * b && b * (c - 1) == (c - 1) * b;
    Distribute(b, q, c);
    Distribute(b, c, q);
    if q > c { AtLeastOnce(b, q - c); }
    if q < c { AtLeastOnce(b, c - q); }
    if q >= 1 { AtLeastOnce(b, q); }
  }

  // ----- all rings at once -----

  function First(r: seq<Addr>): Addr {
    if r == [] then NULL else r[0]
  }

  /** Ring `i` holds idle blocks of class `i`. */
  ghost predicate RingOk(m: Mem, head: Addr, r: seq<Addr>, i: nat) {
    Ring(m, r) && head == First(r) && forall a :: a in r ==> a in m && m[a].index == i && !m[a].inUse
  }

  ghost predicate RingsOk(m: Mem, free: seq<Addr>, rings: seq<seq<Addr>>) {
    && |free| == |rings| == CLASSES && rings[0] == [] && NULL !in m
    && (forall i {:trigger rings[i]} :: 0 <= i < CLASSES ==> RingOk(m, free[i], rings[i], i))
  }

  ghost predicate InNoRing(rings: seq<seq<Addr>>, p: Addr) {
    forall j {:trigger rings[j]} :: 0 <= j < |rings| ==> p !in rings[j]
  }

  /** What happens to blocks in no ring does not concern the rings. */
  lemma RingsFrame(m: Mem, m': Mem, free: seq<Addr>, rings: seq<seq<Addr>>, p: Addr)
    requires RingsOk(m, free, rings) && InNoRing(rings, p) && NULL !in m'
    requires forall a :: a in m && a != p ==> a in m' && m'[a] == m[a]
    ensures RingsOk(m', free, rings)
  {
    forall j | 0 <= j < CLASSES ensures RingOk(m', free[j], rings[j], j) {
      var q := rings[j];
      assert RingOk(m, free[j], q, j);
      forall k | 0 <= k < |q| ensures SameNext(m, m', q[k]) && SamePre(m, m', q[k]) {
        assert q[k] in q;
      }
      RingFrame(m, m', q);
    }
  }

  /** A block that has just left its ring is in none. */
  lemma TakenOut(m: Mem, free: seq<Addr>, rings: seq<seq<Addr>>, i: nat)
    requires RingsOk(m, free, rings) && i < CLASSES && rings[i] != []
    ensures InNoRing(rings[i := rings[i][1..]], rings[i][0])
  {
    var p := rings[i][0];
    assert RingOk(m, free[i], rings[i], i) && p in rings[i];
    var rest := rings[i := rings[i][1..]];
    forall j | 0 <= j < CLASSES ensures p !in rest[j] {
      assert RingOk(m, free[j], rings[j], j);
    }
  }

  lemma UsedInNoRing(m: Mem, free: seq<Addr>, rings: seq<seq<Addr>>, p: Addr)
    requires RingsOk(m, free, rings) && p in m && m[p].inUse
    ensures InNoRing(rings, p)
  {
    forall j | 0 <= j < CLASSES ensures p !in rings[j] {
      assert RingOk(m, free[j], rings[j], j);
    }
  }

  /** Only links changed, and only of blocks of class `i`. */
  ghost predicate Relinked(m: Mem, m': Mem, i: nat) {
    && (forall a :: a in m <==> a in m')
    && (forall a :: a in m ==> m'[a].inUse == m[a].inUse && m'[a].index == m[a].index)
    && (forall a :: a in m && m[a].index != i ==> m'[a] == m[a])
  }

  lemma RelinkedRings(m: Mem, m': Mem, free: seq<Addr>, rings: seq<seq<Addr>>, i: nat, r: seq<Addr>)
    requires RingsOk(m, free, rings) && 0 < i < CLASSES && Relinked(m, m', i)
    requires RingOk(m', First(r), r, i)
    ensures RingsOk(m', free[i := First(r)], rings[i := r])
  {
    forall j | 0 <= j < CLASSES && j != i ensures RingOk(m', free[j], rings[j], j) {
      var q := rings[j];
      assert RingOk(m, free[j], q, j);
      forall k | 0 <= k < |q| ensures SameNext(m, m', q[k]) && SamePre(m, m', q[k]) {
        assert q[k] in q;
      }
      RingFrame(m, m', q);
    }
  }

  /** `n` blocks of class `i` count `i` each. */
  ghost function Bulk(i: nat, n: nat): nat {
    if n == 0 then 0 else i + Bulk(i, n - 1)
  }

  lemma {:induction false} BulkIsProduct(i: nat, n: nat)
    ensures Bulk(i, n) == i * n
  {
    if n > 0 {
      BulkIsProduct(i, n - 1);
      Distribute(i, n, 1);
    }
  }

  lemma FreeNodes(size: int, i: nat, n: nat)
    requires i > 0 && size == Bulk(i, n)
    ensures size / i == n
  {
    BulkIsProduct(i, n);
    DivUnique(size, i, n, 0);
  }

  ghost predicate CountsOk(freeSize: seq<int>, currentFree: int, rings: seq<seq<Addr>>) {
    && |freeSize| == |rings| == CLASSES
    && (forall i: nat :: i < CLASSES ==> CountAt(freeSize, rings, i))
    && currentFree == Sum(freeSize)
  }

  ghost predicate CountAt(freeSize: seq<int>, rings: seq<seq<Addr>>, i: nat)
    requires i < |freeSize| == |rings|
  {
    freeSize[i] == Bulk(i, |rings[i]|)
  }

  lemma CountsMove(freeSize: seq<int>, currentFree: int, rings: seq<seq<Addr>>, i: nat, r: seq<Addr>, d: int)
    requires CountsOk(freeSize, currentFree, rings) && i < CLASSES
    requires Bulk(i, |r|) == Bulk(i, |rings[i]|) + d
    ensures CountsOk(freeSize[i := freeSize[i] + d], currentFree + d, rings[i := r])
  {
    var fs, rs := freeSize[i := freeSize[i] + d], rings[i := r];
    SumUpdate(freeSize, i, freeSize[i] + d);
    forall j: nat | j < CLASSES ensures CountAt(fs, rs, j) {
      assert CountAt(freeSize, rings, j);
    }
  }

  /** Every block knows its class and is as large as the class says. */
  ghost predicate BlocksOk(m: Mem, cap: map<Addr, nat>, boundary: nat) {
    && boundary > 0
    && (forall a :: a in m ==> a in cap && m[a].index < CLASSES)
    && (forall a :: a in m && m[a].index > 0 ==> cap[a] == m[a].index * boundary)
  }

  lemma RelinkedBlocks(m: Mem, m': Mem, cap: map<Addr, nat>, boundary: nat, i: nat)
    requires BlocksOk(m, cap, boundary) && Relinked(m, m', i)
    ensures BlocksOk(m', cap, boundary)
  {
  }

  /** The counters after one block of class `i` has left. */
  lemma CountsTake(freeSize: seq<int>, currentFree: int, rings: seq<seq<Addr>>, i: nat)
    requires CountsOk(freeSize, currentFree, rings) && i < CLASSES && rings[i] != []
    ensures CountsOk(freeSize[i := freeSize[i] - i], currentFree - i, rings[i := rings[i][1..]])
    ensures |rings[i]| == 1 ==> freeSize[i] == i
  {
    var d: int := i;
    assert CountAt(freeSize, rings, i);
    CountsMove(freeSize, currentFree, rings, i, rings[i][1..], -d);
  }

  /** Blocks in use stay as they are. */
  ghost predicate UsedKept(m: Mem, m': Mem, cap: map<Addr, nat>, cap': map<Addr, nat>) {
    forall a :: a in m && m[a].inUse ==>
      a in m' && m'[a].inUse && m'[a].index == m[a].index && a in cap && a in cap' && cap'[a] == cap[a]
  }

  /** No block is new, of another class, or in use now and not before. */
  ghost predicate ShedOnly(m: Mem, m': Mem) {
    forall a :: a in m' ==> a in m && m'[a].index == m[a].index && m'[a].inUse == m[a].inUse
  }

  /** Every idle block, except perhaps `x`, lies in the ring of its class. */
  ghost predicate Homed(m: Mem, rings: seq<seq<Addr>>, x: Addr) {
    NULL !in m && forall a :: a in m && !m[a].inUse && a != x ==> m[a].index < |rings| && a in rings[m[a].index]
  }

  /** Blocks go away, and the idle ones that stay stay in their rings. */
  ghost predicate Sheds(m: Mem, rings: seq<seq<Addr>>, m': Mem, rings': seq<seq<Addr>>) {
    ShedOnly(m, m') && (Homed(m, rings, NULL) ==> Homed(m', rings', NULL))
  }

  lemma HomedTake(m: Mem, m': Mem, rings: seq<seq<Addr>>, i: nat)
    requires Homed(m, rings, NULL) && Relinked(m, m', i) && i < |rings| && rings[i] != []
    ensures Homed(m', rings[i := rings[i][1..]], rings[i][0])
  {
    var r := rings[i];
    assert forall a :: a in r && a != r[0] ==> a in r[1..];
  }

  lemma ShedOne(m: Mem, m': Mem, rings: seq<seq<Addr>>, i: nat)
    requires Relinked(m, m', i) && i < |rings| && rings[i] != []
    ensures Sheds(m, rings, m' - {rings[i][0]}, rings[i := rings[i][1..]])
  {
    if Homed(m, rings, NULL) { HomedTake(m, m', rings, i); }
  }

  lemma HomedJoin(m: Mem, m': Mem, rings: seq<seq<Addr>>, i: nat, x: Addr)
    requires Homed(m, rings, x) && Relinked(m, m', i) && i < |rings| && x in m && m[x].index == i
    ensures Homed(m', rings[i := Joined(rings[i], x)], NULL)
  {
    var r, r' := rings[i], Joined(rings[i], x);
    assert x in r' by { assert r'[if r == [] then 0 else 1] == x; }
    forall a | a in r ensures a in r' {
      var k :| 0 <= k < |r| && r[k] == a;
      assert r'[if k == 0 then 0 else k + 1] == a;
    }
  }

  /** A ring after `x` joined it. */
  ghost function Joined(r: seq<Addr>, x: Addr): seq<Addr> {
    if r == [] then [x] else [r[0], x] + r[1..]
  }

  /** What eviction leaves of a ring. */
  ghost function Half(r: seq<Addr>): seq<Addr> {
    if r == [] then r else r[|r| / 2 + 1..]
  }

  /** The rings after thinning out the classes `picked`, one after the other. */
  ghost function Thinned(rings: seq<seq<Addr>>, picked: seq<nat>): (r: seq<seq<Addr>>)
    requires forall k :: 0 <= k < |picked| ==> picked[k] < |rings|
    ensures |r| == |rings|
  {
    if picked == [] then rings
    else
      var n := |picked| - 1;
      var r := Thinned(rings, picked[..n]);
      r[picked[n] := Half(r[picked[n]])]
  }

  lemma ThinnedNext(rings: seq<seq<Addr>>, picked: seq<nat>, i: nat)
    requires i < |picked| && forall k :: 0 <= k <= i ==> picked[k] < |rings|
    ensures var r := Thinned(rings, picked[..i]);
      Thinned(rings, picked[..i + 1]) == r[picked[i] := Half(r[picked[i]])]
  {
    assert picked[..i + 1][..i] == picked[..i];
  }

  /** Different classes each lose half their blocks and one; no other class loses any. */
  lemma {:induction false} ThinnedAt(rings: seq<seq<Addr>>, picked: seq<nat>, x: nat)
    requires (forall k :: 0 <= k < |picked| ==> picked[k] < |rings|) && x < |rings|
    requires forall j, k :: 0 <= j < k < |picked| ==> picked[j] != picked[k]
    ensures Thinned(rings, picked)[x] == if x in picked then Half(rings[x]) else rings[x]
  {
    if picked != [] {
      var n := |picked| - 1;
      ThinnedAt(rings, picked[..n], x);
      assert x in picked <==> x in picked[..n] || x == picked[n];
      assert picked[n] !in picked[..n];
    }
  }

  /** Stack contents are chosen and are no class. */
  ghost predicate StraysFrom(order: seq<nat>, size: seq<int>, junk: seq<nat>)
    requires Permutation(order) && |size| == CLASSES && |junk| == OLDEST_RANGE
  {
    !AllFound(order, size) && !(0 < junk[|Filter(order, size)|] < CLASSES)
  }

  lemma StrayPick(order: seq<nat>, size: seq<int>, junk: seq<nat>, picked: seq<nat>)
    requires Permutation(order) && |size| == CLASSES && |junk| == OLDEST_RANGE
    requires Filter(order, size) != [] && IsPick(order, size, junk, picked)
    ensures StraysFrom(order, size, junk) <==> exists k :: 0 <= k < |picked| && !(0 < picked[k] < CLASSES)
  {
    PickExact(order, size, junk, picked);
    var l := Filter(order, size);
    forall i | 0 <= i < |l| ensures 1 <= l[i] <= MAX_INDEX {
      FilterIn(order, size, i);
    }
    if StraysFrom(order, size, junk) { assert picked[|l|] == junk[|l|]; }
  }

  /** There are idle classes but not enough of them, and the stack contents are no class. */
  ghost predicate Wanting(latest: seq<nat>, size: seq<int>, junk: seq<nat>)
    requires |latest| == |size| == CLASSES && |junk| == OLDEST_RANGE
  {
    Idle(size) != {} && !Enough(latest, size) && !(0 < junk[|Idle(size)|] < CLASSES)
  }

  lemma StraysExactly(order: seq<nat>, latest: seq<nat>, size: seq<int>, junk: seq<nat>)
    requires Permutation(order) && |latest| == |size| == CLASSES && OldestFirst(order, latest, MAX_INDEX) && |junk| == OLDEST_RANGE
    requires AgesTell(latest, size)
    ensures Filter(order, size) == [] <==> Idle(size) == {}
    ensures Filter(order, size) != [] && StraysFrom(order, size, junk) <==> Wanting(latest, size, junk)
  {
    FoundExactly(order, latest, size, |Filter(order, size)|);
  }

  // ----- snapshots -----

  /** All that the pool keeps. */
  datatype Snap = Snap(
    mem: Mem, cap: map<Addr, nat>, rings: seq<seq<Addr>>, freeSize: seq<int>, currentFree: int,
    latest: seq<nat>, getCnt: nat, maxFree: nat, boundary: nat)

  ghost predicate Shaped(s: Snap) {
    |s.rings| == |s.freeSize| == |s.latest| == CLASSES && s.boundary > 0
  }

  /** Each request gets its own number, and every block's class has been requested. */
  ghost predicate Aged(s: Snap)
    requires Shaped(s)
  {
    && (forall c :: 0 <= c < CLASSES ==> s.latest[c] <= s.getCnt)
    && (forall c, d :: 0 <= c < d < CLASSES && s.latest[c] == s.latest[d] ==> s.latest[c] == 0)
    && (forall a :: a in s.mem && 0 < s.mem[a].index < CLASSES ==> s.latest[s.mem[a].index] > 0)
  }

  /** And every idle block lies in the ring of its class. */
  ghost predicate Kempt(s: Snap)
    requires Shaped(s)
  {
    Aged(s) && Homed(s.mem, s.rings, NULL)
  }

  /** A block that was there before, of the same class and in the same use. */
  ghost predicate Remains(m: Mem, m': Mem, a: Addr)
    requires a in m'
  {
    a in m && m'[a].index == m[a].index && m'[a].inUse == m[a].inUse
  }

  /** A block of class `c` that nobody uses: the first idle one, or else a new one. */
  ghost predicate Obtained(s: Snap, c: nat, size: nat, supply: Addr, p: Addr, t: Snap)
    requires Shaped(s) && c < CLASSES
  {
    var reuse := c > 0 && s.rings[c] != [];
    && p == (if reuse then s.rings[c][0] else supply)
    && t.rings == (if reuse then s.rings[c := s.rings[c][1..]] else s.rings)
    && t.currentFree == s.currentFree - (if reuse then c else 0)
    && (p == NULL ==> t == s)
    && (p != NULL ==> p in t.mem && !t.mem[p].inUse && t.mem[p].index == c && InNoRing(t.rings, p))
    && (p != NULL ==> p in t.cap && t.cap[p] == size && (p in s.mem ==> !s.mem[p].inUse))
    && (forall a :: a in t.mem && a != p ==> Remains(s.mem, t.mem, a)) && (Homed(s.mem, s.rings, NULL) ==> Homed(t.mem, t.rings, p))
    && UsedKept(s.mem, t.mem, s.cap, t.cap)
    && (t.latest, t.getCnt, t.maxFree, t.boundary) == (s.latest, s.getCnt, s.maxFree, s.boundary)
  }

  lemma ObtainedNew(s: Snap, c: nat, size: nat, p: Addr, t: Snap)
    requires Shaped(s) && c < CLASSES && (c > 0 ==> s.rings[c] == []) && p != NULL && p !in s.mem && InNoRing(s.rings, p)
    requires t == s.(mem := s.mem[p := Block(false, p, p, c)], cap := s.cap[p := size])
    requires forall a :: a in s.mem ==> a in s.cap
    ensures Obtained(s, c, size, p, p, t)
  {
  }

  lemma ObtainedOld(s: Snap, c: nat, size: nat, supply: Addr, p: Addr, t: Snap)
    requires Shaped(s) && 0 < c < CLASSES && s.rings[c] != [] && p == s.rings[c][0] && p != NULL
    requires p in s.mem && !s.mem[p].inUse && s.mem[p].index == c && p in s.cap && s.cap[p] == size
    requires t.rings == s.rings[c := s.rings[c][1..]] && InNoRing(t.rings, p) && t.currentFree == s.currentFree - c
    requires Relinked(s.mem, t.mem, c) && forall a :: a in s.mem ==> a in s.cap
    requires (t.cap, t.latest, t.getCnt, t.maxFree, t.boundary) == (s.cap, s.latest, s.getCnt, s.maxFree, s.boundary)
    ensures Obtained(s, c, size, supply, p, t)
  {
    if Homed(s.mem, s.rings, NULL) { HomedTake(s.mem, t.mem, s.rings, c); }
  }

  /** It is marked and the request counted. */
  ghost function Marked(s: Snap, p: Addr, c: nat): Snap
    requires Shaped(s) && p in s.mem && c < CLASSES
  {
    s.(mem := s.mem[p := s.mem[p].(inUse := true)], getCnt := s.getCnt + 1, latest := s.latest[c := s.getCnt + 1])
  }

  lemma GotKempt(s: Snap, c: nat, size: nat, supply: Addr, p: Addr, t: Snap)
    requires Shaped(s) && Shaped(t) && Kempt(s) && p != NULL && c < CLASSES && Obtained(s, c, size, supply, p, t)
    ensures p in t.mem && Kempt(Marked(t, p, c))
  {
    StillAged(s, Marked(t, p, c), c);
  }

  lemma GotIt(s: Snap, size: nat, supply: Addr, p: Addr, t: Snap)
    requires Shaped(s) && Shaped(t) && p != NULL
    requires Class(size, s.boundary) < CLASSES && Obtained(s, Class(size, s.boundary), Align(size, s.boundary), supply, p, t)
    ensures p in t.mem && Got(s, size, supply, p, Marked(t, p, Class(size, s.boundary)))
  {
  }

  /** What a request does: the first idle block of its class, or else a new one. */
  ghost predicate Got(s: Snap, size: nat, supply: Addr, p: Addr, t: Snap)
    requires Shaped(s)
  {
    var c := Class(size, s.boundary);
    AlignClass(size, s.boundary);
    var reuse := c > 0 && s.rings[c] != [];
    && p == (if reuse then s.rings[c][0] else supply)
    && (p == NULL ==> t == s)
    && (p != NULL ==>
      && t.rings == (if reuse then s.rings[c := s.rings[c][1..]] else s.rings)
      && p in t.mem && t.mem[p].inUse && t.mem[p].index == c && InNoRing(t.rings, p)
      && (p in s.mem ==> !s.mem[p].inUse)
      && p in t.cap && t.cap[p] == Align(size, s.boundary)
      && t.getCnt == s.getCnt + 1 && t.latest == s.latest[c := t.getCnt])
    && t.currentFree == s.currentFree - (if reuse then c else 0)
    && (forall a :: a in t.mem && a != p ==> Remains(s.mem, t.mem, a))
    && UsedKept(s.mem, t.mem, s.cap, t.cap) && (t.maxFree, t.boundary) == (s.maxFree, s.boundary)
  }

  /** The block does not fit any more: it goes back, and so do others. */
  ghost predicate Overflows(s: Snap, p: Addr) {
    p in s.mem && s.mem[p].inUse && s.mem[p].index > 0 && s.currentFree + s.mem[p].index > s.maxFree
  }

  /** Releasing `p` makes the eviction take stack contents for a class that they are not:
      there are idle classes, but not enough. */
  ghost predicate Strays(s: Snap, p: Addr, junk: seq<nat>)
    requires Shaped(s) && |junk| == OLDEST_RANGE
  {
    Overflows(s, p) && Wanting(s.latest, s.freeSize, junk)
  }

  /** The rings after an eviction: the oldest classes with idle blocks are thinned out. */
  ghost predicate Evicted(s: Snap, junk: seq<nat>, rings: seq<seq<Addr>>)
    requires Shaped(s) && |junk| == OLDEST_RANGE
  {
    exists order, picked :: EvictedBy(s.latest, s.freeSize, s.rings, junk, order, picked, rings)
  }

  ghost predicate EvictedBy(latest: seq<nat>, size: seq<int>, rings: seq<seq<Addr>>, junk: seq<nat>,
                            order: seq<nat>, picked: seq<nat>, rings': seq<seq<Addr>>)
    requires |latest| == |size| == |rings| == CLASSES && |junk| == OLDEST_RANGE
  {
    && Permutation(order) && OldestFirst(order, latest, MAX_INDEX)
    && Filter(order, size) != [] && IsPick(order, size, junk, picked)
    && (forall k :: 0 <= k < |picked| ==> picked[k] < CLASSES) && rings' == Thinned(rings, picked)
  }

  /** The eviction of a release that overflows. */
  ghost predicate Makes(s: Snap, p: Addr, junk: seq<nat>, ret: int, rings: seq<seq<Addr>>)
    requires Shaped(s) && |junk| == OLDEST_RANGE
  {
    Overflows(s, p) ==> if ret == -2 then rings == s.rings else Evicted(s, junk, rings)
  }

  /** What a release does, unless it strays. */
  ghost predicate Released(s: Snap, p: Addr, ret: int, t: Snap)
    requires Shaped(s) && p in s.mem && s.mem[p].index < CLASSES
  {
    var c := s.mem[p].index;
    && (ret == -1 <==> !s.mem[p].inUse) && (ret == -1 ==> t == s)
    && (ret != -1 && !Overflows(s, p) ==> ret == 1)
    && (ret != -1 && !Overflows(s, p) && c > 0 ==>
          p in t.mem && !t.mem[p].inUse && t.rings == s.rings[c := Joined(s.rings[c], p)] && t.currentFree == s.currentFree + c)
    && (ret != -1 && !Overflows(s, p) && c == 0 ==> p !in t.mem && t.rings == s.rings && t.currentFree == s.currentFree)
    && (Overflows(s, p) ==> p !in t.mem && ret == (if Idle(s.freeSize) == {} then -2 else 1) && t.currentFree <= s.currentFree)
    && UsedKept(s.mem - {p}, t.mem, s.cap, t.cap) && (forall a :: a in t.mem && a != p ==> Remains(s.mem, t.mem, a))
    && (t.cap, t.latest, t.getCnt, t.maxFree, t.boundary) == (s.cap, s.latest, s.getCnt, s.maxFree, s.boundary)
  }

  class Pool {
    var mem: Mem
    var maxFree: nat
    var boundary: nat
    var currentFree: int
    var getCnt: nat
    var latest: seq<nat>
    var free: seq<Addr>
    var freeSize: seq<int>
    ghost var rings: seq<seq<Addr>>
    ghost var cap: map<Addr, nat>      // usable bytes of every block

    ghost predicate Sound()
      reads this
    {
      && RingsOk(mem, free, rings) && CountsOk(freeSize, currentFree, rings) && BlocksOk(mem, cap, boundary)
      && |latest| == CLASSES
    }

    ghost predicate Valid()
      reads this
    {
      Sound() && currentFree <= maxFree
    }

    ghost function Now(): (s: Snap)
      reads this
      ensures Sound() ==> Shaped(s)
    {
      Snap(mem, cap, rings, freeSize, currentFree, latest, getCnt, maxFree, boundary)
    }

    /** `mmpl_create`. */
    constructor (maxFree: nat, boundary: nat)
      requires boundary > 0
      ensures Valid() && Kempt(Now()) && mem == map[] && rings == seq(CLASSES, _ => []) && getCnt == 0 && currentFree == 0
      ensures this.maxFree == maxFree && this.boundary == boundary
    {
      this.maxFree, this.boundary := maxFree, boundary;
      mem, currentFree, getCnt, cap := map[], 0, 0, map[];
      latest, free := seq(CLASSES, _ => 0), seq(CLASSES, _ => NULL);
      freeSize, rings := seq(CLASSES, _ => 0), seq(CLASSES, _ => []);
      new;
      SumZero(freeSize);
    }

    /** `mmpl_list_remove` of the first block of ring `r` of class `i`. */
    method ListRemove(p: Addr, ghost r: seq<Addr>, ghost i: nat) returns (ret: int)
      requires r != [] && RingOk(mem, p, r, i)
      modifies this`mem
      ensures ret == if |r| == 1 then -1 else 1
      ensures |r| == 1 ==> mem == old(mem)
      ensures |r| > 1 ==> RingOk(mem, r[1], r[1..], i) && Relinked(old(mem), mem, i) && mem[p] == old(mem)[p]
    {
      ghost var n := |r| - 1;
      assert Link(mem, r[n], r[0]) && r[0] in r && r[n] in r;
      assert n > 0 ==> LinkAt(mem, r, 0) && r[1] in r;
      if mem[p].next == p {
        return -1;
      }
      var next := mem[p].next;
      mem := mem[next := mem[next].(pre := mem[p].pre)];
      var pre := mem[p].pre;
      mem := mem[pre := mem[pre].(next := mem[p].next)];
      Unhooked(old(mem), mem, r);
      return 1;
    }

    /** The lines that `mmpl_getmem` and `mmpl_rls_oldestfree` share: the first block
        leaves its ring. */
    method TakeHead(i: nat) returns (p: Addr)
      requires Sound() && 0 < i < CLASSES && rings[i] != []
      modifies this`mem, this`free, this`freeSize, this`currentFree, this`rings
      ensures Sound()
      ensures p == old(rings)[i][0] && rings == old(rings)[i := old(rings)[i][1..]]
      ensures currentFree == old(currentFree) - i
      ensures Relinked(old(mem), mem, i) && p in old(mem) && mem[p] == old(mem)[p]
    {
      ghost var r := rings[i];
      CountsTake(freeSize, currentFree, rings, i);
      p := Unring(i, r);
      currentFree := currentFree - i;
      rings := rings[i := r[1..]];
      RelinkedBlocks(old(mem), mem, cap, boundary, i);
    }

    /** The ring and the count of its class. */
    method Unring(i: nat, ghost r: seq<Addr>) returns (p: Addr)
      requires RingsOk(mem, free, rings) && 0 < i < CLASSES && |freeSize| == CLASSES
      requires r == rings[i] && r != [] && (|r| == 1 ==> freeSize[i] == i)
      modifies this`mem, this`free, this`freeSize
      ensures p == r[0] && RingsOk(mem, free, rings[i := r[1..]])
      ensures freeSize == old(freeSize)[i := old(freeSize)[i] - i]
      ensures Relinked(old(mem), mem, i) && p in old(mem) && mem[p] == old(mem)[p]
    {
      assert RingOk(mem, free[i], r, i);
      assert Link(mem, r[|r| - 1], r[0]) && r[0] in r;
      p := free[i];
      if mem[p].next == p {
        TakeOnly(p, r, i);
      } else {
        TakeFirst(p, r, i);
      }
    }

    /** The branch of a ring with one block. */
    method TakeOnly(p: Addr, ghost r: seq<Addr>, i: nat)
      requires RingsOk(mem, free, rings) && 0 < i < CLASSES && |freeSize| == CLASSES
      requires r == rings[i] && r != [] && p == r[0] && p in mem && mem[p].next == p
      requires |r| == 1 ==> freeSize[i] == i
      modifies this`free, this`freeSize
      ensures RingsOk(mem, free, rings[i := r[1..]])
      ensures freeSize == old(freeSize)[i := old(freeSize)[i] - i]
    {
      assert RingOk(mem, free[i], r, i);
      assert |r| > 1 ==> LinkAt(mem, r, 0);
      free := free[i := NULL];
      freeSize := freeSize[i := 0];
      RelinkedRings(mem, mem, old(free), rings, i, r[1..]);
    }

    /** The branch of a ring with more blocks. */
    method TakeFirst(p: Addr, ghost r: seq<Addr>, i: nat)
      requires RingsOk(mem, free, rings) && 0 < i < CLASSES && |freeSize| == CLASSES
      requires r == rings[i] && r != [] && p == r[0] && p in mem && mem[p].next != p
      modifies this`mem, this`free, this`freeSize
      ensures RingsOk(mem, free, rings[i := r[1..]])
      ensures freeSize == old(freeSize)[i := old(freeSize)[i] - i]
      ensures Relinked(old(mem), mem, i) && mem[p] == old(mem)[p]
    {
      assert RingOk(mem, free[i], r, i);
      assert Link(mem, r[|r| - 1], r[0]) && (|r| > 1 ==> LinkAt(mem, r, 0));
      free := free[i := mem[p].next];
      var _ := ListRemove(p, r, i);
      freeSize := freeSize[i := freeSize[i] - i];
      RelinkedRings(old(mem), mem, old(free), rings, i, r[1..]);
    }

    /** Handing a block that is in no ring back to the system. */
    method FreeBlock(p: Addr)
      requires Sound() && p in mem && InNoRing(rings, p)
      modifies this`mem
      ensures Sound() && mem == old(mem) - {p}
    {
      mem := mem - {p};
      RingsFrame(old(mem), mem, free, rings, p);
    }

    /** `mmpl_getmem`.  `supply` is what `malloc` would return: a new address, or NULL. */
    method GetMem(size: nat, supply: Addr) returns (p: Addr)
      requires Valid() && Kempt(Now()) && size < UINT && boundary < UINT && supply !in mem
      modifies this
      ensures Valid() && Kempt(Now()) && Got(old(Now()), size, supply, p, Now())
    {
      var alignSize := Align(size, boundary);
      var index := Class(size, boundary);
      AlignClass(size, boundary);
      ghost var s := Now();
      p := Obtain(index, alignSize, supply);
      if p == NULL {
        return;
      }
      GotIt(s, size, supply, p, Now());
      GotKempt(s, index, alignSize, supply, p, Now());
      HandOut(p, index);
    }

    /** The block is in use now, and its class the one requested last. */
    method HandOut(p: Addr, index: nat)
      requires Valid() && p in mem && InNoRing(rings, p) && index < CLASSES
      modifies this`mem, this`getCnt, this`latest
      ensures Valid() && Now() == Marked(old(Now()), p, index)
    {
      Mark(p, true);
      getCnt := getCnt + 1;
      latest := latest[index := getCnt];
    }

    /** A block of class `index` that nobody uses, from its ring or from the system. */
    method Obtain(index: nat, alignSize: nat, supply: Addr) returns (p: Addr)
      requires Valid() && supply !in mem && index < CLASSES && (index > 0 ==> alignSize == index * boundary)
      modifies this`mem, this`cap, this`free, this`freeSize, this`currentFree, this`rings
      ensures Valid() && Obtained(old(Now()), index, alignSize, supply, p, Now())
    {
      ghost var s := Now();
      assert RingOk(mem, free[index], rings[index], index);
      assert forall k :: 0 <= k < |rings[index]| ==> rings[index][k] in rings[index];
      if free[index] == NULL || index == 0 {
        p := supply;
        if p != NULL {
          NewBlock(p, index, alignSize);
          ObtainedNew(s, index, alignSize, p, Now());
        }
      } else {
        TakenOut(mem, free, rings, index);
        p := TakeHead(index);
        ObtainedOld(s, index, alignSize, supply, p, Now());
      }
    }

    method NewBlock(p: Addr, index: nat, size: nat)
      requires Valid() && p !in mem && p != NULL && index < CLASSES
      requires index > 0 ==> size == index * boundary
      modifies this`mem, this`cap
      ensures Valid() && InNoRing(rings, p)
      ensures mem == old(mem)[p := Block(false, p, p, index)] && cap == old(cap)[p := size]
    {
      forall j | 0 <= j < CLASSES ensures p !in rings[j] {
        assert RingOk(mem, free[j], rings[j], j);
      }
      mem := mem[p := Block(false, p, p, index)];
      cap := cap[p := size];
      RingsFrame(old(mem), mem, free, rings, p);
    }

    method Mark(p: Addr, inUse: bool)
      requires Valid() && p in mem && InNoRing(rings, p)
      modifies this`mem
      ensures Valid() && mem == old(mem)[p := old(mem)[p].(inUse := inUse)]
    {
      mem := mem[p := mem[p].(inUse := inUse)];
      RingsFrame(old(mem), mem, free, rings, p);
    }

    /** `mmpl_list_insert` behind the first block of ring `r` of class `i`. */
    method ListInsert(head: Addr, x: Addr, ghost r: seq<Addr>, ghost i: nat)
      requires r != [] && RingOk(mem, head, r, i)
      requires x in mem && x !in r && mem[x].index == i && !mem[x].inUse
      modifies this`mem
      ensures RingOk(mem, head, [r[0], x] + r[1..], i) && Relinked(old(mem), mem, i)
    {
      assert Link(mem, r[|r| - 1], r[0]) && r[0] in r && (|r| > 1 ==> LinkAt(mem, r, 0) && r[1] in r);
      assert forall k :: 0 <= k < |r| ==> r[k] in r;
      mem := mem[x := mem[x].(next := mem[head].next)];
      mem := mem[x := mem[x].(pre := head)];
      var next := mem[head].next;
      mem := mem[next := mem[next].(pre := x)];
      mem := mem[head := mem[head].(next := x)];
      Hooked(old(mem), mem, r, x);
    }

    /** The idle block `x` becomes the only, or the second, block of its ring. */
    method Enter(x: Addr, i: nat, ghost r: seq<Addr>)
      requires RingsOk(mem, free, rings) && 0 < i < CLASSES && r == rings[i]
      requires x in mem && !mem[x].inUse && mem[x].index == i && x !in r
      modifies this`mem, this`free
      ensures RingsOk(mem, free, rings[i := Joined(r, x)]) && Relinked(old(mem), mem, i)
    {
      assert RingOk(mem, free[i], r, i);
      assert r != [] ==> r[0] in r;
      if free[i] == NULL {
        mem := mem[x := mem[x].(next := x, pre := x)];
        free := free[i := x];
        assert RingOk(mem, x, [x], i);
      } else {
        ListInsert(free[i], x, r, i);
        assert free == free[i := First(Joined(r, x))];
      }
      RelinkedRings(old(mem), mem, old(free), rings, i, Joined(r, x));
    }

    /** The end of `mmpl_rlsmem`. */
    method Store(x: Addr)
      requires Sound() && x in mem && !mem[x].inUse && mem[x].index > 0 && InNoRing(rings, x)
      modifies this`mem, this`free, this`freeSize, this`currentFree, this`rings
      ensures Sound() && currentFree == old(currentFree) + old(mem)[x].index
      ensures var i := old(mem)[x].index; rings == old(rings)[i := Joined(old(rings)[i], x)]
      ensures Relinked(old(mem), mem, old(mem)[x].index)
    {
      var i := mem[x].index;
      ghost var r := Joined(rings[i], x);
      Enter(x, i, rings[i]);
      RelinkedBlocks(old(mem), mem, cap, boundary, i);
      CountsMove(freeSize, currentFree, rings, i, r, i);
      freeSize := freeSize[i := freeSize[i] + i];
      currentFree := currentFree + i;
      rings := rings[i := r];
    }

    /** Thinning out one class in `mmpl_rls_oldestfree`. */
    method ReleaseHalf(i: nat)
      requires Sound() && 0 < i < CLASSES
      modifies this`mem, this`free, this`freeSize, this`currentFree, this`rings
      ensures Sound() && currentFree <= old(currentFree)
      ensures rings == old(rings)[i := Half(old(rings)[i])]
      ensures UsedKept(old(mem), mem, cap, cap) && Sheds(old(mem), old(rings), mem, rings)
    {
      ghost var r := rings[i];
      assert CountAt(freeSize, rings, i);
      FreeNodes(freeSize[i], i, |r|);
      var freeNodeNum := freeSize[i] / i;
      if freeNodeNum == 0 {
        assert rings == rings[i := Half(r)];
        return;
      }
      DropMany(i, freeNodeNum / 2 + 1);
    }

    method DropMany(i: nat, rlsNum: nat)
      requires Sound() && 0 < i < CLASSES && rlsNum <= |rings[i]|
      modifies this`mem, this`free, this`freeSize, this`currentFree, this`rings
      ensures Sound() && currentFree <= old(currentFree)
      ensures rings == old(rings)[i := old(rings)[i][rlsNum..]]
      ensures UsedKept(old(mem), mem, cap, cap) && Sheds(old(mem), old(rings), mem, rings)
    {
      ghost var r, rings0 := rings[i], rings;
      for j := 0 to rlsNum
        invariant Sound() && rings == rings0[i := r[j..]] && currentFree <= old(currentFree)
        invariant UsedKept(old(mem), mem, cap, cap) && Sheds(old(mem), old(rings), mem, rings)
      {
        DropOne(i);
        assert r[j..][1..] == r[j + 1..];
      }
    }

    /** One block of a class goes back to the system. */
    method DropOne(i: nat)
      requires Sound() && 0 < i < CLASSES && rings[i] != []
      modifies this`mem, this`free, this`freeSize, this`currentFree, this`rings
      ensures Sound() && currentFree == old(currentFree) - i
      ensures rings == old(rings)[i := old(rings)[i][1..]]
      ensures UsedKept(old(mem), mem, cap, cap) && Sheds(old(mem), old(rings), mem, rings)
    {
      TakenOut(mem, free, rings, i);
      assert RingOk(mem, free[i], rings[i], i) && rings[i][0] in rings[i];
      var p := TakeHead(i);
      ShedOne(old(mem), mem, old(rings), i);
      FreeBlock(p);
    }

    /** `mmpl_rls_oldestfree`.  `junk` is what the stack holds where the array of chosen
        classes is; `trap` tells that it was used and is no class at all. */
    method Evict(junk: seq<nat>) returns (ret: int, trap: bool, ghost order: seq<nat>, ghost picked: seq<nat>)
      requires Sound() && |junk| == OLDEST_RANGE
      modifies this`mem, this`free, this`freeSize, this`currentFree, this`rings
      ensures Sound() && currentFree <= old(currentFree) && UsedKept(old(mem), mem, cap, cap)
      ensures Sheds(old(mem), old(rings), mem, rings)
      ensures Permutation(order) && OldestFirst(order, latest, MAX_INDEX)
      ensures ret == if Filter(order, old(freeSize)) == [] then -1 else 1
      ensures ret == 1 ==> IsPick(order, old(freeSize), junk, picked)
      ensures trap <==> ret == 1 && StraysFrom(order, old(freeSize), junk)
      ensures ret == 1 && !trap ==>
        (forall k :: 0 <= k < |picked| ==> picked[k] < CLASSES) && rings == Thinned(old(rings), picked)
      ensures ret == -1 ==> rings == old(rings) && mem == old(mem)
    {
      var inc := SortByAge(latest);
      order, trap := inc, false;
      var ok, oldest := Pick(inc, freeSize, junk);
      picked := oldest;
      if !ok {
        return -1, false, order, picked;
      }
      StrayPick(inc, freeSize, junk, oldest);
      trap := ThinOut(oldest);
      ret := 1;
    }

    /** The last loop of `mmpl_rls_oldestfree`; dividing by zero or indexing past the tables traps. */
    method ThinOut(oldest: seq<nat>) returns (trap: bool)
      requires Sound() && |oldest| == OLDEST_RANGE
      modifies this`mem, this`free, this`freeSize, this`currentFree, this`rings
      ensures Sound() && currentFree <= old(currentFree) && UsedKept(old(mem), mem, cap, cap)
      ensures Sheds(old(mem), old(rings), mem, rings)
      ensures trap <==> exists k :: 0 <= k < |oldest| && !(0 < oldest[k] < CLASSES)
      ensures !trap ==> rings == Thinned(old(rings), oldest)
    {
      trap := false;
      for i := 0 to OLDEST_RANGE
        invariant Sound() && currentFree <= old(currentFree) && UsedKept(old(mem), mem, cap, cap)
        invariant Sheds(old(mem), old(rings), mem, rings)
        invariant forall k :: 0 <= k < i ==> 0 < oldest[k] < CLASSES
        invariant rings == Thinned(old(rings), oldest[..i])
      {
        var index := oldest[i];
        if index == 0 || index > MAX_INDEX {
          trap := true;
          return;
        }
        ThinnedNext(old(rings), oldest, i);
        ReleaseHalf(index);
      }
      assert oldest[..OLDEST_RANGE] == oldest;
    }

    /** Eviction, told without the order of the classes. */
    method EvictIdle(junk: seq<nat>) returns (ret: int, trap: bool, ghost order: seq<nat>, ghost picked: seq<nat>)
      requires Sound() && AgesTell(latest, freeSize) && |junk| == OLDEST_RANGE
      modifies this`mem, this`free, this`freeSize, this`currentFree, this`rings
      ensures Sound() && currentFree <= old(currentFree) && UsedKept(old(mem), mem, cap, cap)
      ensures Sheds(old(mem), old(rings), mem, rings)
      ensures ret == if Idle(old(freeSize)) == {} then -1 else 1
      ensures trap <==> Wanting(latest, old(freeSize), junk)
      ensures ret == -1 ==> rings == old(rings)
      ensures ret == 1 && !trap ==> EvictedBy(latest, old(freeSize), old(rings), junk, order, picked, rings)
    {
      ghost var size := freeSize;
      ret, trap, order, picked := Evict(junk);
      StraysExactly(order, latest, size, junk);
    }

    /** `mmpl_rlsmem` of a block that the pool handed out. */
    method RlsMem(p: Addr, junk: seq<nat>) returns (ret: int, trap: bool)
      requires Valid() && Kempt(Now()) && p in mem && |junk| == OLDEST_RANGE
      modifies this
      ensures Valid() && Kempt(Now()) && p in old(mem) && old(mem)[p].index < CLASSES
      ensures trap <==> Strays(old(Now()), p, junk)
      ensures Released(old(Now()), p, ret, Now()) && (!trap ==> Makes(old(Now()), p, junk, ret, rings))
    {
      if !mem[p].inUse {
        return -1, false;
      }
      UsedInNoRing(mem, free, rings, p);
      Ages(Now());
      if mem[p].index == 0 {
        trap := false;
        ret := GiveBack(p);
      } else if currentFree + mem[p].index > maxFree {
        ret, trap := Spill(p, junk);
      } else {
        trap := false;
        ret := Keep(p);
      }
    }

    /** The three branches: too large for any class, no room, and room. */
    method GiveBack(p: Addr) returns (ret: int)
      requires Valid() && Kempt(Now()) && p in mem && mem[p].inUse && InNoRing(rings, p) && mem[p].index == 0
      modifies this`mem
      ensures Valid() && Kempt(Now()) && Released(old(Now()), p, ret, Now())
    {
      ghost var s := Now();
      Discard(p);
      Back(s, p, Now());
      ret := 1;
    }

    method Spill(p: Addr, junk: seq<nat>) returns (ret: int, trap: bool)
      requires Valid() && Kempt(Now()) && AgesTell(latest, freeSize) && |junk| == OLDEST_RANGE
      requires InNoRing(rings, p) && Overflows(Now(), p) && mem[p].index < CLASSES
      modifies this`mem, this`free, this`freeSize, this`currentFree, this`rings
      ensures Valid() && Kempt(Now()) && Released(old(Now()), p, ret, Now())
      ensures trap <==> Strays(old(Now()), p, junk)
      ensures !trap ==> Makes(old(Now()), p, junk, ret, rings)
    {
      ghost var s := Now();
      Discard(p);
      ghost var m := mem;
      ghost var order, picked;
      ret, trap, order, picked := EvictIdle(junk);
      assert ret == 1 && !trap ==> EvictedBy(s.latest, s.freeSize, s.rings, junk, order, picked, rings);
      if ret < 0 {
        ret := -2;
      }
      Gone(s, p, m, Now(), ret);
    }

    method Discard(p: Addr)
      requires Valid() && p in mem && InNoRing(rings, p)
      modifies this`mem
      ensures Valid() && mem == old(mem) - {p}
    {
      Mark(p, false);
      FreeBlock(p);
    }

    method Keep(p: Addr) returns (ret: int)
      requires Valid() && Kempt(Now()) && p in mem && mem[p].inUse && InNoRing(rings, p)
      requires 0 < mem[p].index < CLASSES && currentFree + mem[p].index <= maxFree
      modifies this`mem, this`free, this`freeSize, this`currentFree, this`rings
      ensures Valid() && Kempt(Now()) && Released(old(Now()), p, ret, Now())
    {
      ghost var s := Now();
      Mark(p, false);
      ghost var m := mem;
      Store(p);
      Kept(s, p, m, Now());
      KeptKempt(s, p, m, Now());
      ret := 1;
    }

    lemma Ages(s: Snap)
      requires Sound() && s == Now() && Aged(s)
      ensures AgesTell(latest, freeSize)
    {
      forall c: nat | c in Idle(freeSize) ensures latest[c] > 0 {
        assert CountAt(freeSize, rings, c);
        assert RingOk(mem, free[c], rings[c], c);
        assert rings[c][0] in rings[c];
      }
    }
  }

  /** Blocks lost, or blocks relinked, since the block was given up. */
  lemma Gone(s: Snap, p: Addr, m: Mem, t: Snap, ret: int)
    requires Shaped(s) && Shaped(t) && Kempt(s) && Overflows(s, p) && s.mem[p].index < CLASSES
    requires m == s.mem - {p} && Sheds(m, s.rings, t.mem, t.rings)
    requires UsedKept(m, t.mem, s.cap, t.cap) && t.currentFree <= s.currentFree
    requires (t.cap, t.latest, t.getCnt, t.maxFree, t.boundary) == (s.cap, s.latest, s.getCnt, s.maxFree, s.boundary)
    requires ret == if Idle(s.freeSize) == {} then -2 else 1
    ensures Kempt(t) && Released(s, p, ret, t)
  {
  }

  lemma Back(s: Snap, p: Addr, t: Snap)
    requires Shaped(s) && Kempt(s) && p in s.mem && s.mem[p].inUse && s.mem[p].index == 0
    requires t == s.(mem := s.mem - {p}) && forall a :: a in s.mem ==> a in s.cap
    ensures Kempt(t) && Released(s, p, 1, t)
  {
  }

  /** The idle block `p` is in its ring, and nothing else is different. */
  ghost predicate Stored(s: Snap, p: Addr, m: Mem, t: Snap)
    requires Shaped(s) && p in s.mem && s.mem[p].index < CLASSES
  {
    var c := s.mem[p].index;
    && m == s.mem[p := s.mem[p].(inUse := false)] && Relinked(m, t.mem, c)
    && t.rings == s.rings[c := Joined(s.rings[c], p)] && t.currentFree == s.currentFree + c
    && (t.cap, t.latest, t.getCnt, t.maxFree, t.boundary) == (s.cap, s.latest, s.getCnt, s.maxFree, s.boundary)
  }

  lemma KeptKempt(s: Snap, p: Addr, m: Mem, t: Snap)
    requires Shaped(s) && Shaped(t) && Kempt(s) && p in s.mem && s.mem[p].index < CLASSES && Stored(s, p, m, t)
    ensures Kempt(t)
  {
    HomedJoin(m, t.mem, s.rings, s.mem[p].index, p);
  }

  lemma Kept(s: Snap, p: Addr, m: Mem, t: Snap)
    requires Shaped(s) && p in s.mem && s.mem[p].inUse && 0 < s.mem[p].index < CLASSES && !Overflows(s, p)
    requires Stored(s, p, m, t) && forall a :: a in s.mem ==> a in s.cap
    ensures Released(s, p, 1, t)
  {
  }

  lemma StillAged(s: Snap, t: Snap, c: nat)
    requires Shaped(s) && Shaped(t) && Aged(s) && c < CLASSES
    requires t.getCnt == s.getCnt + 1 && t.latest == s.latest[c := t.getCnt]
    requires forall a :: a in t.mem && t.mem[a].index != c ==> a in s.mem && s.mem[a].index == t.mem[a].index
    ensures Aged(t)
  {
  }
}
