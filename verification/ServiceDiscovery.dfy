/**
 The endpoints of a service in `service-discovery.c`: a ring of endpoints behind a
 head, ordered by load level, and the choice of the least loaded one.
 */
module ServiceDiscovery {

  type Addr = nat

  const MAX_REQUESTS := 200
  const INFINITE := 999999999.0

  /** `requests` is the `request_num` of the endpoint's channel. */
  datatype Endpoint = Endpoint(load: int, requests: nat, prev: Addr, next: Addr)

  type Mem = map<Addr, Endpoint>

  // ----- the ring -----

  function After(ring: seq<Addr>, i: nat): Addr
    requires i < |ring|
  {
    if i + 1 < |ring| then ring[i + 1] else ring[0]
  }

  predicate LinkAt(m: Mem, ring: seq<Addr>, i: nat)
    requires i < |ring|
  {
    var n := After(ring, i);
    ring[i] in m && n in m && m[ring[i]].next == n && m[n].prev == ring[i]
  }

  ghost predicate Ring(m: Mem, ring: seq<Addr>) {
    && |ring| > 0
    && (forall i, j :: 0 <= i < j < |ring| ==> ring[i] != ring[j])
    && (forall i {:trigger LinkAt(m, ring, i)} :: 0 <= i < |ring| ==> LinkAt(m, ring, i))
  }

  /** `x` put in front of the `k`-th endpoint, or at the end. */
  function Inserted(ring: seq<Addr>, k: nat, x: Addr): seq<Addr>
    requires k <= |ring|
  {
    ring[..k] + [x] + ring[k..]
  }

  /** The four assignments at the end of `sd_insert_endpoint`. */
  function Spliced(m: Mem, pre: Addr, now: Addr, x: Addr): Mem
    requires pre in m && now in m && x in m
  {
    var m1 := m[x := m[x].(next := now)];
    var m2 := m1[pre := m1[pre].(next := x)];
    var m3 := m2[x := m2[x].(prev := pre)];
    m3[now := m3[now].(prev := x)]
  }

  lemma SplicedRing(m: Mem, ring: seq<Addr>, k: nat, x: Addr)
    requires Ring(m, ring) && 0 < k <= |ring| && x in m && x !in ring
    ensures ring[k - 1] in m && After(ring, k - 1) in m
    ensures Ring(Spliced(m, ring[k - 1], After(ring, k - 1), x), Inserted(ring, k, x))
  {
    assert LinkAt(m, ring, k - 1);
    var now := After(ring, k - 1);
    var m', r := Spliced(m, ring[k - 1], now, x), Inserted(ring, k, x);
    forall i | 0 <= i < |r| ensures LinkAt(m', r, i) {
      if i < k - 1 {
        assert LinkAt(m, ring, i);
      } else if i > k {
        assert LinkAt(m, ring, i - 1);
      }
    }
  }

  // ----- the choice -----

  /** Requests per load level. */
  function Ratio(e: Endpoint): real
    requires e.load != 0
  {
    e.requests as real / e.load as real
  }

  /** What can be chosen: not saturated, and the ratio is a number. */
  predicate Eligible(e: Endpoint) { e.load != 0 && e.requests < MAX_REQUESTS }

  /** All of these endpoints exist. */
  ghost predicate Within(m: Mem, s: seq<Addr>) {
    forall i :: 0 <= i < |s| ==> s[i] in m
  }

  /** `p` is the first of the least loaded endpoints of `s` that can be chosen. */
  ghost predicate Optimal(m: Mem, s: seq<Addr>, p: Addr)
    requires Within(m, s)
  {
    exists k :: 0 <= k < |s| && s[k] == p && Eligible(m[p])
      && (forall j :: 0 <= j < |s| && Eligible(m[s[j]]) ==> Ratio(m[p]) <= Ratio(m[s[j]]))
      && (forall j :: 0 <= j < k && Eligible(m[s[j]]) ==> Ratio(m[p]) < Ratio(m[s[j]]))
  }

  ghost predicate NoneEligible(m: Mem, s: seq<Addr>)
    requires Within(m, s)
  {
    forall j :: 0 <= j < |s| ==> !Eligible(m[s[j]])
  }

  lemma SmallRatio(e: Endpoint)
    requires Eligible(e)
    ensures Ratio(e) < INFINITE
  {
    var r, l := e.requests as real, e.load as real;
    var q := r / l;
    assert q * l == r;
    if l > 0.0 {
      assert l >= 1.0;
      if q > r { assert q * l >= q; }
    } else {
      if q > 0.0 { assert q * l < 0.0; }
    }
  }

  /** The running minimum after the first `n` endpoints. */
  ghost predicate Best(m: Mem, s: seq<Addr>, n: nat, min: real, k: int)
    requires Within(m, s) && n <= |s|
  {
    && (k < 0 ==> min == INFINITE && NoneEligible(m, s[..n]))
    && (k >= 0 ==> k < n && Eligible(m[s[k]]) && min == Ratio(m[s[k]]))
    && (k >= 0 ==> forall j :: 0 <= j < n && Eligible(m[s[j]]) ==> min <= Ratio(m[s[j]]))
    && (k >= 0 ==> forall j :: 0 <= j < k && Eligible(m[s[j]]) ==> min < Ratio(m[s[j]]))
  }

  class ServiceNode {
    var mem: Mem
    const head: Addr
    ghost var list: seq<Addr>

    ghost predicate Valid()
      reads this
    {
      Ring(mem, [head] + list)
    }

    /** Largest load level first. */
    ghost predicate Sorted()
      requires Valid()
      reads this
    {
      Descending(mem, list)
    }

    constructor (head: Addr)
      ensures Valid() && this.head == head && list == [] && Sorted()
    {
      this.head, list := head, [];
      mem := map[head := Endpoint(0, 0, head, head)];
      new;
      assert LinkAt(mem, [head], 0);
      assert [head] + [] == [head];
    }

    /** `sd_insert_endpoint` of an endpoint that is in no ring. */
    method InsertEndpoint(x: Addr) returns (ghost k: nat)
      requires Valid() && x in mem && x != head && x !in list && Sorted()
      modifies this
      ensures Valid() && Sorted()
      ensures k <= |old(list)| && list == Inserted(old(list), k, x)
      ensures k > 0 ==> old(list)[k - 1] in old(mem) && old(mem)[old(list)[k - 1]].load > old(mem)[x].load
      ensures SamePayload(old(mem), mem)
    {
      ghost var ring := [head] + list;
      RingIn(mem, ring);
      k := 0;
      assert LinkAt(mem, ring, 0);
      var pre := head;
      var now := mem[pre].next;
      while now != head
        invariant k <= |list| && pre == ring[k] && now == After(ring, k) && now in mem
        invariant forall j :: 0 <= j < k ==> mem[list[j]].load > mem[x].load
        decreases |list| - k
      {
        assert now == list[k];
        if mem[x].load >= mem[now].load {
          break;
        }
        assert LinkAt(mem, ring, k + 1);
        pre := now;
        now := mem[now].next;
        k := k + 1;
      }
      assert k < |list| ==> mem[x].load >= mem[list[k]].load;
      LinkIn(pre, now, x, k);
      StillDescending(old(mem), mem, old(list), k, x);
    }

    /** `x` between two neighbours. */
    method LinkIn(pre: Addr, now: Addr, x: Addr, ghost k: nat)
      requires Valid() && x in mem && x != head && x !in list && k <= |list|
      requires pre == ([head] + list)[k] && now == After([head] + list, k)
      modifies this
      ensures Valid() && list == Inserted(old(list), k, x) && SamePayload(old(mem), mem)
    {
      ghost var ring := [head] + list;
      SplicedRing(mem, ring, k + 1, x);
      Relink(pre, now, x);
      list := Inserted(list, k, x);
      assert [head] + list == Inserted(ring, k + 1, x);
    }

    method Relink(pre: Addr, now: Addr, x: Addr)
      requires pre in mem && now in mem && x in mem
      modifies this`mem
      ensures mem == Spliced(old(mem), pre, now, x) && SamePayload(old(mem), mem)
    {
      mem := mem[x := mem[x].(next := now)];
      mem := mem[pre := mem[pre].(next := x)];
      mem := mem[x := mem[x].(prev := pre)];
      mem := mem[now := mem[now].(prev := x)];
    }

    /** The loop of `sd_get_optimal_endpoint`; `junk` is what the pointer holds before. */
    method FindOptimal(junk: Addr) returns (p: Addr, found: bool)
      requires Valid()
      ensures Within(mem, list)
      ensures found ==> Optimal(mem, list, p)
      ensures !found ==> p == junk
      ensures found <==> !NoneEligible(mem, list)
    {
      ghost var ring := [head] + list;
      RingIn(mem, ring);
      var min := INFINITE;
      p, found := junk, false;
      ghost var n, k := 0, -1;
      assert LinkAt(mem, ring, 0);
      var at := mem[head].next;
      while at != head
        invariant 0 <= n <= |list| && at == After(ring, n) && at in mem && Best(mem, list, n, min, k)
        invariant found == (k >= 0) && (if found then p == list[k] else p == junk)
        decreases |list| - n
      {
        var e := mem[at];
        assert at == list[n];
        BestNext(mem, list, n, min, k);
        if e.load != 0 && Ratio(e) < min && e.requests < MAX_REQUESTS {
          min := Ratio(e);
          p, found, k := at, true, n;
        }
        assert LinkAt(mem, ring, n + 1);
        at := e.next;
        n := n + 1;
      }
      assert n == |list| && list[..n] == list;
    }

    /** `sd_get_optimal_endpoint` under its lock.  If no endpoint can be chosen the source
        goes on with an uninitialised pointer: `trap`. */
    method GetOptimal(junk: Addr) returns (p: Addr, trap: bool)
      requires Valid()
      modifies this`mem
      ensures Valid() && Within(old(mem), list) && SameLoads(old(mem), mem)
      ensures trap <==> NoneEligible(old(mem), list)
      ensures trap ==> mem == old(mem) && p == junk
      ensures !trap ==> Optimal(old(mem), list, p) && mem == Counted(old(mem), p, 1)
    {
      var found;
      p, found := FindOptimal(junk);
      trap := !found;
      if found {
        mem := mem[p := mem[p].(requests := mem[p].requests + 1)];
        CountedRing(old(mem), mem, [head] + list);
      }
    }

    /** Is `p` one of the endpoints? */
    method Has(p: Addr) returns (there: bool)
      requires Valid()
      ensures there <==> p in list
      ensures there ==> p in mem
    {
      ghost var ring := [head] + list;
      RingIn(mem, ring);
      assert LinkAt(mem, ring, 0);
      var at := mem[head].next;
      ghost var n := 0;
      while at != head
        invariant 0 <= n <= |list| && at == After(ring, n) && at in mem && p !in list[..n]
        decreases |list| - n
      {
        assert at == list[n];
        if at == p {
          return true;
        }
        assert LinkAt(mem, ring, n + 1);
        at := mem[at].next;
        n := n + 1;
      }
      assert n == |list| && list[..n] == list;
      return false;
    }

    /** A response: the channel has one outstanding request less. */
    method Respond(p: Addr)
      requires Valid() && p in mem && mem[p].requests > 0
      modifies this`mem
      ensures Valid() && mem == Counted(old(mem), p, -1)
    {
      mem := mem[p := mem[p].(requests := mem[p].requests - 1)];
      CountedRing(old(mem), mem, [head] + list);
    }
  }

  ghost predicate Descending(m: Mem, s: seq<Addr>) {
    forall i, j :: 0 <= i < j < |s| ==> s[i] in m && s[j] in m && m[s[i]].load >= m[s[j]].load
  }

  /** Only links changed. */
  ghost predicate SamePayload(m: Mem, m': Mem) {
    forall a :: a in m ==> a in m' && m'[a].load == m[a].load && m'[a].requests == m[a].requests
  }

  /** Only request numbers changed. */
  ghost predicate SameLoads(m: Mem, m': Mem) {
    forall a :: a in m ==> a in m' && m'[a].load == m[a].load && m'[a].next == m[a].next && m'[a].prev == m[a].prev
  }

  /** `d` more requests at `p`. */
  ghost function Counted(m: Mem, p: Addr, d: int): Mem
    requires p in m && m[p].requests + d >= 0
  {
    m[p := m[p].(requests := m[p].requests + d)]
  }

  lemma RingIn(m: Mem, ring: seq<Addr>)
    requires Ring(m, ring)
    ensures Within(m, ring) && Within(m, ring[1..])
  {
    forall i | 0 <= i < |ring| ensures ring[i] in m { assert LinkAt(m, ring, i); }
  }

  lemma CountedRing(m: Mem, m': Mem, ring: seq<Addr>)
    requires Ring(m, ring) && SameLoads(m, m')
    ensures Ring(m', ring)
  {
    forall i | 0 <= i < |ring| ensures LinkAt(m', ring, i) { assert LinkAt(m, ring, i); }
  }

  lemma StillDescending(m: Mem, m': Mem, s: seq<Addr>, k: nat, x: Addr)
    requires Descending(m, s) && Within(m, s) && x in m && SamePayload(m, m') && k <= |s|
    requires forall j :: 0 <= j < k ==> m[s[j]].load > m[x].load
    requires k < |s| ==> m[x].load >= m[s[k]].load
    ensures Descending(m', Inserted(s, k, x))
  {
    var r := Inserted(s, k, x);
    forall i, j | 0 <= i < j < |r| ensures r[i] in m' && r[j] in m' && m'[r[i]].load >= m'[r[j]].load {
    }
  }

  lemma BestNext(m: Mem, s: seq<Addr>, n: nat, min: real, k: int)
    requires Within(m, s) && n < |s| && Best(m, s, n, min, k)
    ensures var e := m[s[n]];
      if e.load != 0 && Ratio(e) < min && e.requests < MAX_REQUESTS then Best(m, s, n + 1, Ratio(e), n) else Best(m, s, n + 1, min, k)
  {
    var e := m[s[n]];
    if Eligible(e) { SmallRatio(e); }
    assert s[..n + 1] == s[..n] + [s[n]];
    if k < 0 && Eligible(e) {
      forall j | 0 <= j < n ensures !Eligible(m[s[j]]) { assert s[..n][j] == s[j]; }
    }
  }

  // ----- fairness -----

  /** `a` has at most one request more than its share next to `b`. */
  ghost predicate FairPair(a: Endpoint, b: Endpoint) {
    b.requests < 200 ==> (a.requests - 1) * b.load <= b.requests * a.load
  }

  ghost predicate Fair(m: Mem, s: seq<Addr>)
    requires Within(m, s)
  {
    forall i, j :: 0 <= i < |s| && 0 <= j < |s| ==> FairPair(m[s[i]], m[s[j]])
  }

  ghost predicate Loaded(m: Mem, s: seq<Addr>)
    requires Within(m, s)
  {
    forall i :: 0 <= i < |s| ==> m[s[i]].load > 0
  }

  /** Comparing ratios by multiplying crosswise. */
  lemma Crosswise(a: Endpoint, b: Endpoint)
    requires a.load > 0 && b.load > 0 && Ratio(a) <= Ratio(b)
    ensures a.requests * b.load <= b.requests * a.load
  {
    var x, y, p, q := a.requests as real, b.requests as real, a.load as real, b.load as real;
    Cross(x, p, y, q);
    assert (a.requests * b.load) as real == x * q;
    assert (b.requests * a.load) as real == y * p;
  }

  lemma Cross(x: real, p: real, y: real, q: real)
    requires p > 0.0 && q > 0.0 && x / p <= y / q
    ensures x * q <= y * p
  {
    var u, v := x / p, y / q;
    assert u * p == x && v * q == y;
    var d := v - u;
    assert d * (p * q) >= 0.0;
    assert y * p - x * q == d * (p * q);
  }

  lemma ChosenPair(a: Endpoint, b: Endpoint)
    requires a.load > 0 && b.load > 0 && (Eligible(b) ==> Ratio(a) <= Ratio(b))
    ensures FairPair(a.(requests := a.requests + 1), b)
  {
    if Eligible(b) { Crosswise(a, b); }
  }

  lemma OtherPair(a: Endpoint, b: Endpoint)
    requires a.load > 0 && FairPair(a, b)
    ensures FairPair(a, b.(requests := b.requests + 1))
  {
    assert (b.requests + 1) * a.load == b.requests * a.load + a.load;
  }

  lemma SelfPair(a: Endpoint)
    requires a.load > 0
    ensures FairPair(a, a)
  {
    assert (a.requests - 1) * a.load == a.requests * a.load - a.load;
  }

  /** A choice keeps the shares fair. */
  lemma FairStep(m: Mem, s: seq<Addr>, p: Addr)
    requires Within(m, s) && Loaded(m, s) && Fair(m, s) && Optimal(m, s, p)
    ensures Fair(Counted(m, p, 1), s)
  {
    var m' := Counted(m, p, 1);
    forall i, j | 0 <= i < |s| && 0 <= j < |s| ensures FairPair(m'[s[i]], m'[s[j]]) {
      assert FairPair(m[s[i]], m[s[j]]);
      if s[i] == p && s[j] == p {
        SelfPair(m'[p]);
      } else if s[i] == p {
        ChosenPair(m[p], m[s[j]]);
      } else if s[j] == p {
        OtherPair(m[s[i]], m[p]);
      }
    }
  }

  lemma FairAtFirst(m: Mem, s: seq<Addr>)
    requires Within(m, s) && Loaded(m, s) && forall i :: 0 <= i < |s| ==> m[s[i]].requests == 0
    ensures Fair(m, s)
  {
    forall i, j | 0 <= i < |s| && 0 <= j < |s| ensures FairPair(m[s[i]], m[s[j]]) {
      assert -1 * m[s[j]].load <= 0 == 0 * m[s[i]].load;
    }
  }

  // ----- whole runs -----

  /** Every endpoint has the requests of `picks` that are not in `done`, at most 200. */
  ghost predicate Accounted(m: Mem, s: seq<Addr>, picks: seq<Addr>, done: seq<Addr>)
    requires Within(m, s)
  {
    forall i :: 0 <= i < |s| ==>
      m[s[i]].requests + multiset(done)[s[i]] == multiset(picks)[s[i]] && m[s[i]].requests <= 200
  }

  /** `n` choices without any completion: the shares stay fair, and only when every
      endpoint is saturated nothing can be chosen. */
  method Balance(node: ServiceNode, n: nat, junk: Addr) returns (picks: seq<Addr>, trap: bool)
    requires node.Valid() && Within(node.mem, node.list) && Loaded(node.mem, node.list)
    requires forall i :: 0 <= i < |node.list| ==> node.mem[node.list[i]].requests == 0
    modifies node
    ensures node.Valid() && node.list == old(node.list) && Within(node.mem, node.list)
    ensures Fair(node.mem, node.list) && Accounted(node.mem, node.list, picks, [])
    ensures if trap then forall i :: 0 <= i < |node.list| ==> node.mem[node.list[i]].requests == 200 else |picks| == n
  {
    picks, trap := [], false;
    FairAtFirst(node.mem, node.list);
    for i := 0 to n
      invariant node.Valid() && node.list == old(node.list) && Within(node.mem, node.list) && Loaded(node.mem, node.list)
      invariant Fair(node.mem, node.list) && Accounted(node.mem, node.list, picks, []) && |picks| == i
    {
      ghost var m := node.mem;
      var p;
      p, trap := node.GetOptimal(junk);
      if trap {
        return;
      }
      FairStep(m, node.list, p);
      picks := picks + [p];
      Picked(m, node.list, picks[..i], [], p);
      assert picks[..i] + [p] == picks;
    }
  }

  lemma Picked(m: Mem, s: seq<Addr>, picks: seq<Addr>, done: seq<Addr>, p: Addr)
    requires Within(m, s) && Accounted(m, s, picks, done) && Optimal(m, s, p)
    ensures Accounted(Counted(m, p, 1), s, picks + [p], done)
  {
  }

  lemma Answered(m: Mem, s: seq<Addr>, picks: seq<Addr>, done: seq<Addr>, p: Addr)
    requires Within(m, s) && Accounted(m, s, picks, done) && p in m && m[p].requests > 0
    ensures Accounted(Counted(m, p, -1), s, picks, done + [p])
  {
  }

  /** The index of the first of the least loaded endpoints that can be chosen, or -1. */
  ghost function Least(m: Mem, s: seq<Addr>): int
    requires Within(m, s)
    ensures -1 <= Least(m, s) < |s| && (Least(m, s) >= 0 ==> Eligible(m[s[Least(m, s)]]))
  {
    if s == [] then -1
    else
      var n := |s| - 1;
      var k := Least(m, s[..n]);
      if Eligible(m[s[n]]) && (k < 0 || Ratio(m[s[n]]) < Ratio(m[s[k]])) then n else k
  }

  lemma {:induction false} LeastOptimal(m: Mem, s: seq<Addr>)
    requires Within(m, s)
    ensures Least(m, s) < 0 <==> NoneEligible(m, s)
    ensures Least(m, s) >= 0 ==> Optimal(m, s, s[Least(m, s)])
  {
    if s != [] {
      var n := |s| - 1;
      var t := s[..n];
      LeastOptimal(m, t);
      var k := Least(m, s);
      forall j | 0 <= j < |s| && Eligible(m[s[j]]) ensures k >= 0 && Ratio(m[s[k]]) <= Ratio(m[s[j]]) && (j < k ==> Ratio(m[s[k]]) < Ratio(m[s[j]])) {
        if j < n { assert t[j] == s[j]; LeastBelow(m, t, j); }
      }
    }
  }

  lemma {:induction false} LeastBelow(m: Mem, s: seq<Addr>, j: nat)
    requires Within(m, s) && j < |s| && Eligible(m[s[j]])
    ensures var k := Least(m, s);
      k >= 0 && Ratio(m[s[k]]) <= Ratio(m[s[j]]) && (j < k ==> Ratio(m[s[k]]) < Ratio(m[s[j]]))
  {
    var n := |s| - 1;
    if j < n { assert s[..n][j] == s[j]; LeastBelow(m, s[..n], j); }
  }

  /** There is only one. */
  lemma OptimalUnique(m: Mem, s: seq<Addr>, p: Addr, q: Addr)
    requires Within(m, s) && Optimal(m, s, p) && Optimal(m, s, q)
    ensures p == q
  {
    var i :| 0 <= i < |s| && s[i] == p && Eligible(m[p])
      && (forall j :: 0 <= j < |s| && Eligible(m[s[j]]) ==> Ratio(m[p]) <= Ratio(m[s[j]]))
      && (forall j :: 0 <= j < i && Eligible(m[s[j]]) ==> Ratio(m[p]) < Ratio(m[s[j]]));
    var k :| 0 <= k < |s| && s[k] == q && Eligible(m[q])
      && (forall j :: 0 <= j < |s| && Eligible(m[s[j]]) ==> Ratio(m[q]) <= Ratio(m[s[j]]))
      && (forall j :: 0 <= j < k && Eligible(m[s[j]]) ==> Ratio(m[q]) < Ratio(m[s[j]]));
    assert Ratio(m[s[i]]) <= Ratio(m[s[k]]) && Ratio(m[s[k]]) <= Ratio(m[s[i]]);
  }

  datatype Event = Choose | Respond(p: Addr)

  /** Why a run stops: a choice uses the unassigned pointer, or a response comes on a
      channel without requests, whose unsigned count then wraps around. */
  datatype Stop = Going | Unset | Stray

  datatype Log = Log(mem: Mem, picks: seq<Addr>, done: seq<Addr>, stop: Stop)

  ghost function Next(l: Log, s: seq<Addr>, e: Event): (l': Log)
    requires Within(l.mem, s)
    ensures Within(l'.mem, s) && SameLoads(l.mem, l'.mem)
  {
    match e
    case Choose =>
      if NoneEligible(l.mem, s) then l.(stop := Unset)
      else
        LeastOptimal(l.mem, s);
        var p := s[Least(l.mem, s)];
        Log(Counted(l.mem, p, 1), l.picks + [p], l.done, l.stop)
    case Respond(p) =>
      if p in s && p in l.mem && l.mem[p].requests > 0 then Log(Counted(l.mem, p, -1), l.picks, l.done + [p], l.stop)
      else l.(stop := Stray)
  }

  /** What a run of choices and responses comes to, as far as it gets. */
  ghost function Outcome(m: Mem, s: seq<Addr>, events: seq<Event>): (l: Log)
    requires Within(m, s)
    ensures Within(l.mem, s) && SameLoads(m, l.mem)
  {
    if events == [] then Log(m, [], [], Going)
    else
      var n := |events| - 1;
      var l := Outcome(m, s, events[..n]);
      if l.stop != Going then l else Next(l, s, events[n])
  }

  lemma OutcomeNext(m: Mem, s: seq<Addr>, events: seq<Event>, i: nat)
    requires Within(m, s) && i < |events|
    ensures var l := Outcome(m, s, events[..i]);
      Outcome(m, s, events[..i + 1]) == if l.stop != Going then l else Next(l, s, events[i])
  {
    assert events[..i + 1][..i] == events[..i];
  }

  /** Choices and responses in any order: the run does exactly what is specified, and stops
      where the source goes wrong. */
  method Serve(node: ServiceNode, events: seq<Event>, junk: Addr) returns (picks: seq<Addr>, done: seq<Addr>, stop: Stop)
    requires node.Valid() && Within(node.mem, node.list)
    modifies node
    ensures node.Valid() && node.list == old(node.list)
    ensures Log(node.mem, picks, done, stop) == Outcome(old(node.mem), node.list, events)
  {
    picks, done, stop := [], [], Going;
    ghost var m, s := node.mem, node.list;
    for i := 0 to |events|
      invariant node.Valid() && node.list == s && Within(node.mem, s) && stop == Going
      invariant Log(node.mem, picks, done, stop) == Outcome(m, s, events[..i])
    {
      OutcomeNext(m, s, events, i);
      picks, done, stop := ServeOne(node, events[i], junk, picks, done);
      if stop != Going {
        Stopped(m, s, events, i + 1);
        return;
      }
    }
    assert events[..|events|] == events;
  }

  method ServeOne(node: ServiceNode, e: Event, junk: Addr, picks0: seq<Addr>, done0: seq<Addr>)
    returns (picks: seq<Addr>, done: seq<Addr>, stop: Stop)
    requires node.Valid() && Within(node.mem, node.list)
    modifies node
    ensures node.Valid() && node.list == old(node.list) && Within(node.mem, node.list)
    ensures Log(node.mem, picks, done, stop) == Next(Log(old(node.mem), picks0, done0, Going), node.list, e)
  {
    picks, done, stop := picks0, done0, Going;
    ghost var m, s := node.mem, node.list;
    match e {
      case Choose =>
        LeastOptimal(m, s);
        var p, trap := node.GetOptimal(junk);
        if trap {
          stop := Unset;
        } else {
          OptimalUnique(m, s, p, s[Least(m, s)]);
          picks := picks + [p];
        }
      case Respond(p) =>
        var there := node.Has(p);
        if there && node.mem[p].requests > 0 {
          node.Respond(p);
          done := done + [p];
        } else {
          stop := Stray;
        }
    }
  }

  lemma {:induction false} Stopped(m: Mem, s: seq<Addr>, events: seq<Event>, i: nat)
    requires Within(m, s) && i <= |events| && Outcome(m, s, events[..i]).stop != Going
    ensures Outcome(m, s, events) == Outcome(m, s, events[..i])
    decreases |events| - i
  {
    if i < |events| {
      OutcomeNext(m, s, events, i);
      Stopped(m, s, events, i + 1);
    } else {
      assert events[..i] == events;
    }
  }

  /** The run gets to event `i`, and no endpoint can be chosen then. */
  ghost predicate StuckAt(m: Mem, s: seq<Addr>, events: seq<Event>, i: nat)
    requires Within(m, s) && i < |events|
  {
    var l := Outcome(m, s, events[..i]);
    l.stop == Going && NoneEligible(l.mem, s)
  }

  lemma StuckStops(m: Mem, s: seq<Addr>, events: seq<Event>, i: nat)
    requires Within(m, s) && i < |events| && events[i] == Choose && StuckAt(m, s, events, i)
    ensures Outcome(m, s, events).stop == Unset
  {
    OutcomeNext(m, s, events, i);
    Stopped(m, s, events, i + 1);
  }

  lemma {:induction false} WhereStuck(m: Mem, s: seq<Addr>, events: seq<Event>, n: nat) returns (i: nat)
    requires Within(m, s) && n <= |events| && Outcome(m, s, events[..n]).stop == Unset
    ensures i < n && events[i] == Choose && StuckAt(m, s, events, i)
  {
    OutcomeNext(m, s, events, n - 1);
    if Outcome(m, s, events[..n - 1]).stop == Going {
      i := n - 1;
    } else {
      i := WhereStuck(m, s, events, n - 1);
    }
  }

  /** The unassigned pointer is used exactly if some choice finds nothing to choose. */
  lemma UnsetExactly(m: Mem, s: seq<Addr>, events: seq<Event>)
    requires Within(m, s)
    ensures Outcome(m, s, events).stop == Unset <==>
      exists i: nat :: i < |events| && events[i] == Choose && StuckAt(m, s, events, i)
  {
    if i: nat :| i < |events| && events[i] == Choose && StuckAt(m, s, events, i) {
      StuckStops(m, s, events, i);
    }
    if Outcome(m, s, events).stop == Unset {
      assert events[..|events|] == events;
      var i := WhereStuck(m, s, events, |events|);
    }
  }

  /** As far as a run gets, outstanding requests are accounted for and never more than 200. */
  lemma {:induction false} OutcomeAccounted(m: Mem, s: seq<Addr>, events: seq<Event>)
    requires Within(m, s) && forall i :: 0 <= i < |s| ==> m[s[i]].requests == 0
    ensures var l := Outcome(m, s, events); Accounted(l.mem, s, l.picks, l.done)
  {
    if events != [] {
      var n := |events| - 1;
      OutcomeAccounted(m, s, events[..n]);
      var l := Outcome(m, s, events[..n]);
      if l.stop == Going {
        match events[n]
        case Choose =>
          if !NoneEligible(l.mem, s) {
            LeastOptimal(l.mem, s);
            Picked(l.mem, s, l.picks, l.done, s[Least(l.mem, s)]);
          }
        case Respond(p) =>
          if p in s && p in l.mem && l.mem[p].requests > 0 { Answered(l.mem, s, l.picks, l.done, p); }
      }
    }
  }

  /** Nothing can be chosen exactly if every endpoint is saturated. */
  lemma NothingToChoose(m: Mem, s: seq<Addr>)
    requires Within(m, s) && Loaded(m, s)
    ensures NoneEligible(m, s) <==> forall i :: 0 <= i < |s| ==> m[s[i]].requests >= 200
  {
  }

  function Choices(n: nat): seq<Event> { seq(n, _ => Choose) }

  lemma {:induction false} OneEndpoint(m: Mem, p: Addr, n: nat)
    requires p in m && m[p].load != 0 && m[p].requests == 0 && n <= MAX_REQUESTS
    ensures Within(m, [p])
    ensures var l := Outcome(m, [p], Choices(n)); l.stop == Going && l.mem == Counted(m, p, n)
  {
    if n > 0 {
      OneEndpoint(m, p, n - 1);
      assert Choices(n)[..n - 1] == Choices(n - 1);
      var l := Outcome(m, [p], Choices(n - 1));
      assert Eligible(l.mem[[p][0]]);
    } else {
      assert m[p := m[p].(requests := 0)] == m;
    }
  }

  /** With one endpoint, the 201st choice in a row uses the unassigned pointer. */
  lemma Saturated(m: Mem, p: Addr)
    requires p in m && m[p].load != 0 && m[p].requests == 0
    ensures Within(m, [p]) && Outcome(m, [p], Choices(200)).stop == Going
    ensures Outcome(m, [p], Choices(201)).stop == Unset
  {
    OneTooMany(m, p, 200);
  }

  lemma OneTooMany(m: Mem, p: Addr, n: nat)
    requires p in m && m[p].load != 0 && m[p].requests == 0 && n == MAX_REQUESTS
    ensures Within(m, [p]) && Outcome(m, [p], Choices(n)).stop == Going && Outcome(m, [p], Choices(n + 1)).stop == Unset
  {
    OneEndpoint(m, p, n);
    assert Choices(n + 1)[..n] == Choices(n);
  }
}
