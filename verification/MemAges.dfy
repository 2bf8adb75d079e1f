/**
 The two array computations of `mmpl_rls_oldestfree`: ordering the size classes by
 their last request, and choosing the classes to thin out.
 */
module MemAges {

  const MAX_INDEX := 10
  const CLASSES := 11
  const OLDEST_RANGE := 3

  // ----- ordering -----

  ghost predicate Permutation(order: seq<nat>) {
    && |order| == MAX_INDEX
    && (forall k :: 0 <= k < MAX_INDEX ==> 1 <= order[k] <= MAX_INDEX)
    && (forall j, k :: 0 <= j < k < MAX_INDEX ==> order[j] != order[k])
    && (forall c: nat :: 1 <= c <= MAX_INDEX ==> c in order)
  }

  lemma Swapped(order: seq<nat>, i: nat, k: nat)
    requires Permutation(order) && i < MAX_INDEX && k < MAX_INDEX
    ensures Permutation(order[i := order[k]][k := order[i]])
  {
    var s := order[i := order[k]][k := order[i]];
    forall c: nat | 1 <= c <= MAX_INDEX ensures c in s {
      assert c in order;
      var j :| 0 <= j < MAX_INDEX && order[j] == c;
      assert s[if j == i then k else if j == k then i else j] == c;
    }
  }

  /** The first `n` classes are in order of age and none after them is older. */
  ghost predicate OldestFirst(order: seq<nat>, latest: seq<nat>, n: nat)
    requires |latest| == CLASSES && Permutation(order) && n <= MAX_INDEX
  {
    forall j, k :: 0 <= j < n && j < k < MAX_INDEX ==> latest[order[j]] <= latest[order[k]]
  }

  method SortByAge(latest: seq<nat>) returns (order: seq<nat>)
    requires |latest| == CLASSES
    ensures Permutation(order) && OldestFirst(order, latest, MAX_INDEX)
  {
    order := seq(MAX_INDEX, (k: nat) requires k < MAX_INDEX => k + 1);
    forall c: nat | 1 <= c <= MAX_INDEX ensures c in order {
      assert order[c - 1] == c;
    }
    for i := 0 to MAX_INDEX
      invariant Permutation(order) && OldestFirst(order, latest, i)
    {
      var minCnt, minK := latest[order[i]], i;
      for j := i + 1 to MAX_INDEX
        invariant i <= minK < MAX_INDEX && minCnt == latest[order[minK]]
        invariant forall k :: i <= k < j ==> minCnt <= latest[order[k]]
      {
        if latest[order[j]] < minCnt {
          minCnt, minK := latest[order[j]], j;
        }
      }
      Swapped(order, i, minK);
      order := order[i := order[minK]][minK := order[i]];
    }
  }

  // ----- choosing -----

  /** The classes of `order` that have idle blocks, oldest first. */
  function Filter(order: seq<nat>, size: seq<int>): seq<nat>
    requires forall k :: 0 <= k < |order| ==> order[k] < |size|
  {
    if order == [] then []
    else
      var n := |order| - 1;
      Filter(order[..n], size) + if size[order[n]] > 0 then [order[n]] else []
  }

  lemma FilterNext(order: seq<nat>, size: seq<int>, j: nat)
    requires j < |order| && forall k :: 0 <= k < |order| ==> order[k] < |size|
    ensures Filter(order[..j + 1], size) == Filter(order[..j], size) + if size[order[j]] > 0 then [order[j]] else []
  {
    assert order[..j + 1][..j] == order[..j];
  }

  lemma {:induction false} FilterPrefix(order: seq<nat>, size: seq<int>, j: nat)
    requires j <= |order| && forall k :: 0 <= k < |order| ==> order[k] < |size|
    ensures Filter(order[..j], size) <= Filter(order, size)
    decreases |order| - j
  {
    if j == |order| {
      assert order[..j] == order;
    } else {
      FilterPrefix(order, size, j + 1);
      FilterNext(order, size, j);
    }
  }

  /** What fills the places that no class is left for: the last class found if it was
      the very last in the order, and otherwise whatever the stack held. */
  function Filler(order: seq<nat>, size: seq<int>, junk: seq<nat>): nat
    requires |order| == MAX_INDEX && |junk| == OLDEST_RANGE
    requires forall k :: 0 <= k < |order| ==> order[k] < |size|
    requires 0 < |Filter(order, size)| < OLDEST_RANGE
  {
    var l := Filter(order, size);
    if size[order[MAX_INDEX - 1]] > 0 then l[|l| - 1] else junk[|l|]
  }

  /** The oldest classes with idle blocks, as far as there are any. */
  ghost predicate IsPick(order: seq<nat>, size: seq<int>, junk: seq<nat>, picked: seq<nat>)
    requires Permutation(order) && |size| == CLASSES && |junk| == OLDEST_RANGE
    requires Filter(order, size) != []
  {
    var l := Filter(order, size);
    && |picked| == OLDEST_RANGE
    && (forall i :: 0 <= i < OLDEST_RANGE && i < |l| ==> picked[i] == l[i])
    && (forall i :: |l| <= i < OLDEST_RANGE ==> picked[i] == Filler(order, size, junk))
  }

  /** The inner loop: on to the next class with idle blocks. */
  method Scan(order: seq<nat>, size: seq<int>, start: nat) returns (j: nat, found: bool)
    requires Permutation(order) && |size| == CLASSES && start < MAX_INDEX
    ensures start < j <= MAX_INDEX
    ensures found ==> size[order[j - 1]] > 0 && Filter(order[..j], size) == Filter(order[..start], size) + [order[j - 1]]
    ensures !found ==> j == MAX_INDEX && size[order[MAX_INDEX - 1]] <= 0
    ensures !found ==> Filter(order, size) == Filter(order[..start], size)
  {
    j, found := start, false;
    while j < MAX_INDEX
      invariant start <= j <= MAX_INDEX && (j > start ==> size[order[j - 1]] <= 0)
      invariant Filter(order[..j], size) == Filter(order[..start], size)
    {
      FilterNext(order, size, j);
      j := j + 1;
      if size[order[j - 1]] > 0 {
        return j, true;
      }
    }
    assert order[..MAX_INDEX] == order;
  }

  /** The places below `i` are filled as they should be after scanning `j` classes. */
  ghost predicate Chosen(order: seq<nat>, size: seq<int>, junk: seq<nat>, picked: seq<nat>, i: nat, j: nat)
    requires Permutation(order) && |size| == CLASSES && |junk| == OLDEST_RANGE && j <= MAX_INDEX
  {
    var l := Filter(order[..j], size);
    && |picked| == OLDEST_RANGE && i <= OLDEST_RANGE && |l| <= i
    && (forall k :: 0 <= k < |l| ==> picked[k] == l[k])
    && (forall k :: i <= k < OLDEST_RANGE ==> picked[k] == junk[k])
    && (|l| == i && j > 0 ==> size[order[j - 1]] > 0)
    && (|l| < i ==> j == MAX_INDEX && order[..j] == order && 0 < |l|)
    && (forall k :: |l| <= k < i ==> picked[k] == Filler(order, size, junk))
  }

  lemma ChosenFound(order: seq<nat>, size: seq<int>, junk: seq<nat>, picked: seq<nat>, i: nat, start: nat, j: nat)
    requires Permutation(order) && |size| == CLASSES && |junk| == OLDEST_RANGE && start < j <= MAX_INDEX
    requires Chosen(order, size, junk, picked, i, start) && i < OLDEST_RANGE && start < MAX_INDEX
    requires size[order[j - 1]] > 0 && Filter(order[..j], size) == Filter(order[..start], size) + [order[j - 1]]
    ensures Chosen(order, size, junk, picked[i := order[j - 1]], i + 1, j)
  {
  }

  lemma ChosenMissed(order: seq<nat>, size: seq<int>, junk: seq<nat>, picked: seq<nat>, i: nat, start: nat)
    requires Permutation(order) && |size| == CLASSES && |junk| == OLDEST_RANGE && start < MAX_INDEX
    requires Chosen(order, size, junk, picked, i, start) && 0 < i < OLDEST_RANGE
    requires size[order[MAX_INDEX - 1]] <= 0 && Filter(order, size) == Filter(order[..start], size)
    ensures Chosen(order, size, junk, picked, i + 1, MAX_INDEX)
  {
    assert order[..MAX_INDEX] == order;
  }

  lemma ChosenAgain(order: seq<nat>, size: seq<int>, junk: seq<nat>, picked: seq<nat>, i: nat)
    requires Permutation(order) && |size| == CLASSES && |junk| == OLDEST_RANGE
    requires Chosen(order, size, junk, picked, i, MAX_INDEX) && 0 < i < OLDEST_RANGE
    ensures Chosen(order, size, junk, picked[i := picked[i - 1]], i + 1, MAX_INDEX)
  {
    assert order[..MAX_INDEX] == order;
  }

  lemma ChosenAll(order: seq<nat>, size: seq<int>, junk: seq<nat>, picked: seq<nat>, j: nat)
    requires Permutation(order) && |size| == CLASSES && |junk| == OLDEST_RANGE && j <= MAX_INDEX
    requires Chosen(order, size, junk, picked, OLDEST_RANGE, j)
    ensures Filter(order, size) != [] && IsPick(order, size, junk, picked)
  {
    FilterPrefix(order, size, j);
    var l := Filter(order[..j], size);
    if |l| < OLDEST_RANGE {
      assert order[..j] == order;
    }
  }

  /** The chosen classes, `junk` being the uninitialised contents of the array. */
  method Pick(order: seq<nat>, size: seq<int>, junk: seq<nat>) returns (ok: bool, picked: seq<nat>)
    requires Permutation(order) && |size| == CLASSES && |junk| == OLDEST_RANGE
    ensures ok <==> Filter(order, size) != []
    ensures ok ==> IsPick(order, size, junk, picked)
  {
    assert order[..MAX_INDEX] == order && order[..0] == [];
    picked := junk;
    var j := 0;
    for i := 0 to OLDEST_RANGE
      invariant 0 <= j <= MAX_INDEX && (i > 0 ==> j > 0) && (j == MAX_INDEX ==> i > 0)
      invariant Chosen(order, size, junk, picked, i, j)
    {
      if j == MAX_INDEX {
        ChosenAgain(order, size, junk, picked, i);
        picked := picked[i := picked[i - 1]];
        continue;
      }
      var start := j;
      var found;
      j, found := Scan(order, size, start);
      if found {
        ChosenFound(order, size, junk, picked, i, start, j);
        picked := picked[i := order[j - 1]];
      } else if i == 0 {
        return false, picked;
      } else {
        ChosenMissed(order, size, junk, picked, i, start);
      }
    }
    ChosenAll(order, size, junk, picked, j);
    return true, picked;
  }

  /** Stack contents are used as a class exactly if fewer than three classes have idle
      blocks and the one requested last is not among them. */
  ghost predicate AllFound(order: seq<nat>, size: seq<int>)
    requires Permutation(order) && |size| == CLASSES
  {
    |Filter(order, size)| >= OLDEST_RANGE || size[order[MAX_INDEX - 1]] > 0
  }

  lemma {:induction false} FilterIn(order: seq<nat>, size: seq<int>, i: nat)
    requires (forall k :: 0 <= k < |order| ==> order[k] < |size|) && i < |Filter(order, size)|
    ensures Filter(order, size)[i] in order && size[Filter(order, size)[i]] > 0
  {
    var n := |order| - 1;
    if i < |Filter(order[..n], size)| { FilterIn(order[..n], size, i); }
  }

  lemma PickExact(order: seq<nat>, size: seq<int>, junk: seq<nat>, picked: seq<nat>)
    requires Permutation(order) && |size| == CLASSES && |junk| == OLDEST_RANGE
    requires Filter(order, size) != [] && IsPick(order, size, junk, picked)
    ensures AllFound(order, size) ==>
      forall i :: 0 <= i < OLDEST_RANGE ==> 1 <= picked[i] <= MAX_INDEX && size[picked[i]] > 0
    ensures !AllFound(order, size) ==> exists i :: 0 <= i < OLDEST_RANGE && picked[i] == junk[|Filter(order, size)|]
  {
    var l := Filter(order, size);
    forall i | 0 <= i < |l| ensures 1 <= l[i] <= MAX_INDEX && size[l[i]] > 0 {
      FilterIn(order, size, i);
    }
    if !AllFound(order, size) { assert picked[|l|] == junk[|l|]; }
  }

  /** Different classes are chosen, as long as there are three. */
  lemma {:induction false} FilterDistinct(order: seq<nat>, size: seq<int>)
    requires forall k :: 0 <= k < |order| ==> order[k] < |size|
    requires forall j, k :: 0 <= j < k < |order| ==> order[j] != order[k]
    ensures forall j, k :: 0 <= j < k < |Filter(order, size)| ==> Filter(order, size)[j] != Filter(order, size)[k]
  {
    if order != [] {
      var n := |order| - 1;
      FilterDistinct(order[..n], size);
      forall i | 0 <= i < |Filter(order[..n], size)| ensures Filter(order[..n], size)[i] != order[n] {
        FilterIn(order[..n], size, i);
      }
    }
  }

  /** A class with idle blocks that is in the order is found. */
  lemma {:induction false} FilterHas(order: seq<nat>, size: seq<int>, p: nat)
    requires (forall k :: 0 <= k < |order| ==> order[k] < |size|) && p < |order| && size[order[p]] > 0
    ensures order[p] in Filter(order, size)
  {
    var n := |order| - 1;
    if p < n { FilterHas(order[..n], size, p); }
  }

  /** What is found earlier stands earlier in the order. */
  lemma {:induction false} FilterOrder(order: seq<nat>, size: seq<int>, i: nat, j: nat) returns (p: nat, q: nat)
    requires (forall k :: 0 <= k < |order| ==> order[k] < |size|) && i < j < |Filter(order, size)|
    ensures p < q < |order| && order[p] == Filter(order, size)[i] && order[q] == Filter(order, size)[j]
  {
    var n := |order| - 1;
    var f := Filter(order[..n], size);
    if j < |f| {
      p, q := FilterOrder(order[..n], size, i, j);
    } else {
      FilterIn(order[..n], size, i);
      p :| 0 <= p < n && order[..n][p] == f[i];
      q := n;
    }
  }

  /** With three classes to choose from, the chosen ones are different and no class left
      aside with idle blocks was requested longer ago. */
  lemma PicksOldest(order: seq<nat>, latest: seq<nat>, size: seq<int>, junk: seq<nat>, picked: seq<nat>, c: nat)
    requires Permutation(order) && |size| == |latest| == CLASSES && |junk| == OLDEST_RANGE
    requires OldestFirst(order, latest, MAX_INDEX)
    requires |Filter(order, size)| >= OLDEST_RANGE && IsPick(order, size, junk, picked)
    requires 1 <= c <= MAX_INDEX && size[c] > 0 && c !in picked
    ensures forall j, k :: 0 <= j < k < OLDEST_RANGE ==> picked[j] != picked[k]
    ensures forall k :: 0 <= k < OLDEST_RANGE ==>
      picked[k] < CLASSES && size[picked[k]] > 0 && latest[picked[k]] <= latest[c]
  {
    var l := Filter(order, size);
    FilterDistinct(order, size);
    assert c in order;
    var p :| 0 <= p < MAX_INDEX && order[p] == c;
    FilterHas(order, size, p);
    var j :| 0 <= j < |l| && l[j] == c;
    assert forall i :: 0 <= i < OLDEST_RANGE ==> picked[i] == l[i];
    assert j >= OLDEST_RANGE;
    forall k | 0 <= k < OLDEST_RANGE
      ensures picked[k] < CLASSES && size[picked[k]] > 0 && latest[picked[k]] <= latest[c]
    {
      FilterIn(order, size, k);
      var a, b := FilterOrder(order, size, k, j);
    }
  }

  // ----- the choice without a look at the order -----

  /** The classes with idle blocks. */
  ghost function Idle(size: seq<int>): set<nat>
    requires |size| == CLASSES
  {
    set c: nat | 1 <= c <= MAX_INDEX && size[c] > 0
  }

  /** The class requested last has idle blocks. */
  ghost predicate YoungestIdle(latest: seq<nat>, size: seq<int>)
    requires |latest| == |size| == CLASSES
  {
    exists c: nat :: c in Idle(size) && forall d: nat :: 1 <= d <= MAX_INDEX ==> latest[d] <= latest[c]
  }

  /** All three choices will be made: there are three classes, or the last is one of them. */
  ghost predicate Enough(latest: seq<nat>, size: seq<int>)
    requires |latest| == |size| == CLASSES
  {
    |Idle(size)| >= 3 || YoungestIdle(latest, size)
  }

  /** Requests have different numbers, and classes with idle blocks have been requested. */
  ghost predicate AgesTell(latest: seq<nat>, size: seq<int>)
    requires |latest| == |size| == CLASSES
  {
    && (forall c: nat, d: nat :: 1 <= c < d <= MAX_INDEX && latest[c] == latest[d] ==> latest[c] == 0)
    && (forall c: nat :: c in Idle(size) ==> latest[c] > 0)
  }

  ghost function Elements(s: seq<nat>): set<nat> { set k: nat | k in s }

  lemma {:induction false} DistinctCount(s: seq<nat>)
    requires forall j, k :: 0 <= j < k < |s| ==> s[j] != s[k]
    ensures |Elements(s)| == |s|
  {
    if s == [] {
      assert Elements(s) == {};
    } else {
      var n := |s| - 1;
      DistinctCount(s[..n]);
      assert s[n] !in s[..n];
      assert Elements(s) == Elements(s[..n]) + {s[n]};
    }
  }

  lemma FilterCount(order: seq<nat>, size: seq<int>)
    requires Permutation(order) && |size| == CLASSES
    ensures |Filter(order, size)| == |Idle(size)|
  {
    var l := Filter(order, size);
    FilterDistinct(order, size);
    DistinctCount(l);
    forall c: nat ensures c in Elements(l) <==> c in Idle(size) {
      if c in l {
        var i :| 0 <= i < |l| && l[i] == c;
        FilterIn(order, size, i);
      }
      if c in Idle(size) {
        assert c in order;
        var q :| 0 <= q < MAX_INDEX && order[q] == c;
        FilterHas(order, size, q);
      }
    }
    assert Elements(l) == Idle(size);
  }

  lemma LastIsYoungest(order: seq<nat>, latest: seq<nat>, size: seq<int>)
    requires Permutation(order) && |latest| == |size| == CLASSES && OldestFirst(order, latest, MAX_INDEX)
    requires AgesTell(latest, size)
    ensures size[order[MAX_INDEX - 1]] > 0 <==> YoungestIdle(latest, size)
  {
    var last := order[MAX_INDEX - 1];
    forall d: nat | 1 <= d <= MAX_INDEX ensures latest[d] <= latest[last] {
      assert d in order;
      var q :| 0 <= q < MAX_INDEX && order[q] == d;
    }
    if size[last] > 0 { assert last in Idle(size); }
    if YoungestIdle(latest, size) {
      var c: nat :| c in Idle(size) && forall d: nat :: 1 <= d <= MAX_INDEX ==> latest[d] <= latest[c];
      assert latest[last] == latest[c];
    }
  }

  lemma FoundExactly(order: seq<nat>, latest: seq<nat>, size: seq<int>, n: nat)
    requires Permutation(order) && |latest| == |size| == CLASSES && OldestFirst(order, latest, MAX_INDEX)
    requires AgesTell(latest, size) && n == |Filter(order, size)|
    ensures AllFound(order, size) <==> Enough(latest, size)
    ensures n == |Idle(size)| && (n == 0 <==> Idle(size) == {})
  {
    FilterCount(order, size);
    LastIsYoungest(order, latest, size);
  }
}
