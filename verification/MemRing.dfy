/**
 The circular doubly linked lists of `mmpool.c`, in explicit memory.  A ring is
 described by the sequence of its nodes, starting at the one the pool points to.
 */
module MemRing {

  type Addr = nat

  const NULL: Addr := 0

  /** `struct mm_node` */
  datatype Block = Block(inUse: bool, next: Addr, pre: Addr, index: nat)

  type Mem = map<Addr, Block>

  ghost predicate Distinct(s: seq<Addr>) {
    forall i, j :: 0 <= i < j < |s| ==> s[i] != s[j]
  }

  ghost predicate Link(m: Mem, a: Addr, b: Addr) {
    a in m && b in m && m[a].next == b && m[b].pre == a
  }

  ghost predicate LinkAt(m: Mem, s: seq<Addr>, i: nat)
    requires i + 1 < |s|
  {
    Link(m, s[i], s[i + 1])
  }

  ghost predicate Ring(m: Mem, s: seq<Addr>) {
    && Distinct(s)
    && (forall i: nat :: i + 1 < |s| ==> LinkAt(m, s, i))
    && (s != [] ==> Link(m, s[|s| - 1], s[0]))
  }

  /** From `m` to `m'`, `a` kept its successor, its predecessor. */
  ghost predicate SameNext(m: Mem, m': Mem, a: Addr) {
    a in m && a in m' && m'[a].next == m[a].next
  }

  ghost predicate SamePre(m: Mem, m': Mem, a: Addr) {
    a in m && a in m' && m'[a].pre == m[a].pre
  }

  /** Writing outside a ring, or only other fields, leaves it a ring. */
  lemma RingFrame(m: Mem, m': Mem, s: seq<Addr>)
    requires Ring(m, s)
    requires forall i {:trigger s[i]} :: 0 <= i < |s| ==> SameNext(m, m', s[i]) && SamePre(m, m', s[i])
    ensures Ring(m', s)
  {
    forall i: nat | i + 1 < |s| ensures LinkAt(m', s, i) {
      assert LinkAt(m, s, i);
    }
  }

  /** The ring without its first node: only its two neighbours were written. */
  lemma Unhooked(m: Mem, m': Mem, s: seq<Addr>)
    requires Ring(m, s) && |s| >= 2
    requires forall i {:trigger s[i]} :: 1 <= i < |s| - 1 ==> SameNext(m, m', s[i])
    requires forall i {:trigger s[i]} :: 2 <= i < |s| ==> SamePre(m, m', s[i])
    requires Link(m', s[|s| - 1], s[1])
    ensures Ring(m', s[1..])
  {
    var r := s[1..];
    forall i: nat | i + 1 < |r| ensures LinkAt(m', r, i) {
      assert r[i] == s[i + 1] && r[i + 1] == s[i + 2] && LinkAt(m, s, i + 1);
    }
  }

  /** A new second node: it and its two neighbours were written. */
  lemma Hooked(m: Mem, m': Mem, s: seq<Addr>, x: Addr)
    requires Ring(m, s) && s != [] && x !in s
    requires Link(m', s[0], x) && Link(m', x, if |s| > 1 then s[1] else s[0])
    requires forall i {:trigger s[i]} :: 1 <= i < |s| ==> SameNext(m, m', s[i])
    requires forall i {:trigger s[i]} :: 2 <= i < |s| ==> SamePre(m, m', s[i])
    requires |s| > 1 ==> SamePre(m, m', s[0])
    ensures Ring(m', [s[0], x] + s[1..])
  {
    var r := [s[0], x] + s[1..];
    assert forall i :: 2 <= i < |r| ==> r[i] == s[i - 1];
    forall i: nat | i + 1 < |r| ensures LinkAt(m', r, i) {
      if i >= 2 { assert LinkAt(m, s, i - 1); }
    }
  }
}
