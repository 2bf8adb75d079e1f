/**
 The table of held requests in `agent-client-manager.c`: a slot per request id
 modulo the table length, found again when the response arrives.
 */
module RequestMap {
  import opened Arith
  import opened Octets

  /** `struct acm_request_map_entry`; a zero id marks a free entry. */
  datatype Entry<L> = Entry(reqId: nat, listening: Option<L>)

  ghost predicate Clash<L>(held: map<nat, L>, id: nat, n: nat)
    requires n > 0
  {
    exists other :: other in held && other % n == id % n
  }

  /** The newest id lies less than a table length above every outstanding one. */
  ghost predicate Window<L>(held: map<nat, L>, newest: nat, n: nat) {
    forall id :: id in held ==> id <= newest < id + n
  }

  lemma WindowNoClash<L>(held: map<nat, L>, next: nat, n: nat)
    requires n > 0 && Window(held, next, n) && next !in held
    ensures !Clash(held, next, n)
  {
    forall id | id in held ensures id % n != next % n {
      ModDistinct(id, next, n);
    }
  }

  class Handle<L(0)> {
    const entries: array<Entry<L>>
    var requestId: nat
    ghost var held: map<nat, L>

    ghost predicate Valid()
      reads this, entries
    {
      && entries.Length > 0
      && (forall id :: id in held ==>
            0 < id <= requestId && entries[id % entries.Length] == Entry(id, Some(held[id])))
      && (forall i :: 0 <= i < entries.Length && entries[i].reqId != 0 ==>
            entries[i].reqId in held && entries[i].reqId % entries.Length == i)
    }

    /** The table starts out zeroed. */
    constructor (n: nat)
      requires n > 0
      ensures Valid() && held == map[] && requestId == 0 && entries.Length == n && fresh(entries)
    {
      entries := new Entry<L>[n](_ => Entry(0, None));
      requestId, held := 0, map[];
    }

    /** `acm_hold_request` */
    method Hold(id: nat, listening: L) returns (ret: int)
      requires Valid() && 0 < id <= requestId && id !in held
      modifies this`held, entries
      ensures Valid() && (ret == 1 || ret == -2)
      ensures ret == 1 <==> !Clash(old(held), id, entries.Length)
      ensures held == if ret == 1 then old(held)[id := listening] else old(held)
    {
      var i := id % entries.Length;
      if entries[i].reqId != 0 {
        assert entries[i].reqId in held;
        return -2;
      }
      entries[i] := Entry(id, Some(listening));
      held := held[id := listening];
      return 1;
    }

    /** The part of `acm_request` that concerns the table: a fresh id, held or not. */
    method Request(listening: L) returns (id: nat, ret: int)
      requires Valid()
      modifies this, entries
      ensures Valid() && id == old(requestId) + 1 == requestId
      ensures ret == 1 <==> !Clash(old(held), id, entries.Length)
      ensures held == if ret == 1 then old(held)[id := listening] else old(held)
    {
      requestId := requestId + 1;
      id := requestId;
      ret := Hold(id, listening);
    }

    /** Is the request of that id held?  The reader thread does not ask. */
    method IsHeld(id: nat) returns (r: bool)
      requires Valid()
      ensures r <==> id in held
    {
      var e := entries[id % entries.Length];
      r := id != 0 && e.reqId == id;
    }

    /** What the reader thread does with a response: the entry's listener is called
        without comparing ids, and the entry freed.  `None` is a call through NULL. */
    method Respond(id: nat) returns (called: Option<L>)
      requires Valid()
      modifies this`held, entries
      ensures Valid()
      ensures id in old(held) ==> called == Some(old(held)[id]) && held == old(held) - {id}
      ensures id !in old(held) && Clash(old(held), id, entries.Length) ==>
        exists other :: other in old(held) && other % entries.Length == id % entries.Length
          && called == Some(old(held)[other]) && held == old(held) - {other}
      ensures !Clash(old(held), id, entries.Length) ==> held == old(held)
    {
      var i := id % entries.Length;
      ghost var other := entries[i].reqId;
      called := entries[i].listening;
      entries[i] := Entry(0, None);
      held := held - {other};
    }
  }

  // ----- whole runs -----

  datatype Event<L> = Ask(l: L) | Answer(id: nat)

  /** The outstanding requests, the newest id, and who has been called. */
  datatype Served<L> = Served(held: map<nat, L>, last: nat, heard: seq<L>)

  /** A request is held, or an answer reaches the listener given with the request of its id. */
  ghost function Next<L>(s: Served<L>, n: nat, e: Event<L>): Option<Served<L>>
    requires n > 0
  {
    match e
    case Ask(l) =>
      if Clash(s.held, s.last + 1, n) then None else Some(Served(s.held[s.last + 1 := l], s.last + 1, s.heard))
    case Answer(id) =>
      if id in s.held then Some(Served(s.held - {id}, s.last, s.heard + [s.held[id]])) else None
  }

  /** A run on a table of length `n`, unless a request clashes or an answer has none. */
  ghost function Replay<L>(n: nat, run: seq<Event<L>>): Option<Served<L>>
    requires n > 0
  {
    if run == [] then Some(Served(map[], 0, []))
    else
      var s := Replay(n, run[..|run| - 1]);
      if s.None? then None else Next(s.value, n, run[|run| - 1])
  }

  lemma ReplayNext<L>(n: nat, run: seq<Event<L>>, i: nat)
    requires n > 0 && i < |run|
    ensures var s := Replay(n, run[..i]);
      Replay(n, run[..i + 1]) == if s.None? then None else Next(s.value, n, run[i])
  {
    assert run[..i + 1][..i] == run[..i];
  }

  lemma {:induction false} ReplayStops<L>(n: nat, run: seq<Event<L>>, i: nat)
    requires n > 0 && i <= |run| && Replay(n, run[..i]).None?
    ensures Replay(n, run).None?
    decreases |run| - i
  {
    if i < |run| {
      ReplayNext(n, run, i);
      ReplayStops(n, run, i + 1);
    } else {
      assert run[..i] == run;
    }
  }

  /** The table serves a run as far as it goes: `k` events, each request held and each
      answer to its own listener, once.  It stops at the first request that clashes or
      answer that has no request, and only there. */
  method Serve<L(0)>(n: nat, run: seq<Event<L>>) returns (heard: seq<L>, k: nat)
    requires n > 0
    ensures k <= |run| && Replay(n, run[..k]).Some? && heard == Replay(n, run[..k]).value.heard
    ensures k < |run| ==> Replay(n, run[..k + 1]).None?
    ensures k == |run| <==> Replay(n, run).Some?
  {
    var h := new Handle<L>(n);
    heard, k := [], 0;
    while k < |run|
      invariant h.Valid() && fresh(h) && fresh(h.entries) && h.entries.Length == n && k <= |run|
      invariant Replay(n, run[..k]) == Some(Served(h.held, h.requestId, heard))
    {
      ReplayNext(n, run, k);
      match run[k] {
        case Ask(l) =>
          var _, ret := h.Request(l);
          if ret != 1 {
            ReplayStops(n, run, k + 1);
            return;
          }
        case Answer(id) =>
          var mine := h.IsHeld(id);
          if !mine {
            ReplayStops(n, run, k + 1);
            return;
          }
          var called := h.Respond(id);
          heard := heard + [called.value];
      }
      k := k + 1;
    }
    assert run[..|run|] == run;
  }

  /** When the run is served to its end: no request meets a clash, and every answer is to
      an outstanding request. */
  ghost predicate Smooth<L>(n: nat, run: seq<Event<L>>)
    requires n > 0
  {
    forall i: nat :: i < |run| ==> Passes(n, run, i)
  }

  ghost predicate Passes<L>(n: nat, run: seq<Event<L>>, i: nat)
    requires n > 0 && i < |run|
  {
    var s := Replay(n, run[..i]);
    s.Some? ==>
      match run[i]
      case Ask(_) => !Clash(s.value.held, s.value.last + 1, n)
      case Answer(id) => id in s.value.held
  }

  lemma {:induction false} ServedExactly<L>(n: nat, run: seq<Event<L>>)
    requires n > 0
    ensures Replay(n, run).Some? <==> Smooth(n, run)
  {
    if run != [] {
      var k := |run| - 1;
      ServedExactly(n, run[..k]);
      forall i: nat | i < k ensures Passes(n, run, i) <==> Passes(n, run[..k], i) {
        assert run[..k][..i] == run[..i];
      }
      assert run[..k + 1] == run;
      ReplayNext(n, run, k);
      if Smooth(n, run) {
        assert Passes(n, run, k);
        assert Smooth(n, run[..k]) by {
          forall i: nat | i < k ensures Passes(n, run[..k], i) { assert Passes(n, run, i); }
        }
      }
      if Replay(n, run).Some? {
        forall i: nat | i < |run| ensures Passes(n, run, i) {
          if i < k { assert Passes(n, run[..k], i); }
        }
      }
    }
  }

  /** Every answer is for an outstanding request, and every new id falls into the window. */
  ghost predicate Orderly<L>(n: nat, run: seq<Event<L>>)
    requires n > 0
  {
    run == [] ||
    (var k := |run| - 1;
     var s := Replay(n, run[..k]);
     Orderly(n, run[..k]) && s.Some? &&
     match run[k]
     case Ask(_) => Window(s.value.held, s.value.last + 1, n)
     case Answer(id) => id in s.value.held)
  }

  /** In an orderly run every hold succeeds and every answer reaches its own listener. */
  lemma {:induction false} OrderlyServed<L>(n: nat, run: seq<Event<L>>)
    requires n > 0 && Orderly(n, run)
    ensures Replay(n, run).Some? && forall id :: id in Replay(n, run).value.held ==> id <= Replay(n, run).value.last
  {
    if run != [] {
      var k := |run| - 1;
      OrderlyServed(n, run[..k]);
      var s := Replay(n, run[..k]).value;
      if run[k].Ask? { WindowNoClash(s.held, s.last + 1, n); }
    }
  }

  // ----- the header's claim -----

  /** The comment in `agent-client-manager.h` promises no collision while the requests do
      not outnumber the table.  With a table of two, after two requests and the answer to
      the second, only one request is outstanding, and the next one collides. */
  lemma CountIsNotEnough<L>(l: L)
    ensures var run := [Ask(l), Ask(l), Answer(2)];
      && Replay(2, run).Some? && Replay(2, run).value.held == map[1 := l] && |Replay(2, run).value.held| < 2
      && Replay(2, run + [Ask(l)]).None?
  {
    var run := [Ask(l), Ask(l), Answer(2)];
    assert run[..0] == [] && run[..3] == run;
    ReplayNext(2, run, 0);
    assert Replay(2, run[..1]) == Some(Served(map[1 := l], 1, []));
    ReplayNext(2, run, 1);
    assert 1 % 2 != 2 % 2;
    assert Replay(2, run[..2]) == Some(Served(map[1 := l, 2 := l], 2, []));
    ReplayNext(2, run, 2);
    var s := Served(map[1 := l], 2, [l]);
    var two: map<nat, L> := map[1 := l, 2 := l];
    assert two - {2} == map[1 := l] && two[2] == l && [] + [l] == [l];
    assert Next(Served(two, 2, []), 2, Answer(2)) == Some(s);
    assert Replay(2, run) == Some(s);
    var more := run + [Ask(l)];
    assert more[..3] == run && more[..4] == more;
    ReplayNext(2, more, 3);
    assert 1 in s.held && 1 % 2 == 3 % 2;
  }
}
