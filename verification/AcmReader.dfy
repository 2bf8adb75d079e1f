/**
 `acm_io_read_thread`: the consumer's resumable reader of response frames.  What each
 `recv` hands over is up to the system: at most as much as is wanted and as is there, or
 nothing and EAGAIN.  A function from the number of the call says how much it offers.
 */
module AcmReader {
  import opened Octets
  import opened Frames
  import opened FrameCodecs
  import opened ProviderDecoder

  type Offers = nat -> int

  /** What a `recv` returns; a negative offer is EAGAIN or an error. */
  function Given(offer: int, want: nat, there: nat): (size: int)
    ensures -1 <= size <= want && size <= there
  {
    if offer < 0 then -1
    else if offer <= want && offer <= there then offer
    else if want <= there then want else there
  }

  /** A non-blocking `recv` of at most `want` bytes. */
  method Recv(waiting: seq<byte>, want: nat, offer: int) returns (size: int, got: seq<byte>, rest: seq<byte>)
    ensures size == Given(offer, want, |waiting|)
    ensures size == -1 ==> got == [] && rest == waiting
    ensures size >= 0 ==> got == waiting[..size] && rest == waiting[size..]
  {
    size := Given(offer, want, |waiting|);
    if size == -1 {
      got, rest := [], waiting;
    } else {
      got, rest := waiting[..size], waiting[size..];
    }
  }

  // ----- what is heard -----

  /** Part of a frame, or a whole one without data. */
  ghost predicate Partial(p: seq<byte>) {
    |p| < HEAD_SIZE || |p| <= HEAD_SIZE + HeadLen(p)
  }

  /** How much is missing of the header, or of the data. */
  ghost function Want(p: seq<byte>): nat
    requires Partial(p)
  {
    if |p| < HEAD_SIZE then HEAD_SIZE - |p| else HEAD_SIZE + HeadLen(p) - |p|
  }

  datatype Heard = Heard(out: seq<Msg>, pending: seq<byte>, rest: seq<byte>, calls: nat)

  function Prepend(ms: seq<Msg>, h: Heard): Heard { h.(out := ms + h.out) }

  /** What a reader that holds `p` back makes of the waiting bytes, from the `k`-th `recv`
      on: it goes on until one returns less than it wants. */
  ghost function Hear(p: seq<byte>, waiting: seq<byte>, offers: Offers, k: nat): Heard
    requires Partial(p)
    decreases |waiting|, if |p| < HEAD_SIZE then 0 else 1
  {
    var size := Given(offers(k), Want(p), |waiting|);
    if size < 0 then Heard([], p, waiting, k + 1)
    else
      var q, rest := p + waiting[..size], waiting[size..];
      if size < Want(p) then Heard([], q, rest, k + 1)
      else if |p| < HEAD_SIZE then Hear(q, rest, offers, k + 1)
      else Prepend([Msg(HeadId(q), q[HEAD_SIZE..])], Hear([], rest, offers, k + 1))
  }

  /** One `recv` of what is missing: all of it, and what is held and waiting afterwards. */
  ghost predicate Full(p: seq<byte>, waiting: seq<byte>, offer: int)
    requires Partial(p)
  {
    Given(offer, Want(p), |waiting|) == Want(p)
  }

  ghost predicate Took(p: seq<byte>, waiting: seq<byte>, offer: int, q: seq<byte>, rest: seq<byte>)
    requires Partial(p)
  {
    var size := Given(offer, Want(p), |waiting|);
    var n := if size < 0 then 0 else size;
    q == p + waiting[..n] && rest == waiting[n..]
  }

  lemma HearShort(p: seq<byte>, waiting: seq<byte>, offers: Offers, k: nat, q: seq<byte>, rest: seq<byte>)
    requires Partial(p) && Took(p, waiting, offers(k), q, rest) && !Full(p, waiting, offers(k))
    ensures Hear(p, waiting, offers, k) == Heard([], q, rest, k + 1)
  {
    assert p + waiting[..0] == p;
  }

  lemma HearHead(p: seq<byte>, waiting: seq<byte>, offers: Offers, k: nat, q: seq<byte>, rest: seq<byte>)
    requires Partial(p) && |p| < HEAD_SIZE && Took(p, waiting, offers(k), q, rest) && Full(p, waiting, offers(k))
    ensures |q| == HEAD_SIZE && Partial(q) && |rest| < |waiting|
    ensures Hear(p, waiting, offers, k) == Hear(q, rest, offers, k + 1)
  {
  }

  lemma HearBody(p: seq<byte>, waiting: seq<byte>, offers: Offers, k: nat, q: seq<byte>, rest: seq<byte>)
    requires Partial(p) && |p| >= HEAD_SIZE && Took(p, waiting, offers(k), q, rest) && Full(p, waiting, offers(k))
    ensures |q| >= HEAD_SIZE && Hear(p, waiting, offers, k) == Prepend([Msg(HeadId(q), q[HEAD_SIZE..])], Hear([], rest, offers, k + 1))
  {
  }

  /** A header cut from the front of a stream of frames is that of its first message. */
  lemma FirstHeader(ms: seq<Msg>, h: seq<byte>, t: seq<byte>)
    requires AllSendable(ms) && |h| == HEAD_SIZE && h + t <= Stream(ms)
    ensures ms != [] && HeadId(h) == ms[0].id && HeadLen(h) == |ms[0].data|
  {
    var s, f := Stream(ms), Frame(ms[0]);
    FrameHead(ms[0], Stream(ms[1..]));
    assert h == s[..HEAD_SIZE];
    assert s[..8] == h[..8] && s[8..12] == h[8..12];
  }

  /** With all its data read, the first frame is exactly the first message. */
  lemma FirstFrame(ms: seq<Msg>, h: seq<byte>, d: seq<byte>, r: seq<byte>)
    requires AllSendable(ms) && |h| == HEAD_SIZE && h + d + r <= Stream(ms)
    requires ms != [] && |d| == |ms[0].data|
    ensures d == ms[0].data && r <= Stream(ms[1..]) && h + d == Frame(ms[0])
  {
    var s, f, t := Stream(ms), Frame(ms[0]), Stream(ms[1..]);
    assert h + d == s[..|f|] == f;
    assert f[HEAD_SIZE..] == ms[0].data;
    assert s[|f|..] == t && (h + d + r)[|f|..] == r;
  }

  /** A whole frame at the front is that of the first message. */
  lemma WholeFrame(ms: seq<Msg>, q: seq<byte>, r: seq<byte>)
    requires AllSendable(ms) && |q| >= HEAD_SIZE && |q| == HEAD_SIZE + HeadLen(q) && q + r <= Stream(ms)
    ensures ms != [] && Msg(HeadId(q), q[HEAD_SIZE..]) == ms[0] && q == Frame(ms[0]) && r <= Stream(ms[1..])
  {
    var h, d := q[..HEAD_SIZE], q[HEAD_SIZE..];
    assert q == h + d;
    HeadOf(h, d);
    Assoc(h, d, r);
    FirstHeader(ms, h, d + r);
    FirstFrame(ms, h, d, r);
  }

  lemma BodyFrame(ms: seq<Msg>, p: seq<byte>, got: seq<byte>, rest: seq<byte>, waiting: seq<byte>)
    requires AllSendable(ms) && p + waiting <= Stream(ms) && got + rest == waiting
    requires |p + got| >= HEAD_SIZE && |p + got| == HEAD_SIZE + HeadLen(p + got)
    ensures ms != [] && Msg(HeadId(p + got), (p + got)[HEAD_SIZE..]) == ms[0] && rest <= Stream(ms[1..])
  {
    Assoc(p, got, rest);
    WholeFrame(ms, p + got, rest);
  }

  lemma Cancel<T>(a: seq<T>, r: seq<T>, b: seq<T>)
    ensures a + r <= a + b ==> r <= b
    ensures a + r == a + b ==> r == b
  {
    assert r == (a + r)[|a|..] && b == (a + b)[|a|..];
  }

  /** Of the bytes `all`, those of the first `n` messages are done and `left` remain. */
  ghost predicate Progress(ms: seq<Msg>, n: nat, left: seq<byte>, all: seq<byte>)
    requires AllSendable(ms)
  {
    n <= |ms| && all == Stream(ms[..n]) + left
  }

  lemma ProgressArrival(ms: seq<Msg>, n: nat, left: seq<byte>, all: seq<byte>, more: seq<byte>)
    requires AllSendable(ms) && Progress(ms, n, left, all) && all + more <= Stream(ms)
    ensures Progress(ms, n, left + more, all + more) && left + more <= Stream(ms[n..])
    ensures all + more == Stream(ms) ==> left + more == Stream(ms[n..])
  {
    assert ms == ms[..n] + ms[n..];
    StreamCat(ms[..n], ms[n..]);
    Assoc(Stream(ms[..n]), left, more);
    Cancel(Stream(ms[..n]), left + more, Stream(ms[n..]));
  }

  lemma ProgressRead(ms: seq<Msg>, n: nat, left: seq<byte>, all: seq<byte>, k: nat, left': seq<byte>)
    requires AllSendable(ms) && Progress(ms, n, left, all) && n + k <= |ms|
    requires left == Stream(ms[n..][..k]) + left'
    ensures Progress(ms, n + k, left', all)
    ensures ms[..n] + ms[n..][..k] == ms[..n + k]
  {
    assert ms[..n] + ms[n..][..k] == ms[..n + k];
    StreamCat(ms[..n], ms[n..][..k]);
    Assoc(Stream(ms[..n]), Stream(ms[n..][..k]), left');
  }

  /** Part of a frame, or an empty one whose data phase has not run yet. */
  ghost predicate HeldBack(p: seq<byte>) {
    |p| < HEAD_SIZE || |p| - HEAD_SIZE < HeadLen(p) || (|p| == HEAD_SIZE && HeadLen(p) == 0)
  }

  class Reader {
    var isHead: bool
    const head: array<byte>
    var headReadIndex: nat
    var reqId: int
    var dataSize: nat
    var data: seq<byte>

    ghost function Pending(): seq<byte>
      reads this, head
      requires head.Length == HEAD_SIZE && headReadIndex <= HEAD_SIZE
    {
      if isHead then head[..headReadIndex] else head[..] + data
    }

    ghost predicate Valid()
      reads this, head
    {
      && head.Length == HEAD_SIZE && headReadIndex <= HEAD_SIZE
      && (isHead ==> headReadIndex < HEAD_SIZE)
      && (!isHead ==> reqId == HeadId(head[..]) && dataSize == HeadLen(head[..]) && |data| <= dataSize)
      && (!isHead && |data| == dataSize ==> dataSize == 0)
    }

    constructor ()
      ensures Valid() && fresh(head) && Pending() == []
    {
      isHead, headReadIndex := true, 0;
      head := new byte[HEAD_SIZE];
      reqId, dataSize, data := 0, 0, [];
    }

    lemma Unfinished()
      requires Valid()
      ensures HeldBack(Pending()) && Partial(Pending())
    {
      if !isHead { HeadOf(head[..], data); }
    }

    /** Receiving (part of) a header; `go` says that it is complete. */
    method ReadHead(waiting: seq<byte>, offer: int, ghost ms: seq<Msg>) returns (rest: seq<byte>, go: bool)
      requires Valid() && isHead && AllSendable(ms) && Pending() + waiting <= Stream(ms)
      modifies this, head
      ensures Valid() && isHead == !go && Pending() + rest == old(Pending()) + waiting
      ensures Partial(old(Pending())) && (go <==> Full(old(Pending()), waiting, offer))
      ensures Took(old(Pending()), waiting, offer, Pending(), rest)
    {
      var size, got;
      assert Pending() + [] == Pending();
      size, got, rest := Recv(waiting, HEAD_SIZE - headReadIndex, offer);
      if size < 0 {
        return rest, false;
      }
      Assoc(Pending(), got, rest);
      assert got + rest == waiting;
      StoreHead(got);
      if headReadIndex < HEAD_SIZE {
        return rest, false;
      }
      assert head[..] == Pending();
      assert head[..][0..8] == head[..][..8];
      FirstHeader(ms, head[..], rest);
      dataSize := AcmBytes2Int(head[..], 8);
      reqId := Signed64(AcmBytes2Long(head[..], 0));
      isHead := false;
      data := [];
      assert head[..] + data == head[..];
      return rest, true;
    }

    /** `recv` puts the bytes behind those of the header that are there. */
    method StoreHead(got: seq<byte>)
      requires head.Length == HEAD_SIZE && isHead && headReadIndex + |got| <= HEAD_SIZE
      modifies this`headReadIndex, head
      ensures headReadIndex == old(headReadIndex) + |got| && Pending() == old(Pending()) + got
    {
      forall i | 0 <= i < |got| {
        head[headReadIndex + i] := got[i];
      }
      headReadIndex := headReadIndex + |got|;
    }

    /** Receiving (part of) the data; a completed message is handed to its listener. */
    method ReadBody(waiting: seq<byte>, offer: int, ghost ms: seq<Msg>) returns (rest: seq<byte>, out: seq<Msg>, ghost q: seq<byte>)
      requires Valid() && !isHead && AllSendable(ms) && Pending() + waiting <= Stream(ms)
      modifies this
      ensures Valid() && |rest| <= |waiting| && Partial(old(Pending())) && Took(old(Pending()), waiting, offer, q, rest)
      ensures !Full(old(Pending()), waiting, offer) ==> out == [] && Pending() == q
      ensures Full(old(Pending()), waiting, offer) ==> |q| >= HEAD_SIZE && out == [Msg(HeadId(q), q[HEAD_SIZE..])] && isHead && Pending() == []
      ensures out != [] ==> ms != [] && out == [ms[0]] && rest <= Stream(ms[1..])
    {
      var size, got;
      HeadOf(head[..], data);
      q := Pending();
      assert q + [] == q;
      size, got, rest := Recv(waiting, dataSize - |data|, offer);
      out := [];
      if size < 0 {
        return;
      }
      Assoc(head[..], data, got);
      q := q + got;
      data := data + got;
      HeadOf(head[..], data);
      if |data| < dataSize {
        return;
      }
      BodyFrame(ms, old(Pending()), got, rest, waiting);
      assert q[HEAD_SIZE..] == data;
      out := [Msg(reqId, data)];
      isHead := true;
      headReadIndex := 0;
    }

    /** `acm_io_read_thread`, on the bytes waiting in the socket.  `ms` is what the
        peer has still to deliver. */
    method ReadThread(waiting: seq<byte>, offers: Offers, k: nat, ghost ms: seq<Msg>) returns (rest: seq<byte>, out: seq<Msg>, k': nat)
      requires Valid() && AllSendable(ms) && Pending() + waiting <= Stream(ms)
      modifies this, head
      ensures Valid() && Partial(old(Pending())) && Heard(out, Pending(), rest, k') == Hear(old(Pending()), waiting, offers, k)
    {
      Unfinished();
      rest, out, k' := waiting, [], k;
      ghost var h, left := Hear(Pending(), waiting, offers, k), ms;
      assert Prepend([], h) == h;
      while true
        invariant Valid() && AllSendable(left) && Pending() + rest <= Stream(left)
        invariant Partial(Pending()) && h == Prepend(out, Hear(Pending(), rest, offers, k'))
        decreases |rest|, if isHead then 0 else 1
      {
        var more;
        rest, more, k' := ReadMessage(rest, offers, k', left, Hear(Pending(), rest, offers, k'));
        if more == [] {
          assert out + [] == out;
          return;
        }
        assert Pending() + rest == rest;
        Assoc(out, more, Hear([], rest, offers, k').out);
        out, left := out + more, left[1..];
      }
    }

    /** What one round of the loop comes to: a message, or the end. */
    ghost predicate Round(h: Heard, offers: Offers, ms: seq<Msg>, rest: seq<byte>, out: seq<Msg>, k: nat)
      reads this, head
    {
      && Valid()
      && (out == [] ==> h == Heard([], Pending(), rest, k))
      && (out != [] ==> ms != [] && out == [ms[0]] && AllSendable(ms) && rest <= Stream(ms[1..]) && isHead && Pending() == [])
      && (out != [] ==> h == Prepend(out, Hear([], rest, offers, k)))
    }

    /** One round of its loop: the header, unless it is there already, and the data. */
    method ReadMessage(waiting: seq<byte>, offers: Offers, k: nat, ghost ms: seq<Msg>, ghost h: Heard)
      returns (rest: seq<byte>, out: seq<Msg>, k': nat)
      requires Valid() && AllSendable(ms) && Pending() + waiting <= Stream(ms)
      requires Partial(Pending()) && h == Hear(Pending(), waiting, offers, k)
      modifies this, head
      ensures Round(h, offers, ms, rest, out, k')
      ensures out != [] ==> |rest| <= |waiting| && (old(isHead) ==> |rest| < |waiting|)
    {
      if isHead {
        rest, out, k' := ReadFrame(waiting, offers, k, ms, h);
      } else {
        rest, out := ReadData(waiting, offers, k, ms, h);
        k' := k + 1;
      }
    }

    method ReadFrame(waiting: seq<byte>, offers: Offers, k: nat, ghost ms: seq<Msg>, ghost h: Heard)
      returns (rest: seq<byte>, out: seq<Msg>, k': nat)
      requires Valid() && isHead && AllSendable(ms) && Pending() + waiting <= Stream(ms)
      requires Partial(Pending()) && h == Hear(Pending(), waiting, offers, k)
      modifies this, head
      ensures Round(h, offers, ms, rest, out, k')
      ensures out != [] ==> |rest| < |waiting|
    {
      var go;
      rest, go := ReadHeader(waiting, offers, k, ms, h);
      if go {
        rest, out := ReadData(rest, offers, k + 1, ms, h);
        k' := k + 2;
      } else {
        out, k' := [], k + 1;
      }
    }

    method ReadHeader(waiting: seq<byte>, offers: Offers, k: nat, ghost ms: seq<Msg>, ghost h: Heard) returns (rest: seq<byte>, go: bool)
      requires Valid() && isHead && AllSendable(ms) && Pending() + waiting <= Stream(ms)
      requires Partial(Pending()) && h == Hear(Pending(), waiting, offers, k)
      modifies this, head
      ensures Valid() && isHead == !go && Pending() + rest == old(Pending()) + waiting
      ensures !go ==> h == Heard([], Pending(), rest, k + 1)
      ensures go ==> |rest| < |waiting| && Partial(Pending()) && h == Hear(Pending(), rest, offers, k + 1)
    {
      ghost var p := Pending();
      rest, go := ReadHead(waiting, offers(k), ms);
      if go {
        HearHead(p, waiting, offers, k, Pending(), rest);
      } else {
        HearShort(p, waiting, offers, k, Pending(), rest);
      }
    }

    method ReadData(waiting: seq<byte>, offers: Offers, k: nat, ghost ms: seq<Msg>, ghost h: Heard) returns (rest: seq<byte>, out: seq<Msg>)
      requires Valid() && !isHead && AllSendable(ms) && Pending() + waiting <= Stream(ms)
      requires Partial(Pending()) && h == Hear(Pending(), waiting, offers, k)
      modifies this
      ensures |rest| <= |waiting| && Round(h, offers, ms, rest, out, k + 1)
    {
      ghost var p, q := Pending(), [];
      rest, out, q := ReadBody(waiting, offers(k), ms);
      if out == [] {
        HearShort(p, waiting, offers, k, q, rest);
      } else {
        HearBody(p, waiting, offers, k, q, rest);
      }
    }
  }

  /** Nothing left over but what `Valid` allows: every message is out, except that
      an empty last message may still wait for the next event. */
  lemma AllOut(ms: seq<Msg>, p: seq<byte>)
    requires AllSendable(ms) && p == Stream(ms)
    requires HeldBack(p)
    ensures ms == [] || (|ms| == 1 && ms[0].data == [])
  {
    if ms != [] {
      FrameHead(ms[0], Stream(ms[1..]));
      assert |p| == |Frame(ms[0])| + |Stream(ms[1..])|;
    }
  }

  lemma Finished(ms: seq<Msg>, n: nat, p: seq<byte>)
    requires AllSendable(ms) && Progress(ms, n, p + [], Stream(ms)) && HeldBack(p)
    ensures n == |ms| || (n + 1 == |ms| && ms[n].data == [])
  {
    assert p + [] == p && Stream(ms) + [] == Stream(ms);
    ProgressArrival(ms, n, p, Stream(ms), []);
    AllOut(ms[n..], p);
  }

  // ----- what is heard of a stream -----

  /** Every byte is in a message that was heard, held back, or still waits. */
  ghost predicate Kept(ms: seq<Msg>, s: seq<byte>, h: Heard)
    requires AllSendable(ms)
  {
    h.out <= ms && HeldBack(h.pending) && h.pending + h.rest <= Stream(ms[|h.out|..])
    && s == Stream(ms[..|h.out|]) + (h.pending + h.rest)
  }

  lemma KeptMore(ms: seq<Msg>, s: seq<byte>, q: seq<byte>, rest: seq<byte>, h: Heard)
    requires AllSendable(ms) && ms != [] && q == Frame(ms[0]) && s == q + rest && Kept(ms[1..], rest, h)
    ensures Kept(ms, s, Prepend([ms[0]], h))
  {
    var n := |h.out|;
    assert ms[1..][n..] == ms[n + 1..] && ms[..n + 1] == [ms[0]] + ms[1..][..n];
    StreamOne(ms[0]);
    StreamCat([ms[0]], ms[1..][..n]);
    Assoc(q, Stream(ms[1..][..n]), h.pending + h.rest);
  }

  lemma {:induction false} HearKeeps(ms: seq<Msg>, p: seq<byte>, waiting: seq<byte>, offers: Offers, k: nat)
    requires AllSendable(ms) && HeldBack(p) && Partial(p) && p + waiting <= Stream(ms)
    ensures Kept(ms, p + waiting, Hear(p, waiting, offers, k))
    decreases |waiting|, if |p| < HEAD_SIZE then 0 else 1
  {
    var size := Given(offers(k), Want(p), |waiting|);
    assert ms[0..] == ms && Stream(ms[..0]) == [];
    if size >= 0 {
      var got, rest := waiting[..size], waiting[size..];
      assert got + rest == waiting;
      Assoc(p, got, rest);
      if size == Want(p) {
        if |p| < HEAD_SIZE {
          HearKeeps(ms, p + got, rest, offers, k + 1);
        } else {
          GotWhole(p, got);
          WholeFrame(ms, p + got, rest);
          HearKeeps(ms[1..], [], rest, offers, k + 1);
          KeptMore(ms, p + waiting, p + got, rest, Hear([], rest, offers, k + 1));
        }
      } else {
        ShortHeld(p, got);
      }
    }
  }

  lemma GotWhole(p: seq<byte>, got: seq<byte>)
    requires |p| >= HEAD_SIZE && Partial(p) && |got| == Want(p)
    ensures |p + got| == HEAD_SIZE + HeadLen(p + got)
  {
    assert p == p[..HEAD_SIZE] + p[HEAD_SIZE..];
    Assoc(p[..HEAD_SIZE], p[HEAD_SIZE..], got);
    HeadOf(p[..HEAD_SIZE], p[HEAD_SIZE..]);
    HeadOf(p[..HEAD_SIZE], p[HEAD_SIZE..] + got);
  }

  lemma ShortHeld(p: seq<byte>, got: seq<byte>)
    requires HeldBack(p) && Partial(p) && |got| < Want(p)
    ensures HeldBack(p + got) && Partial(p + got) && Want(p + got) == Want(p) - |got|
  {
    if |p| >= HEAD_SIZE {
      assert p == p[..HEAD_SIZE] + p[HEAD_SIZE..];
      Assoc(p[..HEAD_SIZE], p[HEAD_SIZE..], got);
      HeadOf(p[..HEAD_SIZE], p[HEAD_SIZE..]);
      HeadOf(p[..HEAD_SIZE], p[HEAD_SIZE..] + got);
    }
  }

  /** The thread stops only at a `recv` that fails or returns less than it wants; if that
      returns all that is there, nothing is left. */
  lemma {:induction false} HearStops(p: seq<byte>, waiting: seq<byte>, offers: Offers, k: nat)
    requires HeldBack(p) && Partial(p)
    ensures var h := Hear(p, waiting, offers, k);
      && k < h.calls && Partial(h.pending) && (forall i: nat :: k <= i < h.calls - 1 ==> offers(i) >= 0)
      && (offers(h.calls - 1) >= 0 ==> Want(h.pending) > 0)
      && (offers(h.calls - 1) >= |waiting| ==> h.rest == [])
    decreases |waiting|, if |p| < HEAD_SIZE then 0 else 1
  {
    var size := Given(offers(k), Want(p), |waiting|);
    if size >= 0 {
      var got, rest := waiting[..size], waiting[size..];
      if size == Want(p) {
        HearStops(if |p| < HEAD_SIZE then p + got else [], rest, offers, k + 1);
      } else {
        ShortHeld(p, got);
      }
    }
  }

  /** Every `recv` returns as much as is wanted and there. */
  ghost predicate Generous(offers: Offers, n: nat) {
    forall k: nat :: offers(k) >= n
  }

  /** Then nothing is left waiting and exactly the complete messages are heard. */
  lemma HearAll(ms: seq<Msg>, p: seq<byte>, waiting: seq<byte>, offers: Offers, k: nat)
    requires AllSendable(ms) && HeldBack(p) && Partial(p) && p + waiting <= Stream(ms) && Generous(offers, |waiting|)
    ensures var h := Hear(p, waiting, offers, k);
      h.rest == [] && !Ready(h.pending) && Decode(p + waiting) == (h.out, h.pending)
  {
    var h := Hear(p, waiting, offers, k);
    HearKeeps(ms, p, waiting, offers, k);
    HearStops(p, waiting, offers, k);
    assert ms[..|h.out|] == h.out && h.pending + h.rest == h.pending;
    DecodeStream(h.out, h.pending);
    assert h.out + [] == h.out;
  }

  // ----- one event after the other -----

  /** One readable event after `arrival` joined the bytes waiting in the socket. */
  method Event(r: Reader, waiting: seq<byte>, arrival: seq<byte>, offers: Offers, k: nat,
               ghost n: nat, ghost all: seq<byte>, ghost ms: seq<Msg>)
    returns (rest: seq<byte>, out: seq<Msg>, k': nat)
    requires r.Valid() && AllSendable(ms) && Progress(ms, n, r.Pending() + waiting, all)
    requires all + arrival <= Stream(ms)
    modifies r, r.head
    ensures r.Valid() && n + |out| <= |ms| && ms[..n] + out == ms[..n + |out|]
    ensures Progress(ms, n + |out|, r.Pending() + rest, all + arrival)
    ensures Generous(offers, |waiting + arrival|) ==> rest == [] && !Ready(r.Pending())
  {
    ghost var p := r.Pending();
    r.Unfinished();
    EventHeard(ms, n, p, waiting, arrival, all, offers, k);
    rest, out, k' := r.ReadThread(waiting + arrival, offers, k, ms[n..]);
  }

  lemma EventHeard(ms: seq<Msg>, n: nat, p: seq<byte>, waiting: seq<byte>, arrival: seq<byte>, all: seq<byte>, offers: Offers, k: nat)
    requires AllSendable(ms) && HeldBack(p) && Partial(p) && Progress(ms, n, p + waiting, all) && all + arrival <= Stream(ms)
    ensures p + (waiting + arrival) <= Stream(ms[n..])
    ensures var h := Hear(p, waiting + arrival, offers, k);
      && n + |h.out| <= |ms| && ms[..n] + h.out == ms[..n + |h.out|]
      && Progress(ms, n + |h.out|, h.pending + h.rest, all + arrival)
      && (Generous(offers, |waiting + arrival|) ==> h.rest == [] && !Ready(h.pending))
  {
    var w := waiting + arrival;
    Assoc(p, waiting, arrival);
    ProgressArrival(ms, n, p + waiting, all, arrival);
    HearKeeps(ms[n..], p, w, offers, k);
    if Generous(offers, |w|) { HearAll(ms[n..], p, w, offers, k); }
    KeptProgress(ms, n, p + w, all + arrival, Hear(p, w, offers, k));
  }

  lemma KeptProgress(ms: seq<Msg>, n: nat, s: seq<byte>, all: seq<byte>, h: Heard)
    requires AllSendable(ms) && Progress(ms, n, s, all) && Kept(ms[n..], s, h)
    ensures n + |h.out| <= |ms| && ms[..n] + h.out == ms[..n + |h.out|] && Progress(ms, n + |h.out|, h.pending + h.rest, all)
  {
    assert ms[n..][..|h.out|] == h.out;
    ProgressRead(ms, n, s, all, |h.out|, h.pending + h.rest);
  }

  /** Whatever arrives when, and however little each `recv` returns, the listeners
      hear the peer's messages in order and none twice, and no byte is lost: what is
      not heard is held back, a part of the next frame, or still waits.  Once nothing
      waits, all are out but possibly an empty last one; and if every `recv` returns as
      much as is wanted and there, all are out. */
  method ReadEvents(arrivals: seq<seq<byte>>, offers: Offers, ghost ms: seq<Msg>)
    returns (waiting: seq<byte>, out: seq<Msg>, ghost held: seq<byte>)
    requires AllSendable(ms) && Join(arrivals) == Stream(ms)
    ensures out <= ms && HeldBack(held) && Stream(ms) == Stream(out) + (held + waiting)
    ensures waiting == [] ==> out == ms || (|out| + 1 == |ms| && ms[|out|].data == [])
    ensures Generous(offers, |Stream(ms)|) ==> waiting == [] && out == ms
  {
    var r := new Reader();
    var k := 0;
    waiting, out := [], [];
    assert ms[..0] == [];
    for i := 0 to |arrivals|
      invariant r.Valid() && fresh(r) && fresh(r.head) && |out| <= |ms| && out == ms[..|out|]
      invariant Progress(ms, |out|, r.Pending() + waiting, Join(arrivals[..i]))
      invariant Generous(offers, |Stream(ms)|) ==> waiting == [] && !Ready(r.Pending())
    {
      JoinNext(arrivals, i);
      JoinPrefix(arrivals, i + 1);
      var more;
      waiting, more, k := Event(r, waiting, arrivals[i], offers, k, |out|, Join(arrivals[..i]), ms);
      out := out + more;
    }
    assert arrivals[..|arrivals|] == arrivals;
    held := r.Pending();
    r.Unfinished();
    if waiting == [] {
      Finished(ms, |out|, held);
      NotReady(ms, |out|, held);
    }
  }

  /** What is left of a whole stream and holds no message is nothing. */
  lemma NotReady(ms: seq<Msg>, n: nat, p: seq<byte>)
    requires AllSendable(ms) && Progress(ms, n, p + [], Stream(ms))
    ensures !Ready(p) ==> n == |ms|
  {
    assert p + [] == p && Stream(ms) + [] == Stream(ms);
    ProgressArrival(ms, n, p, Stream(ms), []);
    if n < |ms| { FrameHead(ms[n..][0], Stream(ms[n..][1..])); }
  }
}
