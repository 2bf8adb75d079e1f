/**
 The frames that the two agents exchange: an eight-byte request id, a four-byte
 data length, both big endian, and the data.  `Decode` is the reference reading
 of a byte stream; the resumable decoders are proved against it.
 */
module Frames {
  import opened Octets

  const HEAD_SIZE := 12
  const TWO31 := 0x8000_0000
  const TWO32 := 0x1_0000_0000
  const TWO63 := 0x8000_0000_0000_0000
  const TWO64 := 0x1_0000_0000_0000_0000

  /** A request or response; ids are signed 64-bit, data sizes non-negative ints. */
  datatype Msg = Msg(id: int, data: seq<byte>)

  predicate Sendable(m: Msg) {
    -TWO63 <= m.id < TWO63 && |m.data| < TWO31
  }

  // ----- big-endian numbers -----

  function Power(n: nat): (p: nat)
    ensures p > 0
  {
    if n == 0 then 1 else 256 * Power(n - 1)
  }

  function ToBE(n: nat, v: nat): (s: seq<byte>)
    ensures |s| == n
  {
    if n == 0 then [] else ToBE(n - 1, v / 256) + [v % 256]
  }

  function FromBE(s: seq<byte>): nat {
    if s == [] then 0 else FromBE(s[..|s| - 1]) * 256 + s[|s| - 1]
  }

  lemma {:induction false} BERoundTrip(n: nat, v: nat)
    requires v < Power(n)
    ensures FromBE(ToBE(n, v)) == v
  {
    if n > 0 {
      BERoundTrip(n - 1, v / 256);
      var s := ToBE(n, v);
      assert s[..|s| - 1] == ToBE(n - 1, v / 256);
    }
  }

  lemma {:induction false} FromBEBound(s: seq<byte>)
    ensures FromBE(s) < Power(|s|)
  {
    if s != [] { FromBEBound(s[..|s| - 1]); }
  }

  lemma {:induction false} BEInverse(s: seq<byte>)
    ensures ToBE(|s|, FromBE(s)) == s
  {
    if s != [] {
      BEInverse(s[..|s| - 1]);
      assert s == s[..|s| - 1] + [s[|s| - 1]];
    }
  }

  lemma Powers()
    ensures Power(4) == TWO32 && Power(8) == TWO64
  {
    assert Power(2) == 65536 && Power(3) == 16777216;
    assert Power(5) == 256 * Power(4) && Power(6) == 256 * Power(5) && Power(7) == 256 * Power(6);
  }

  /** The two's-complement reading of a 64-bit pattern, and back. */
  function Signed64(u: int): int {
    if u < TWO63 then u else u - TWO64
  }

  function Pattern64(i: int): int {
    if i < 0 then i + TWO64 else i
  }

  // ----- frames -----

  function Frame(m: Msg): seq<byte>
    requires Sendable(m)
  {
    ToBE(8, Pattern64(m.id)) + ToBE(4, |m.data|) + m.data
  }

  predicate AllSendable(ms: seq<Msg>) {
    forall i :: 0 <= i < |ms| ==> Sendable(ms[i])
  }

  function Stream(ms: seq<Msg>): seq<byte>
    requires AllSendable(ms)
  {
    if ms == [] then [] else Frame(ms[0]) + Stream(ms[1..])
  }

  lemma Assoc<T>(a: seq<T>, b: seq<T>, c: seq<T>)
    ensures (a + b) + c == a + (b + c)
  {
  }

  lemma {:induction false} StreamCat(a: seq<Msg>, b: seq<Msg>)
    requires AllSendable(a) && AllSendable(b)
    ensures AllSendable(a + b) && Stream(a + b) == Stream(a) + Stream(b)
  {
    if a == [] {
      assert a + b == b;
    } else {
      StreamCat(a[1..], b);
      assert (a + b)[1..] == a[1..] + b;
      Assoc(Frame(a[0]), Stream(a[1..]), Stream(b));
    }
  }

  lemma StreamOne(m: Msg)
    requires Sendable(m)
    ensures AllSendable([m]) && Stream([m]) == Frame(m)
  {
    assert [m][1..] == [];
    assert Stream([m]) == Frame(m) + [];
  }

  // ----- the reference decoder -----

  function HeadId(head: seq<byte>): int
    requires |head| >= HEAD_SIZE
  {
    Signed64(FromBE(head[..8]))
  }

  function HeadLen(head: seq<byte>): nat
    requires |head| >= HEAD_SIZE
  {
    FromBE(head[8..12])
  }

  /** A complete frame heads the stream. */
  predicate Ready(s: seq<byte>) {
    |s| >= HEAD_SIZE && HeadLen(s) < TWO31 && |s| >= HEAD_SIZE + HeadLen(s)
  }

  function Head(s: seq<byte>): Msg
    requires Ready(s)
  {
    Msg(HeadId(s), s[HEAD_SIZE..HEAD_SIZE + HeadLen(s)])
  }

  function Tail(s: seq<byte>): (r: seq<byte>)
    requires Ready(s)
    ensures |r| < |s|
  {
    s[HEAD_SIZE + HeadLen(s)..]
  }

  /** The messages at the front of the stream and the bytes after them. */
  function Decode(s: seq<byte>): (seq<Msg>, seq<byte>)
    decreases |s|
  {
    if Ready(s) then
      var (ms, rest) := Decode(Tail(s));
      ([Head(s)] + ms, rest)
    else ([], s)
  }

  lemma FrameHead(m: Msg, s: seq<byte>)
    requires Sendable(m)
    ensures Ready(Frame(m) + s) && Head(Frame(m) + s) == m && Tail(Frame(m) + s) == s
  {
    Powers();
    var f := Frame(m) + s;
    assert f[..8] == ToBE(8, Pattern64(m.id));
    assert f[8..12] == ToBE(4, |m.data|);
    BERoundTrip(8, Pattern64(m.id));
    BERoundTrip(4, |m.data|);
  }

  /** Decoding undoes encoding, whatever follows. */
  lemma {:induction false} DecodeStream(ms: seq<Msg>, s: seq<byte>)
    requires AllSendable(ms)
    ensures Decode(Stream(ms) + s) == (ms + Decode(s).0, Decode(s).1)
  {
    if ms == [] {
      assert Stream(ms) + s == s && ms + Decode(s).0 == Decode(s).0;
    } else {
      var t := Stream(ms[1..]) + s;
      Assoc(Frame(ms[0]), Stream(ms[1..]), s);
      FrameHead(ms[0], t);
      DecodeStream(ms[1..], s);
      Assoc([ms[0]], ms[1..], Decode(s).0);
      assert [ms[0]] + ms[1..] == ms;
    }
  }

  /** Decoding can stop after `a` and go on with the rest of it and `b`. */
  lemma {:induction false} DecodeResume(a: seq<byte>, b: seq<byte>)
    ensures var (ms, rest) := Decode(a);
      Decode(a + b) == (ms + Decode(rest + b).0, Decode(rest + b).1)
    decreases |a|
  {
    if Ready(a) {
      assert (a + b)[..8] == a[..8] && (a + b)[8..12] == a[8..12];
      assert Head(a + b) == Head(a);
      assert Tail(a + b) == Tail(a) + b;
      DecodeResume(Tail(a), b);
      var (ms, rest) := Decode(Tail(a));
      Assoc([Head(a)], ms, Decode(rest + b).0);
    } else {
      assert [] + Decode(a + b).0 == Decode(a + b).0;
    }
  }

  /** A strict prefix of a frame holds no message. */
  lemma PrefixNotReady(m: Msg, k: nat)
    requires Sendable(m) && k < |Frame(m)|
    ensures Decode(Frame(m)[..k]) == ([], Frame(m)[..k])
  {
    var s := Frame(m)[..k];
    if k >= HEAD_SIZE {
      Powers();
      assert s[8..12] == ToBE(4, |m.data|);
      BERoundTrip(4, |m.data|);
    }
  }
}
