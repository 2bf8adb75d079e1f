/**
 The number codecs of both agents: `Bytes.java` on the provider's side and the
 `acm_` conversions of `agent-client-manager.c` on the consumer's.  A bitwise or
 of bytes shifted to different places is written as their sum.
 */
module FrameCodecs {
  import opened Arith
  import opened Octets
  import opened Frames

  // ----- one byte of a number -----

  /** Byte `i` of `v`, counted from the low end: `(unsigned char)(v >> 8 * i)`. */
  function Octet(v: nat, i: nat): byte {
    v / Power(i) % 256
  }

  lemma ShiftAgain(v: nat, p: nat)
    requires p > 0
    ensures v / 256 / p == v / (256 * p)
  {
    var a, r := v / 256, v % 256;
    var q, s := a / p, a % p;
    assert a == p * q + s && v == 256 * a + r;
    assert v == 256 * (p * q) + 256 * s + r;
    assert 256 * (p * q) == (256 * p) * q;
    DivUnique(v, 256 * p, q, 256 * s + r);
  }

  lemma {:induction false} ToBEAt(n: nat, v: nat, i: nat)
    requires i < n
    ensures ToBE(n, v)[i] == Octet(v, n - 1 - i)
  {
    if i < n - 1 {
      ToBEAt(n - 1, v / 256, i);
      ShiftAgain(v, Power(n - 2 - i));
    } else {
      assert Power(0) == 1;
    }
  }

  lemma {:induction false} FromBECat(s: seq<byte>, t: seq<byte>)
    ensures FromBE(s + t) == FromBE(s) * Power(|t|) + FromBE(t)
    decreases |t|
  {
    if t == [] {
      assert s + t == s;
    } else {
      var t', x := t[..|t| - 1], t[|t| - 1];
      assert (s + t)[..|s + t| - 1] == s + t';
      FromBECat(s, t');
      Scale(FromBE(s), Power(|t'|), FromBE(t'), x);
    }
  }

  lemma Scale(a: nat, p: nat, b: nat, x: nat)
    ensures (a * p + b) * 256 + x == a * (256 * p) + (b * 256 + x)
  {
    calc {
      (a * p + b) * 256;
      (a * p) * 256 + b * 256;
      a * (256 * p) + b * 256;
    }
  }

  function Four(a: int, b: int, c: int, d: int): int {
    d + c * 0x100 + b * 0x1_0000 + a * 0x100_0000
  }

  lemma FourIn(s: seq<byte>)
    requires |s| == 4
    ensures FromBE(s) == Four(s[0], s[1], s[2], s[3])
  {
    assert s[..3][..2] == s[..2] && s[..2][..1] == s[..1] && s[..1][..0] == [];
    assert FromBE(s[..1]) == s[0];
    assert FromBE(s[..2]) == FromBE(s[..1]) * 256 + s[1];
    assert FromBE(s[..3]) == FromBE(s[..2]) * 256 + s[2];
  }

  lemma EightIn(s: seq<byte>)
    requires |s| == 8
    ensures FromBE(s) == Four(s[0], s[1], s[2], s[3]) * TWO32 + Four(s[4], s[5], s[6], s[7])
  {
    Powers();
    FromBECat(s[..4], s[4..]);
    assert s == s[..4] + s[4..];
    FourIn(s[..4]);
    FourIn(s[4..]);
  }

  // ----- agent-client-manager.c -----

  method AcmInt2Bytes(value: nat, buf: array<byte>, offset: nat)
    requires value < TWO32 && offset + 4 <= buf.Length
    modifies buf
    ensures buf[offset..offset + 4] == ToBE(4, value)
    ensures forall i :: 0 <= i < buf.Length && !(offset <= i < offset + 4) ==> buf[i] == old(buf[i])
  {
    buf[offset + 3] := Octet(value, 0);
    buf[offset + 2] := Octet(value, 1);
    buf[offset + 1] := Octet(value, 2);
    buf[offset] := Octet(value, 3);
    forall i: nat | i < 4 ensures buf[offset..offset + 4][i] == ToBE(4, value)[i] {
      ToBEAt(4, value, i);
    }
  }

  function AcmBytes2Int(buf: seq<byte>, offset: nat): (v: nat)
    requires offset + 4 <= |buf|
    ensures v == FromBE(buf[offset..offset + 4])
  {
    FourIn(buf[offset..offset + 4]);
    Four(buf[offset], buf[offset + 1], buf[offset + 2], buf[offset + 3])
  }

  method AcmLong2Bytes(value: nat, buf: array<byte>, offset: nat)
    requires value < TWO64 && offset + 8 <= buf.Length
    modifies buf
    ensures buf[offset..offset + 8] == ToBE(8, value)
    ensures forall i :: 0 <= i < buf.Length && !(offset <= i < offset + 8) ==> buf[i] == old(buf[i])
  {
    buf[offset + 7] := Octet(value, 0);
    buf[offset + 6] := Octet(value, 1);
    buf[offset + 5] := Octet(value, 2);
    buf[offset + 4] := Octet(value, 3);
    buf[offset + 3] := Octet(value, 4);
    buf[offset + 2] := Octet(value, 5);
    buf[offset + 1] := Octet(value, 6);
    buf[offset] := Octet(value, 7);
    forall i: nat | i < 8 ensures buf[offset..offset + 8][i] == ToBE(8, value)[i] {
      ToBEAt(8, value, i);
    }
  }

  function AcmBytes2Long(buf: seq<byte>, offset: nat): (v: nat)
    requires offset + 8 <= |buf|
    ensures v == FromBE(buf[offset..offset + 8])
  {
    var s := buf[offset..offset + 8];
    EightIn(s);
    Four(s[0], s[1], s[2], s[3]) * TWO32 + Four(s[4], s[5], s[6], s[7])
  }

  // ----- Bytes.java: the same bytes, read back with a sign -----

  function Signed32(u: int): int {
    if u < TWO31 then u else u - TWO32
  }

  function Pattern32(i: int): int {
    if i < 0 then i + TWO32 else i
  }

  method JavaInt2Bytes(v: int, b: array<byte>, off: nat)
    requires -TWO31 <= v < TWO31 && off + 4 <= b.Length
    modifies b
    ensures b[off..off + 4] == ToBE(4, Pattern32(v))
    ensures forall i :: 0 <= i < b.Length && !(off <= i < off + 4) ==> b[i] == old(b[i])
  {
    AcmInt2Bytes(Pattern32(v), b, off);
  }

  method JavaLong2Bytes(v: int, b: array<byte>, off: nat)
    requires -TWO63 <= v < TWO63 && off + 8 <= b.Length
    modifies b
    ensures b[off..off + 8] == ToBE(8, Pattern64(v))
    ensures forall i :: 0 <= i < b.Length && !(off <= i < off + 8) ==> b[i] == old(b[i])
  {
    AcmLong2Bytes(Pattern64(v), b, off);
  }

  /** The top byte is sign-extended, the others are masked. */
  function JavaBytes2Long(b: seq<byte>, off: nat): (v: int)
    requires off + 8 <= |b|
    ensures v == Signed64(FromBE(b[off..off + 8]))
  {
    var s := b[off..off + 8];
    EightIn(s);
    var top: int := if s[0] < 128 then s[0] as int else s[0] as int - 256;
    Four(top, s[1], s[2], s[3]) * TWO32 + Four(s[4], s[5], s[6], s[7])
  }

  function JavaBytes2Int(b: seq<byte>, off: nat): (v: int)
    requires off + 4 <= |b|
    ensures v == Signed32(FromBE(b[off..off + 4]))
  {
    FourIn(b[off..off + 4]);
    Signed32(Four(b[off], b[off + 1], b[off + 2], b[off + 3]))
  }
}
