/**
 `parse_string` as it runs: the first pass finds the end of the literal and the size
 of the output array, the second decodes into that array.  The passes may take the
 text apart differently, but the array is always large enough.
 */
module JsonDecoder {
  import opened Octets
  import opened ByteText
  import opened JsonString

  // ----- the size of a decoded string -----

  /** How many bytes do not start an escape. */
  function Falses(esc: seq<bool>): nat {
    if esc == [] then 0 else Falses(esc[..|esc| - 1]) + if esc[|esc| - 1] then 0 else 1
  }

  /** No two escapes start side by side. */
  ghost predicate Apart(esc: seq<bool>) {
    forall j, k :: 0 <= j < |esc| && 0 <= k < |esc| && k == j + 1 ==> !(esc[j] && esc[k])
  }

  lemma FalsesNext(esc: seq<bool>, q: nat)
    requires q < |esc|
    ensures Falses(esc[..q + 1]) == Falses(esc[..q]) + if esc[q] then 0 else 1
  {
    assert esc[..q + 1][..q] == esc[..q];
  }

  /** Of any two bytes side by side at least one does not start an escape. */
  lemma {:induction false} Alternate(esc: seq<bool>, q: nat, m: nat)
    requires Apart(esc) && q + 2 * m <= |esc|
    ensures Falses(esc[..q + 2 * m]) >= Falses(esc[..q]) + m
    decreases m
  {
    if m > 0 {
      Alternate(esc, q, m - 1);
      var p := q + 2 * m - 2;
      FalsesNext(esc, p);
      FalsesNext(esc, p + 1);
    }
  }

  lemma {:induction false} FalsesMonotone(esc: seq<bool>, q: nat, p: nat)
    requires q <= p <= |esc|
    ensures Falses(esc[..q]) <= Falses(esc[..p])
    decreases p
  {
    if q < p {
      FalsesMonotone(esc, q, p - 1);
      FalsesNext(esc, p - 1);
    }
  }

  /** `esc` marks the escapes that the first pass met between `start` and `end`. */
  ghost predicate Marks(buf: Bytes, start: nat, end: nat, esc: seq<bool>) {
    && start <= end <= |buf| && |esc| == end - start && Apart(esc)
    && (forall k :: 0 <= k < |esc| && esc[k] ==> buf[start + k] == BACKSLASH)
    && (esc != [] ==> !esc[|esc| - 1])
  }

  // ----- first pass -----

  method ScanLiteral(buf: Bytes, start: nat) returns (ok: bool, end: nat, skipped: nat, ghost esc: seq<bool>)
    requires start <= |buf|
    ensures ok <==> Close(buf, start).Some?
    ensures ok ==> Close(buf, start) == Some(end) && Marks(buf, start, end, esc) && skipped + Falses(esc) == |esc|
  {
    end, skipped, esc := start, 0, [];
    while end < |buf| && buf[end] != QUOTE
      invariant start <= end <= |buf| && Close(buf, start) == Close(buf, end)
      invariant Marks(buf, start, end, esc) && skipped + Falses(esc) == |esc|
    {
      if buf[end] == BACKSLASH {
        if end + 1 >= |buf| {
          return false, end, skipped, esc;
        }
        MarkEscape(buf, start, end, esc);
        skipped := skipped + 1;
        end := end + 1;
        esc := esc + [true, false];
      } else {
        MarkPlain(buf, start, end, esc);
        esc := esc + [false];
      }
      end := end + 1;
    }
    ok := end < |buf|;
  }

  lemma MarkPlain(buf: Bytes, start: nat, end: nat, esc: seq<bool>)
    requires Marks(buf, start, end, esc) && end < |buf|
    ensures Marks(buf, start, end + 1, esc + [false]) && Falses(esc + [false]) == Falses(esc) + 1
  {
    FalsesPush(esc, false);
  }

  lemma MarkEscape(buf: Bytes, start: nat, end: nat, esc: seq<bool>)
    requires Marks(buf, start, end, esc) && end + 1 < |buf| && buf[end] == BACKSLASH
    ensures Marks(buf, start, end + 2, esc + [true, false]) && Falses(esc + [true, false]) == Falses(esc) + 1
  {
    FalsesPush(esc, true);
    FalsesPush(esc + [true], false);
    assert esc + [true] + [false] == esc + [true, false];
  }

  lemma FalsesPush(esc: seq<bool>, b: bool)
    ensures Falses(esc + [b]) == Falses(esc) + if b then 0 else 1
  {
    assert (esc + [b])[..|esc|] == esc;
  }

  // ----- second pass -----

  method ParseHex4(a: Bytes, p: nat) returns (h: nat)
    requires p + 4 <= |a|
    ensures h == Hex4(a[p], a[p + 1], a[p + 2], a[p + 3])
  {
    h := 0;
    for i := 0 to 4
      invariant forall k :: p <= k < p + i ==> HexDigit(a[k]) >= 0
      invariant h == Nibbles(a, p, i)
    {
      var b := a[p + i];
      if 48 <= b <= 57 {
        h := h + (b - 48);
      } else if 65 <= b <= 70 {
        h := h + (b - 55);
      } else if 97 <= b <= 102 {
        h := h + (b - 87);
      } else {
        return 0;
      }
      if i < 3 {
        h := h * 16;
      }
    }
    FourNibbles(a, p);
  }

  lemma FourNibbles(a: Bytes, p: nat)
    requires p + 4 <= |a| && forall k :: p <= k < p + 4 ==> HexDigit(a[k]) >= 0
    ensures Nibbles(a, p, 4) == Hex4(a[p], a[p + 1], a[p + 2], a[p + 3])
  {
    assert Nibbles(a, p, 1) == HexDigit(a[p]) * 16;
    assert Nibbles(a, p, 2) == (HexDigit(a[p]) * 16 + HexDigit(a[p + 1])) * 16;
    assert Nibbles(a, p, 3) == ((HexDigit(a[p]) * 16 + HexDigit(a[p + 1])) * 16 + HexDigit(a[p + 2])) * 16;
  }

  /** The value of `h` after `n` digits. */
  ghost function Nibbles(a: Bytes, p: nat, n: nat): int
    requires p + 4 <= |a| && n <= 4
  {
    if n == 0 then 0
    else if n == 4 then Nibbles(a, p, 3) + HexDigit(a[p + 3])
    else (Nibbles(a, p, n - 1) + HexDigit(a[p + n - 1])) * 16
  }

  /** The end of `utf16_literal_to_utf8`: the bytes are written from the last to the first. */
  method WriteUtf8(code: nat, output: array<byte>, o: nat) returns (length: nat)
    requires code <= 0x10FFFF && o + |Utf8(code)| <= output.Length
    modifies output
    ensures length == |Utf8(code)| && output[..o + length] == old(output[..o]) + Utf8(code)
  {
    var mark;
    length, mark := FirstByteMark(code);
    ghost var before := output[..o];
    var rest := WriteTail(code, output, o, length);
    output[o] := mark + rest;
    assert output[..o] == before;
    assert output[o..o + length] == Utf8(code);
  }

  /** All bytes but the first; what is left of the code point belongs there. */
  method WriteTail(code: nat, output: array<byte>, o: nat, length: nat) returns (rest: nat)
    requires code <= 0x10FFFF && length == |Utf8(code)| && o + length <= output.Length
    modifies output
    ensures rest == Shifted(code, length - 1) && output[..o] == old(output[..o])
    ensures forall k :: 0 < k < length ==> output[o + k] == Utf8(code)[k]
  {
    var position := length - 1;
    rest := code;
    while position > 0
      invariant 0 <= position < length && output[..o] == old(output[..o])
      invariant rest == Shifted(code, length - 1 - position)
      invariant forall k :: position < k < length ==> output[o + k] == Utf8(code)[k]
    {
      Shifting(code, length, position);
      output[o + position] := 0x80 + rest % 0x40;
      rest, position := rest / 0x40, position - 1;
    }
  }

  /** The length of an encoding and the mark in its first byte. */
  method FirstByteMark(code: nat) returns (length: nat, mark: byte)
    requires code <= 0x10FFFF
    ensures length == |Utf8(code)| && Utf8(code)[0] == mark + Shifted(code, length - 1)
  {
    if code < 0x80 {
      length, mark := 1, 0;
    } else if code < 0x800 {
      length, mark := 2, 0xC0;
    } else if code < 0x10000 {
      length, mark := 3, 0xE0;
    } else {
      length, mark := 4, 0xF0;
    }
    Leading(code, length, mark);
  }

  /** `code >> 6 * n`. */
  function Shifted(code: nat, n: nat): nat {
    if n == 0 then code else Shifted(code, n - 1) / 0x40
  }

  lemma Shifts(code: nat)
    ensures Shifted(code, 1) == code / 0x40 && Shifted(code, 2) == code / 0x1000 && Shifted(code, 3) == code / 0x40000
  {
    assert code / 0x1000 == code / 0x40 / 0x40 && code / 0x40000 == code / 0x1000 / 0x40;
    assert Shifted(code, 1) == Shifted(code, 0) / 0x40;
  }

  lemma Shifting(code: nat, length: nat, position: nat)
    requires code <= 0x10FFFF && length == |Utf8(code)| && 0 < position < length
    ensures Utf8(code)[position] == 0x80 + Shifted(code, length - 1 - position) % 0x40
  {
    Shifts(code);
  }

  lemma Leading(code: nat, length: nat, mark: byte)
    requires code <= 0x10FFFF && length == |Utf8(code)|
    requires mark == if length == 1 then 0 else if length == 2 then 0xC0 else if length == 3 then 0xE0 else 0xF0
    ensures Utf8(code)[0] == mark + Shifted(code, length - 1)
  {
    Shifts(code);
  }

  /** The code point of the escape that `lit`, the rest of a literal, starts with. */
  method ReadCode(lit: Bytes) returns (sequence: nat, code: nat)
    requires lit != []
    ensures sequence == Utf16(lit).0
    ensures sequence != 0 ==> code <= 0x10FFFF && Utf16(lit).1 == Utf8(code)
  {
    var end := |lit| - 1;
    if end < 6 {
      return 0, 0;
    }
    var first := ParseHex4(lit, 2);
    if LowSurrogate(first) {
      return 0, 0;
    }
    if !HighSurrogate(first) {
      return 6, first;
    }
    if end - 6 < 6 || lit[6] != BACKSLASH || lit[7] != LETTER_U {
      return 0, 0;
    }
    var second := ParseHex4(lit, 8);
    if !LowSurrogate(second) {
      return 0, 0;
    }
    sequence, code := 12, PairCode(first, second);
  }

  /** The low ten bits of both surrogates. */
  function PairCode(hi: nat, lo: nat): (c: nat)
    requires HighSurrogate(hi) && LowSurrogate(lo)
    ensures c == Combine(hi, lo)
  {
    0x10000 + hi % 0x400 * 0x400 + lo % 0x400
  }

  /** `utf16_literal_to_utf8`. */
  method Utf16ToUtf8(lit: Bytes, output: array<byte>, o: nat) returns (sequence: nat, length: nat)
    requires lit != [] && o + |Utf16(lit).1| <= output.Length
    modifies output
    ensures sequence == Utf16(lit).0
    ensures sequence != 0 ==> length == |Utf16(lit).1| && output[..o + length] == old(output[..o]) + Utf16(lit).1
  {
    var code;
    sequence, code := ReadCode(lit);
    if sequence == 0 {
      return 0, 0;
    }
    length := WriteUtf8(code, output, o);
  }

  /** The second pass at `p`: the output so far fits, and the rest continues it. */
  ghost predicate Decoding(buf: Bytes, start: nat, end: nat, p: nat, esc: seq<bool>, out: Bytes, all: Option<Bytes>) {
    && start <= p <= end + 1 <= |buf| && |esc| == end + 1 - start
    && |out| <= Falses(esc[..p - start])
    && all == Onto(out, Unescape(buf[p..end + 1]))
  }

  /** Room for what a plain byte, and what an escape of `2 * m` bytes, writes. */
  lemma RoomPlain(buf: Bytes, start: nat, end: nat, p: nat, esc: seq<bool>)
    requires Marks(buf, start, end, esc) && start <= p < end && buf[p] != BACKSLASH
    ensures Falses(esc[..p - start]) + 1 == Falses(esc[..p - start + 1]) <= Falses(esc)
  {
    var q := p - start;
    FalsesNext(esc, q);
    assert buf[start + q] == buf[p];
    FalsesBelow(esc, q + 1);
  }

  lemma RoomEscape(esc: seq<bool>, q: nat, m: nat)
    requires Apart(esc) && q + 2 * m <= |esc|
    ensures Falses(esc[..q]) + m <= Falses(esc[..q + 2 * m]) <= Falses(esc)
  {
    Alternate(esc, q, m);
    FalsesBelow(esc, q + 2 * m);
  }

  lemma FalsesBelow(esc: seq<bool>, p: nat)
    requires p <= |esc|
    ensures Falses(esc[..p]) <= Falses(esc)
  {
    FalsesMonotone(esc, p, |esc|);
    assert esc[..|esc|] == esc;
  }

  lemma Decoded(buf: Bytes, start: nat, end: nat, p: nat, esc: seq<bool>, out: Bytes, all: Option<Bytes>, read: nat, more: Bytes)
    requires Decoding(buf, start, end, p, esc, out, all) && p + read <= end + 1
    requires |out| + |more| <= Falses(esc[..p + read - start])
    requires Unescape(buf[p..end + 1]) == Onto(more, Unescape(buf[p + read..end + 1]))
    ensures Decoding(buf, start, end, p + read, esc, out + more, all)
  {
    OntoTwice(out, more, Unescape(buf[p + read..end + 1]));
  }

  /** The second pass stands at a byte before the closing quote. */
  ghost predicate AtByte(buf: Bytes, start: nat, end: nat, p: nat, esc: seq<bool>, output: array<byte>, o: nat, all: Option<Bytes>)
    reads output
  {
    && Marks(buf, start, end + 1, esc) && start <= p < end && buf[end] == QUOTE
    && o <= output.Length == Falses(esc) + 1 && Decoding(buf, start, end, p, esc, output[..o], all)
  }

  method DecodeUnicode(buf: Bytes, p: nat, end: nat, output: array<byte>, o: nat, ghost start: nat, ghost esc: seq<bool>, ghost all: Option<Bytes>)
    returns (sequence: nat, o': nat)
    requires AtByte(buf, start, end, p, esc, output, o, all) && buf[p] == BACKSLASH && buf[p + 1] == LETTER_U
    modifies output
    ensures sequence == 0 ==> all.None?
    ensures sequence != 0 ==> o <= o' <= output.Length && Decoding(buf, start, end, p + sequence, esc, output[..o'], all)
  {
    ghost var (n, bytes) := Utf16(buf[p..end + 1]);
    UnicodeNext(buf, start, end, p, esc, output[..o], all, n, bytes);
    var length;
    sequence, length := Utf16ToUtf8(buf[p..end + 1], output, o);
    o' := o + length;
  }

  /** There is room for what the escape stands for, and it continues the output. */
  lemma UnicodeNext(buf: Bytes, start: nat, end: nat, p: nat, esc: seq<bool>, out: Bytes, all: Option<Bytes>, n: nat, bytes: Bytes)
    requires Apart(esc) && start <= p < end < |buf| && buf[p] == BACKSLASH && buf[p + 1] == LETTER_U
    requires Decoding(buf, start, end, p, esc, out, all) && (n, bytes) == Utf16(buf[p..end + 1])
    ensures n == 0 ==> all.None?
    ensures |out| + |bytes| <= Falses(esc)
    ensures n != 0 ==> Decoding(buf, start, end, p + n, esc, out + bytes, all)
  {
    UnicodeStep(buf, p, end);
    EscapeRoom(esc, p - start, n, |out|, |bytes|);
    if n != 0 { Decoded(buf, start, end, p, esc, out, all, n, bytes); }
  }

  lemma EscapeRoom(esc: seq<bool>, q: nat, n: nat, o: nat, k: nat)
    requires Apart(esc) && q + n <= |esc| && o <= Falses(esc[..q]) && 2 * k <= n && n % 2 == 0
    ensures o + k <= Falses(esc[..q + n]) <= Falses(esc)
  {
    RoomEscape(esc, q, n / 2);
  }

  lemma UnicodeStep(buf: Bytes, p: nat, end: nat)
    requires p < end < |buf| && buf[p] == BACKSLASH && buf[p + 1] == LETTER_U
    ensures var lit := buf[p..end + 1];
      var (n, bytes) := Utf16(lit);
      n <= |lit| && Unescape(lit) == if n == 0 then None else Onto(bytes, Unescape(buf[p + n..end + 1]))
  {
    var lit := buf[p..end + 1];
    var (n, bytes) := Utf16(lit);
    assert lit[0] == buf[p] && lit[1] == buf[p + 1];
    assert lit[n..] == buf[p + n..end + 1];
  }

  method DecodeShort(buf: Bytes, p: nat, end: nat, output: array<byte>, o: nat, ghost start: nat, ghost esc: seq<bool>, ghost all: Option<Bytes>)
    returns (sequence: nat, o': nat)
    requires AtByte(buf, start, end, p, esc, output, o, all) && buf[p] == BACKSLASH && buf[p + 1] != LETTER_U
    modifies output
    ensures sequence == 0 ==> all.None?
    ensures sequence != 0 ==> o <= o' <= output.Length && Decoding(buf, start, end, p + sequence, esc, output[..o'], all)
  {
    ghost var out := output[..o];
    ShortStep(buf, p, end);
    var b := Short(buf[p + 1]);
    if b.None? {
      return 0, o;
    }
    RoomEscape(esc, p - start, 1);
    output[o] := b.value;
    Decoded(buf, start, end, p, esc, out, all, 2, [b.value]);
    assert output[..o + 1] == out + [b.value];
    sequence, o' := 2, o + 1;
  }

  lemma ShortStep(buf: Bytes, p: nat, end: nat)
    requires p < end < |buf| && buf[p] == BACKSLASH && buf[p + 1] != LETTER_U
    ensures Unescape(buf[p..end + 1]) ==
      var b := Short(buf[p + 1]);
      if b.None? then None else Onto([b.value], Unescape(buf[p + 2..end + 1]))
  {
    var lit := buf[p..end + 1];
    assert lit[0] == buf[p] && lit[1] == buf[p + 1];
    assert lit[2..] == buf[p + 2..end + 1];
  }

  /** The second pass.  The output array has one byte more than the first pass counted. */
  method DecodeLiteral(buf: Bytes, start: nat, end: nat, allocation: nat, ghost esc0: seq<bool>) returns (ok: bool, out: Bytes)
    requires end < |buf| && buf[end] == QUOTE && Marks(buf, start, end, esc0) && allocation == Falses(esc0) + 1
    ensures ok <==> Unescape(buf[start..end + 1]).Some?
    ensures ok ==> CString(out) == CString(Unescape(buf[start..end + 1]).value) && |out| == allocation + 1
  {
    ghost var all := Unescape(buf[start..end + 1]);
    ghost var esc := esc0 + [false];
    FalsesPush(esc0, false);
    var output := new byte[allocation + 1];
    var o;
    ok, o := DecodeLoop(buf, start, end, output, esc, all);
    if !ok {
      return false, [];
    }
    output[o] := 0;
    out := output[..];
    CStringCut(out, o);
  }

  /** Its loop. */
  method DecodeLoop(buf: Bytes, start: nat, end: nat, output: array<byte>, ghost esc: seq<bool>, ghost all: Option<Bytes>)
    returns (ok: bool, o: nat)
    requires end < |buf| && buf[end] == QUOTE && Marks(buf, start, end + 1, esc) && output.Length == Falses(esc) + 1
    requires all == Unescape(buf[start..end + 1])
    modifies output
    ensures ok <==> all.Some?
    ensures ok ==> o < output.Length && all == Some(output[..o])
  {
    var p := start;
    o := 0;
    OntoNothing(all);
    assert output[..0] == [] && esc[..0] == [];
    while p < end
      invariant start <= p <= end + 1 && 0 <= o <= output.Length
      invariant Decoding(buf, start, end, p, esc, output[..o], all)
    {
      var sequence;
      sequence, o := DecodeOne(buf, p, end, output, o, start, esc, all);
      if sequence == 0 {
        return false, 0;
      }
      p := p + sequence;
    }
    Decodes(buf, start, end, p, esc, output[..o], all);
    ok := true;
  }

  /** What stands at `p`; no sequence at all if it is a bad escape. */
  method DecodeOne(buf: Bytes, p: nat, end: nat, output: array<byte>, o: nat, ghost start: nat, ghost esc: seq<bool>, ghost all: Option<Bytes>)
    returns (sequence: nat, o': nat)
    requires AtByte(buf, start, end, p, esc, output, o, all)
    modifies output
    ensures sequence == 0 ==> all.None?
    ensures sequence != 0 ==>
      p + sequence <= end + 1 && o' <= output.Length && Decoding(buf, start, end, p + sequence, esc, output[..o'], all)
  {
    if buf[p] != BACKSLASH {
      o' := DecodePlain(buf, p, end, output, o, start, esc, all);
      sequence := 1;
    } else if buf[p + 1] == LETTER_U {
      sequence, o' := DecodeUnicode(buf, p, end, output, o, start, esc, all);
    } else {
      sequence, o' := DecodeShort(buf, p, end, output, o, start, esc, all);
    }
  }

  method DecodePlain(buf: Bytes, p: nat, end: nat, output: array<byte>, o: nat, ghost start: nat, ghost esc: seq<bool>, ghost all: Option<Bytes>)
    returns (o': nat)
    requires AtByte(buf, start, end, p, esc, output, o, all) && buf[p] != BACKSLASH
    modifies output
    ensures o' <= output.Length && Decoding(buf, start, end, p + 1, esc, output[..o'], all)
  {
    ghost var out := output[..o];
    RoomPlain(buf, start, end + 1, p, esc);
    output[o] := buf[p];
    assert buf[p..end + 1][1..] == buf[p + 1..end + 1];
    Decoded(buf, start, end, p, esc, out, all, 1, [buf[p]]);
    assert output[..o + 1] == out + [buf[p]];
    o' := o + 1;
  }

  /** At the end there is room for the terminator. */
  lemma Decodes(buf: Bytes, start: nat, end: nat, p: nat, esc: seq<bool>, out: Bytes, all: Option<Bytes>)
    requires Decoding(buf, start, end, p, esc, out, all) && p >= end
    ensures all == Some(out) && |out| <= Falses(esc)
  {
    FalsesBelow(esc, p - start);
    assert out + [] == out;
  }
}
