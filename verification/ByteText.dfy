/** Byte texts as C sees them: strings in a buffer that ends with a NUL. */
module ByteText {
  import opened Octets

  type Bytes = seq<byte>

  const BACKSPACE: byte := 8
  const TAB: byte := 9
  const LF: byte := 10
  const FF: byte := 12
  const CR: byte := 13
  const SPACE: byte := 32
  const QUOTE: byte := 34
  const PLUS: byte := 43
  const COMMA: byte := 44
  const MINUS: byte := 45
  const DOT: byte := 46
  const SLASH: byte := 47
  const STAR: byte := 42
  const COLON: byte := 58
  const LBRACKET: byte := 91
  const BACKSLASH: byte := 92
  const RBRACKET: byte := 93
  const LBRACE: byte := 123
  const RBRACE: byte := 125
  const LETTER_B: byte := 98
  const LETTER_F: byte := 102
  const LETTER_N: byte := 110
  const LETTER_R: byte := 114
  const LETTER_T: byte := 116
  const LETTER_U: byte := 117

  /** A buffer of `strlen + 1` bytes: no NUL but the last. */
  ghost predicate CText(buf: Bytes) {
    && |buf| > 0 && buf[|buf| - 1] == 0
    && forall k :: 0 <= k < |buf| - 1 ==> buf[k] != 0
  }

  /** What `strlen` and `strcmp` see of a byte array. */
  function CString(s: Bytes): (r: Bytes)
    ensures 0 !in r
  {
    if s == [] || s[0] == 0 then [] else [s[0]] + CString(s[1..])
  }

  lemma {:induction false} CStringWhole(s: Bytes)
    requires 0 !in s
    ensures CString(s) == s
  {
    if s != [] {
      assert s[0] in s;
      CStringWhole(s[1..]);
    }
  }

  function ToLower(b: byte): byte { if 65 <= b <= 90 then b + 32 else b }

  function Lower(s: Bytes): (r: Bytes)
    ensures |r| == |s|
  {
    seq(|s|, k requires 0 <= k < |s| => ToLower(s[k]))
  }

  lemma {:induction false} CStringCut(a: Bytes, n: nat)
    requires n < |a| && a[n] == 0
    ensures CString(a) == CString(a[..n])
  {
    if n > 0 {
      assert a[1..][..n - 1] == a[..n][1..];
      CStringCut(a[1..], n - 1);
    }
  }

  /** `t` stands in `buf` at `i`. */
  predicate At(buf: Bytes, i: nat, t: Bytes) {
    i + |t| <= |buf| && forall k {:trigger t[k]} :: 0 <= k < |t| ==> buf[i + k] == t[k]
  }

  lemma AtJoin(buf: Bytes, i: nat, s: Bytes, t: Bytes)
    ensures At(buf, i, s + t) <==> At(buf, i, s) && At(buf, i + |s|, t)
  {
    if At(buf, i, s + t) {
      forall k | 0 <= k < |s| ensures buf[i + k] == s[k] {
        assert (s + t)[k] == s[k];
      }
      forall k | 0 <= k < |t| ensures buf[i + |s| + k] == t[k] {
        assert (s + t)[|s| + k] == t[k];
      }
    }
  }

  lemma AtOne(buf: Bytes, i: nat, b: byte)
    ensures At(buf, i, [b]) <==> i < |buf| && buf[i] == b
  {
    assert [b][0] == b;
  }

  lemma AtSlice(buf: Bytes, i: nat, t: Bytes)
    ensures At(buf, i, t) <==> i + |t| <= |buf| && buf[i..i + |t|] == t
  {
  }

  lemma AtTail(buf: Bytes, i: nat, t: Bytes)
    requires At(buf, i, t)
    ensures buf[i..] == t + buf[i + |t|..]
  {
  }

  lemma AtFirst(buf: Bytes, i: nat, t: Bytes, n: nat)
    requires At(buf, i, t) && n <= |t|
    ensures At(buf, i, t[..n])
  {
  }

  lemma AtIndex(buf: Bytes, i: nat, t: Bytes, k: nat)
    requires At(buf, i, t) && k < |t|
    ensures buf[i + k] == t[k]
  {
  }

  lemma Assoc4(a: Bytes, b: Bytes, c: Bytes, d: Bytes)
    ensures a + b + c + d == a + (b + (c + d))
  {
  }

  lemma AtJoin3(buf: Bytes, i: nat, a: Bytes, b: Bytes, c: Bytes)
    ensures At(buf, i, a + b + c) <==> At(buf, i, a) && At(buf, i + |a|, b) && At(buf, i + |a| + |b|, c)
  {
    AtJoin(buf, i, a + b, c);
    AtJoin(buf, i, a, b);
  }

  // ----- white space -----

  /** `cJSON` takes every control character for white space. */
  ghost predicate White(w: Bytes) {
    forall k :: 0 <= k < |w| ==> 0 < w[k] <= SPACE
  }

  /** Where `buffer_skip_whitespace` leaves the offset; it stops at the final NUL. */
  function Skip(buf: Bytes, i: nat): (j: nat)
    requires i < |buf|
    ensures i <= j < |buf| && (j < |buf| - 1 ==> buf[j] > SPACE)
    decreases |buf| - i
  {
    if i < |buf| - 1 && buf[i] <= SPACE then Skip(buf, i + 1) else i
  }

  lemma {:induction false} SkipWhite(buf: Bytes, i: nat, w: Bytes)
    requires CText(buf) && At(buf, i, w) && White(w) && i + |w| < |buf|
    requires buf[i + |w|] > SPACE || i + |w| == |buf| - 1
    ensures Skip(buf, i) == i + |w|
    decreases |w|
  {
    if w != [] {
      AtIndex(buf, i, w, 0);
      SkipWhite(buf, i + 1, w[1..]);
    }
  }

  lemma {:induction false} SkipIsWhite(buf: Bytes, i: nat)
    requires CText(buf) && i < |buf|
    ensures White(buf[i..Skip(buf, i)])
    decreases |buf| - i
  {
    if i < |buf| - 1 && buf[i] <= SPACE {
      SkipIsWhite(buf, i + 1);
      assert buf[i..Skip(buf, i)] == [buf[i]] + buf[i + 1..Skip(buf, i)];
    }
  }
}
