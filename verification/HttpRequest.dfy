/**
 HTTP requests as bytes, and the scanner inside `hs_decoder` as a machine over single
 bytes: it finds the length of the body and where the body starts.
 */
module HttpRequest {
  import opened Octets
  import opened ByteText

  /** A request: line, header fields and body. */
  datatype Field = Field(name: Bytes, value: Bytes)
  datatype Request = Request(line: Bytes, fields: seq<Field>, body: Bytes)

  const CRLF: Bytes := [CR, LF]

  /** "content-length" */
  const CONTENT_LENGTH: Bytes := [99, 111, 110, 116, 101, 110, 116, 45, 108, 101, 110, 103, 116, 104]
  /** "GET" */
  const GET: Bytes := [71, 69, 84]

  // ----- text -----

  function FieldText(f: Field): Bytes { f.name + [COLON] + f.value + CRLF }

  function FieldsText(fs: seq<Field>): Bytes {
    if fs == [] then [] else FieldText(fs[0]) + FieldsText(fs[1..])
  }

  function HeadText(r: Request): Bytes { r.line + CRLF + FieldsText(r.fields) + CRLF }

  function RequestText(r: Request): Bytes { HeadText(r) + r.body }

  // ----- numbers -----

  predicate Space(b: byte) { b == SPACE || 9 <= b <= 13 }
  predicate Digit(b: byte) { 48 <= b <= 57 }

  function SkipSpaces(s: Bytes): Bytes { if s != [] && Space(s[0]) then SkipSpaces(s[1..]) else s }

  /** The digits at the start of `s`, after those that make up `n`. */
  function Digits(s: Bytes, n: int): int {
    if s != [] && Digit(s[0]) then Digits(s[1..], 10 * n + (s[0] - 48)) else n
  }

  /** `atoi`, within the range of `int`. */
  function Atoi(s: Bytes): int {
    var t := SkipSpaces(s);
    if t != [] && t[0] == MINUS then -Digits(t[1..], 0)
    else if t != [] && t[0] == PLUS then Digits(t[1..], 0)
    else Digits(t, 0)
  }

  // ----- the scanner -----

  datatype Zone = Line | Key | Value | Body

  /** `acc` is the key or the value so far, `flag` tells that the value is the length of
      the body, `count` is how many bytes there are before the body. */
  datatype Scan = Scan(zone: Zone, flag: bool, acc: Bytes, size: int, count: nat)

  const START := Scan(Line, false, [], 0, 0)

  predicate IsLength(name: Bytes) { Lower(CString(name)) == CONTENT_LENGTH }

  function Step(s: Scan, c: byte): Scan {
    match s.zone
    case Line => if c == LF then Scan(Key, s.flag, [], s.size, s.count + 1) else s.(count := s.count + 1)
    case Key =>
      if c == COLON then Scan(Value, s.flag || IsLength(s.acc), [], s.size, s.count + 1)
      else if c == LF then Scan(Body, s.flag, [], s.size, s.count + 1)
      else s.(acc := s.acc + [c], count := s.count + 1)
    case Value =>
      if c == CR then Scan(Value, false, s.acc + [c], if s.flag then Atoi(CString(s.acc)) else s.size, s.count + 1)
      else if c == LF then Scan(Key, s.flag, [], s.size, s.count + 1)
      else s.(acc := s.acc + [c], count := s.count + 1)
    case Body => s
  }

  function Run(s: Scan, t: Bytes): Scan {
    if t == [] then s else Step(Run(s, t[..|t| - 1]), t[|t| - 1])
  }

  lemma {:induction false} RunJoin(s: Scan, a: Bytes, b: Bytes)
    ensures Run(s, a + b) == Run(Run(s, a), b)
    decreases |b|
  {
    if b == [] {
      assert a + b == a;
    } else {
      var n := |b| - 1;
      assert (a + b)[..|a + b| - 1] == a + b[..n];
      RunJoin(s, a, b[..n]);
    }
  }

  lemma RunThen(s: Scan, a: Bytes, m: Scan, b: Bytes, e: Scan)
    requires Run(s, a) == m && Run(m, b) == e
    ensures Run(s, a + b) == e
  {
    RunJoin(s, a, b);
  }

  lemma RunOne(s: Scan, c: byte)
    ensures Run(s, [c]) == Step(s, c)
  {
    assert [c][..0] == [];
  }

  /** Bytes that do not end a line. */
  ghost predicate Clean(t: Bytes) {
    forall k :: 0 <= k < |t| ==> t[k] != CR && t[k] != LF
  }

  lemma {:induction false} RunLine(t: Bytes, n: nat)
    requires Clean(t)
    ensures Run(Scan(Line, false, [], 0, n), t) == Scan(Line, false, [], 0, n + |t|)
    decreases |t|
  {
    if t != [] { RunLine(t[..|t| - 1], n); }
  }

  lemma {:induction false} RunAcc(s: Scan, t: Bytes)
    requires Clean(t) && (s.zone == Value || (s.zone == Key && COLON !in t))
    ensures Run(s, t) == s.(acc := s.acc + t, count := s.count + |t|)
    decreases |t|
  {
    if t == [] {
      assert s.acc + [] == s.acc;
    } else {
      var n := |t| - 1;
      RunAcc(s, t[..n]);
      assert t[n] in t;
      assert s.acc + t[..n] + [t[n]] == s.acc + t;
    }
  }

  /** What a well-formed field is made of. */
  ghost predicate GoodField(f: Field) {
    Clean(f.name) && COLON !in f.name && 0 !in f.name && Clean(f.value) && 0 !in f.value
  }

  /** The body length after a field. */
  function FieldSize(f: Field, size: int): int {
    if Lower(f.name) == CONTENT_LENGTH then Atoi(f.value) else size
  }

  lemma RunName(name: Bytes, size: int, n: nat)
    requires Clean(name) && COLON !in name && 0 !in name
    ensures Run(Scan(Key, false, [], size, n), name + [COLON]) ==
      Scan(Value, Lower(name) == CONTENT_LENGTH, [], size, n + |name| + 1)
  {
    var s := Scan(Key, false, [], size, n);
    RunAcc(s, name);
    assert [] + name == name;
    CStringWhole(name);
    var m := Scan(Key, false, name, size, n + |name|);
    RunOne(m, COLON);
    RunThen(s, name, m, [COLON], Step(m, COLON));
  }

  lemma RunValue(value: Bytes, flag: bool, size: int, n: nat)
    requires Clean(value) && 0 !in value
    ensures Run(Scan(Value, flag, [], size, n), value + CRLF) ==
      Scan(Key, false, [], if flag then Atoi(value) else size, n + |value| + 2)
  {
    var s := Scan(Value, flag, [], size, n);
    RunAcc(s, value);
    assert [] + value == value;
    CStringWhole(value);
    var m := Scan(Value, flag, value, size, n + |value|);
    RunEnd(m);
    RunThen(s, value, m, CRLF, Scan(Key, false, [], if flag then Atoi(value) else size, n + |value| + 2));
  }

  lemma RunField(f: Field, size: int, n: nat)
    requires GoodField(f)
    ensures Run(Scan(Key, false, [], size, n), FieldText(f)) == Scan(Key, false, [], FieldSize(f, size), n + |FieldText(f)|)
  {
    RunName(f.name, size, n);
    RunValue(f.value, Lower(f.name) == CONTENT_LENGTH, size, n + |f.name| + 1);
    RunThen(Scan(Key, false, [], size, n), f.name + [COLON], Scan(Value, Lower(f.name) == CONTENT_LENGTH, [], size, n + |f.name| + 1),
            f.value + CRLF, Scan(Key, false, [], FieldSize(f, size), n + |FieldText(f)|));
    assert f.name + [COLON] + (f.value + CRLF) == FieldText(f);
  }

  lemma RunCrlf(s: Scan)
    ensures Run(s, CRLF) == Step(Step(s, CR), LF)
  {
    assert CRLF == [CR] + [LF];
    RunJoin(s, [CR], [LF]);
    RunOne(s, CR);
    RunOne(Step(s, CR), LF);
  }

  lemma RunEnd(s: Scan)
    requires s.zone == Value
    ensures Run(s, CRLF) == Scan(Key, false, [], if s.flag then Atoi(CString(s.acc)) else s.size, s.count + 2)
  {
    RunCrlf(s);
  }

  ghost function FieldsSize(fs: seq<Field>, size: int): int {
    if fs == [] then size else FieldsSize(fs[1..], FieldSize(fs[0], size))
  }

  lemma {:induction false} RunFields(fs: seq<Field>, size: int, n: nat)
    requires forall k :: 0 <= k < |fs| ==> GoodField(fs[k])
    ensures Run(Scan(Key, false, [], size, n), FieldsText(fs)) == Scan(Key, false, [], FieldsSize(fs, size), n + |FieldsText(fs)|)
    decreases |fs|
  {
    if fs != [] {
      RunField(fs[0], size, n);
      RunFields(fs[1..], FieldSize(fs[0], size), n + |FieldText(fs[0])|);
      RunThen(Scan(Key, false, [], size, n), FieldText(fs[0]), Scan(Key, false, [], FieldSize(fs[0], size), n + |FieldText(fs[0])|),
              FieldsText(fs[1..]), Scan(Key, false, [], FieldsSize(fs, size), n + |FieldsText(fs)|));
    }
  }

  /** A well-formed request, not a GET, whose `Content-Length` fields, of which there is
      one at least, give the length of its body. */
  ghost predicate GoodRequest(r: Request) {
    && Clean(r.line) && |r.line| >= 3 && r.line[..3] != GET
    && (forall k :: 0 <= k < |r.fields| ==> GoodField(r.fields[k]))
    && (forall k :: 0 <= k < |r.fields| && Lower(r.fields[k].name) == CONTENT_LENGTH ==> Atoi(r.fields[k].value) == |r.body|)
    && (exists k :: 0 <= k < |r.fields| && Lower(r.fields[k].name) == CONTENT_LENGTH)
    && |r.body| >= 1
  }

  lemma {:induction false} LengthFound(fs: seq<Field>, size: int, n: int)
    requires forall k :: 0 <= k < |fs| && Lower(fs[k].name) == CONTENT_LENGTH ==> Atoi(fs[k].value) == n
    requires size == n || exists k :: 0 <= k < |fs| && Lower(fs[k].name) == CONTENT_LENGTH
    ensures FieldsSize(fs, size) == n
    decreases |fs|
  {
    if fs != [] {
      if size != n && Lower(fs[0].name) != CONTENT_LENGTH {
        var k :| 0 <= k < |fs| && Lower(fs[k].name) == CONTENT_LENGTH;
        assert fs[1..][k - 1] == fs[k];
      }
      LengthFound(fs[1..], FieldSize(fs[0], size), n);
    }
  }

  /** The head ends where the body starts, and its length has been found. */
  lemma HeadScanned(r: Request)
    requires GoodRequest(r)
    ensures Run(START, HeadText(r)) == Scan(Body, false, [], |r.body|, |HeadText(r)|)
  {
    var n, k := |r.line|, |FieldsText(r.fields)|;
    RunLine(r.line, 0);
    LineEnd(n);
    FieldsScanned(r, n + 2);
    HeadEnd(|r.body|, n + 2 + k);
    RunParts(START, r.line, Scan(Line, false, [], 0, n), CRLF, Scan(Key, false, [], 0, n + 2),
             FieldsText(r.fields), Scan(Key, false, [], |r.body|, n + 2 + k), CRLF, Scan(Body, false, [], |r.body|, n + k + 4));
  }

  lemma RunParts(s: Scan, a: Bytes, m: Scan, b: Bytes, n: Scan, c: Bytes, o: Scan, d: Bytes, e: Scan)
    requires Run(s, a) == m && Run(m, b) == n && Run(n, c) == o && Run(o, d) == e
    ensures Run(s, a + b + c + d) == e
  {
    RunThen(s, a, m, b, n);
    RunThen(s, a + b, n, c, o);
    RunThen(s, a + b + c, o, d, e);
  }

  lemma FieldsScanned(r: Request, n: nat)
    requires GoodRequest(r)
    ensures Run(Scan(Key, false, [], 0, n), FieldsText(r.fields))
      == Scan(Key, false, [], |r.body|, n + |FieldsText(r.fields)|)
  {
    RunFields(r.fields, 0, n);
    LengthFound(r.fields, 0, |r.body|);
  }

  lemma LineEnd(n: nat)
    ensures Run(Scan(Line, false, [], 0, n), CRLF) == Scan(Key, false, [], 0, n + 2)
  {
    var s := Scan(Line, false, [], 0, n);
    RunCrlf(s);
  }

  lemma HeadEnd(size: int, n: nat)
    ensures Run(Scan(Key, false, [], size, n), CRLF) == Scan(Body, false, [], size, n + 2)
  {
    var s := Scan(Key, false, [], size, n);
    RunCrlf(s);
  }

  /** Before the end of the head the scanner is not in the body, and counts. */
  lemma {:induction false} Counting(t: Bytes, n: nat)
    requires n <= |t|
    ensures Run(START, t[..n]).count <= n
    ensures Run(START, t[..n]).zone == Body ==> Run(START, t).count == Run(START, t[..n]).count
    decreases |t| - n, n
  {
    CountBelow(t[..n]);
    if n < |t| {
      Counting(t, n + 1);
      assert t[..n + 1][..n] == t[..n];
    } else {
      assert t[..n] == t;
    }
  }

  lemma {:induction false} CountBelow(t: Bytes)
    ensures Run(START, t).count <= |t|
    ensures Run(START, t).zone != Body ==> Run(START, t).count == |t|
  {
    if t != [] { CountBelow(t[..|t| - 1]); }
  }

  lemma HeadNotOver(r: Request, n: nat)
    requires GoodRequest(r) && n < |HeadText(r)|
    ensures Run(START, HeadText(r)[..n]).zone != Body
  {
    HeadScanned(r);
    Counting(HeadText(r), n);
  }

  // ----- a request in numbers -----

  function DecimalText(n: nat): (t: Bytes)
    ensures t != [] && forall k :: 0 <= k < |t| ==> 48 <= t[k] <= 57
  {
    if n < 10 then [48 + n] else DecimalText(n / 10) + [48 + n % 10]
  }

  lemma {:induction false} DigitsMore(t: Bytes, b: byte, n: int)
    requires (forall k :: 0 <= k < |t| ==> 48 <= t[k] <= 57) && 48 <= b <= 57
    ensures Digits(t + [b], n) == 10 * Digits(t, n) + (b - 48)
    decreases |t|
  {
    if t == [] {
      assert t + [b] == [b] && [b][1..] == [];
    } else {
      DigitsMore(t[1..], b, 10 * n + (t[0] - 48));
      assert (t + [b])[1..] == t[1..] + [b];
    }
  }

  lemma {:induction false} DecimalDigits(n: nat)
    ensures Digits(DecimalText(n), 0) == n
  {
    if n < 10 {
      assert [48 + n][1..] == [];
    } else {
      DecimalDigits(n / 10);
      DigitsMore(DecimalText(n / 10), 48 + n % 10, 0);
    }
  }

  /** Whatever follows the digits does not count. */
  lemma {:induction false} DigitsEnd(t: Bytes, rest: Bytes, n: int)
    requires (forall k :: 0 <= k < |t| ==> 48 <= t[k] <= 57) && (rest != [] ==> !(48 <= rest[0] <= 57))
    ensures Digits(t + rest, n) == Digits(t, n)
    decreases |t|
  {
    if t == [] {
      assert t + rest == rest;
    } else {
      DigitsEnd(t[1..], rest, 10 * n + (t[0] - 48));
      assert (t + rest)[1..] == t[1..] + rest;
    }
  }

  lemma {:induction false} SpacesSkipped(w: Bytes, t: Bytes)
    requires (forall k :: 0 <= k < |w| ==> w[k] == 32 || 9 <= w[k] <= 13) && (t != [] ==> !(t[0] == 32 || 9 <= t[0] <= 13))
    ensures SkipSpaces(w + t) == t
  {
    if w == [] {
      assert w + t == t;
    } else {
      SpacesSkipped(w[1..], t);
      assert (w + t)[1..] == w[1..] + t;
    }
  }

  /** `atoi` of blanks, a sign, decimal digits and anything else. */
  lemma AtoiDecimal(w: Bytes, n: nat, rest: Bytes)
    requires (forall k :: 0 <= k < |w| ==> w[k] == 32 || 9 <= w[k] <= 13) && (rest != [] ==> !(48 <= rest[0] <= 57))
    ensures var t := DecimalText(n) + rest;
      Atoi(w + t) == Atoi(w + ([43] + t)) == n && Atoi(w + ([45] + t)) == 0 - n
  {
    var t := DecimalText(n) + rest;
    assert t[0] == DecimalText(n)[0];
    SpacesSkipped(w, t);
    SpacesSkipped(w, [43] + t);
    SpacesSkipped(w, [45] + t);
    assert ([43] + t)[1..] == t && ([45] + t)[1..] == t;
    DecimalDigits(n);
    DigitsEnd(DecimalText(n), rest, 0);
  }

  /** "Content-Length" */
  function LengthName(): Bytes { [67, 111, 110, 116, 101, 110, 116, 45, 76, 101, 110, 103, 116, 104] }

  function LengthField(n: nat): Field { Field(LengthName(), [32] + DecimalText(n)) }

  lemma LengthFieldGood(n: nat)
    ensures GoodField(LengthField(n)) && Lower(LengthField(n).name) == CONTENT_LENGTH && Atoi(LengthField(n).value) == n
  {
    AtoiDecimal([32], n, []);
    assert DecimalText(n) + [] == DecimalText(n);
    assert Lower(LengthName()) == CONTENT_LENGTH;
  }

  /** A request line that is no GET, a length in decimal, and a body of that length. */
  lemma PlainRequest(line: Bytes, body: Bytes)
    requires Clean(line) && |line| >= 3 && line[..3] != [71, 69, 84] && body != []
    ensures GoodRequest(Request(line, [LengthField(|body|)], body))
  {
    LengthFieldGood(|body|);
    OneGood(line, LengthField(|body|), body);
  }

  lemma OneGood(line: Bytes, f: Field, body: Bytes)
    requires Clean(line) && |line| >= 3 && line[..3] != [71, 69, 84] && body != []
    requires GoodField(f) && Lower(f.name) == CONTENT_LENGTH && Atoi(f.value) == |body|
    ensures GoodRequest(Request(line, [f], body))
  {
    assert [f][0] == f;
  }

  /** The text of a request, in numbers. */
  lemma RequestBytes(line: Bytes, f: Field, fs: seq<Field>, body: Bytes)
    ensures RequestText(Request(line, fs, body)) == line + [13, 10] + FieldsText(fs) + [13, 10] + body
    ensures FieldsText([]) == [] && FieldsText([f] + fs) == f.name + [58] + f.value + [13, 10] + FieldsText(fs)
  {
    assert ([f] + fs)[1..] == fs;
  }
}
