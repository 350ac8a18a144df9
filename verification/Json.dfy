/** The JSON text the program hashes and signs: strings escaped as JSON.stringify does
    (section 7 of RFC 8259, lone surrogates as \u escapes), integers, null, and arrays of
    those, with a reader that undoes the printer. */
module Json {
  import opened Hashing
  import opened Text
  import opened MerkleTree

  const QUOTE: CodeUnit := 34
  const BACKSLASH: CodeUnit := 92
  const COMMA: CodeUnit := 44
  const OPEN: CodeUnit := 91
  const CLOSE: CodeUnit := 93
  const MINUS: CodeUnit := 45

  // ---- strings ------------------------------------------------------------------------------

  function HexDigit(n: nat): (u: CodeUnit)
    requires n < 16
  {
    if n < 10 then 48 + n else 87 + n
  }

  function HexValue(u: CodeUnit): Option<nat> {
    if 48 <= u < 58 then Some(u - 48) else if 97 <= u < 103 then Some(u - 87) else None
  }

  function Hex4(u: CodeUnit): (t: Text)
    ensures |t| == 4
  {
    [HexDigit(u / 4096), HexDigit(u / 256 % 16), HexDigit(u / 16 % 16), HexDigit(u % 16)]
  }

  /** The letter of a two-character escape, if this unit has one. */
  function ShortEscape(u: CodeUnit): Option<CodeUnit> {
    if u == QUOTE || u == BACKSLASH then Some(u)
    else if u == 8 then Some(98)
    else if u == 9 then Some(116)
    else if u == 10 then Some(110)
    else if u == 12 then Some(102)
    else if u == 13 then Some(114)
    else None
  }

  function ShortUnescape(c: CodeUnit): Option<CodeUnit> {
    if c == QUOTE || c == BACKSLASH then Some(c)
    else if c == 98 then Some(8)
    else if c == 116 then Some(9)
    else if c == 110 then Some(10)
    else if c == 102 then Some(12)
    else if c == 114 then Some(13)
    else None
  }

  predicate IsSurrogate(u: CodeUnit) { IsHigh(u) || IsLow(u) }

  function EscapeUnit(u: CodeUnit): (t: Text)
    ensures |t| >= 1
  {
    if ShortEscape(u).Some? then [BACKSLASH, ShortEscape(u).value]
    else if u < 32 || IsSurrogate(u) then [BACKSLASH, 117] + Hex4(u)
    else [u]
  }

  function Escape(s: Text): Text {
    if s == [] then []
    else if IsHigh(s[0]) && |s| >= 2 && IsLow(s[1]) then [s[0], s[1]] + Escape(s[2..])
    else EscapeUnit(s[0]) + Escape(s[1..])
  }

  function Quote(s: Text): Text { [QUOTE] + Escape(s) + [QUOTE] }

  /** How JSON.stringify writes each code unit: seven two-character escapes, six characters with
      lower-case hex for the other controls and for a lone surrogate, and itself for all others. */
  lemma EscapeUnitInFull(u: CodeUnit)
    ensures u == 34 || u == 92 ==> EscapeUnit(u) == [92, u]
    ensures u == 8 ==> EscapeUnit(u) == [92, 98]
    ensures u == 9 ==> EscapeUnit(u) == [92, 116]
    ensures u == 10 ==> EscapeUnit(u) == [92, 110]
    ensures u == 12 ==> EscapeUnit(u) == [92, 102]
    ensures u == 13 ==> EscapeUnit(u) == [92, 114]
    ensures (u < 32 && u !in {8, 9, 10, 12, 13}) || 0xD800 <= u <= 0xDFFF ==>
              EscapeUnit(u) == [92, 117, HexChar(u / 4096), HexChar(u / 256 % 16), HexChar(u / 16 % 16), HexChar(u % 16)]
    ensures u >= 32 && u != 34 && u != 92 && !(0xD800 <= u <= 0xDFFF) ==> EscapeUnit(u) == [u]
  {
    HexDigitIsChar(u / 4096);
    HexDigitIsChar(u / 256 % 16);
    HexDigitIsChar(u / 16 % 16);
    HexDigitIsChar(u % 16);
    hide HexDigit;
    hide HexChar;
  }

  lemma HexDigitIsChar(n: nat)
    requires n < 16
    ensures HexDigit(n) == HexChar(n)
  {
  }

  /** One lower-case hexadecimal digit, by its place in the alphabet of them. */
  function HexChar(n: nat): CodeUnit
    requires n < 16
  {
    Ascii("0123456789abcdef")[n]
  }

  /** A paired surrogate is kept as it is; anything else is escaped unit by unit. */
  lemma EscapeInFull(u: CodeUnit, v: CodeUnit, rest: Text)
    ensures Quote([]) == Ascii("\"\"")
    ensures 0xD800 <= u < 0xDC00 && 0xDC00 <= v < 0xE000 ==> Escape([u, v] + rest) == [u, v] + Escape(rest)
    ensures !(0xD800 <= u < 0xDC00 && 0xDC00 <= v < 0xE000) ==> Escape([u, v] + rest) == EscapeUnit(u) + Escape([v] + rest)
    ensures Escape([u]) == EscapeUnit(u)
  {
    var t := [u, v] + rest;
    assert t[1..] == [v] + rest && t[2..] == rest;
    assert [u][1..] == [];
  }

  /** One character of a JSON string, and what follows it. */
  function ReadUnit(t: Text): (r: Option<(CodeUnit, Text)>)
    ensures r.Some? ==> |r.value.1| < |t|
  {
    if t == [] || t[0] == QUOTE then None
    else if t[0] != BACKSLASH then Some((t[0], t[1..]))
    else if |t| < 2 then None
    else if ShortUnescape(t[1]).Some? then Some((ShortUnescape(t[1]).value, t[2..]))
    else if t[1] != 117 || |t| < 6 then None
    else
      var a, b, c, d := HexValue(t[2]), HexValue(t[3]), HexValue(t[4]), HexValue(t[5]);
      if a.None? || b.None? || c.None? || d.None? then None
      else Some((a.value * 4096 + b.value * 256 + c.value * 16 + d.value, t[6..]))
  }

  /** The characters up to the closing quote, and what follows it. */
  function ReadString(t: Text): (r: Option<(Text, Text)>)
    ensures r.Some? ==> |r.value.1| < |t|
    decreases |t|
  {
    if t != [] && t[0] == QUOTE then Some(([], t[1..]))
    else
      match ReadUnit(t)
      case None => None
      case Some((u, rest)) =>
        match ReadString(rest)
        case None => None
        case Some((s, after)) => Some(([u] + s, after))
  }

  lemma {:induction false} Hex4Value(u: CodeUnit)
    ensures HexValue(Hex4(u)[0]) == Some(u / 4096) && HexValue(Hex4(u)[1]) == Some(u / 256 % 16)
    ensures HexValue(Hex4(u)[2]) == Some(u / 16 % 16) && HexValue(Hex4(u)[3]) == Some(u % 16)
    ensures u == u / 4096 * 4096 + u / 256 % 16 * 256 + u / 16 % 16 * 16 + u % 16
  {
    var p := u / 16;
    var q := p / 16;
    assert u / 256 == q && u / 4096 == q / 16;
  }

  lemma {:induction false} ReadEscapedUnit(u: CodeUnit, rest: Text)
    ensures ReadUnit(EscapeUnit(u) + rest) == Some((u, rest))
  {
    var e := EscapeUnit(u);
    var t := e + rest;
    assert t[|e|..] == rest && forall i :: 0 <= i < |e| ==> t[i] == e[i];
    Hex4Value(u);
  }

  lemma ReadRawUnit(u: CodeUnit, rest: Text)
    requires IsSurrogate(u)
    ensures ReadUnit([u] + rest) == Some((u, rest))
  {
    assert ([u] + rest)[1..] == rest;
  }

  lemma ReadStringStep(t: Text, u: CodeUnit, rest: Text)
    requires ReadUnit(t) == Some((u, rest)) && ReadString(rest).Some?
    ensures ReadString(t) == Some(([u] + ReadString(rest).value.0, ReadString(rest).value.1))
  {
  }

  /** Reading undoes escaping, whatever follows the closing quote. */
  lemma {:induction false} ReadEscaped(s: Text, rest: Text)
    ensures ReadString(Escape(s) + [QUOTE] + rest) == Some((s, rest))
  {
    hide ReadUnit;
    hide EscapeUnit;
    var end := [QUOTE] + rest;
    assert Escape(s) + [QUOTE] + rest == Escape(s) + end;
    if s == [] {
      assert Escape(s) + end == end && end[1..] == rest;
    } else if IsHigh(s[0]) && |s| >= 2 && IsLow(s[1]) {
      var after := Escape(s[2..]) + end;
      ReadEscaped(s[2..], rest);
      assert Escape(s[2..]) + [QUOTE] + rest == after;
      assert Escape(s) + end == [s[0]] + ([s[1]] + after);
      ReadRawUnit(s[1], after);
      ReadStringStep([s[1]] + after, s[1], after);
      ReadRawUnit(s[0], [s[1]] + after);
      ReadStringStep([s[0]] + ([s[1]] + after), s[0], [s[1]] + after);
      assert s == [s[0]] + ([s[1]] + s[2..]);
    } else {
      var after := Escape(s[1..]) + end;
      ReadEscaped(s[1..], rest);
      assert Escape(s[1..]) + [QUOTE] + rest == after;
      assert Escape(s) + end == EscapeUnit(s[0]) + after;
      ReadEscapedUnit(s[0], after);
      ReadStringStep(EscapeUnit(s[0]) + after, s[0], after);
      assert s == [s[0]] + s[1..];
    }
  }

  lemma WellFormedUnit(u: CodeUnit)
    ensures WellFormed(EscapeUnit(u))
  {
    var e := EscapeUnit(u);
    if |e| > 1 { AsciiUtf8(e); } else { assert e[1..] == []; }
  }

  lemma {:induction false} WellFormedEscape(s: Text)
    ensures WellFormed(Escape(s))
  {
    if s != [] {
      if IsHigh(s[0]) && |s| >= 2 && IsLow(s[1]) {
        WellFormedEscape(s[2..]);
        var t := [s[0], s[1]] + Escape(s[2..]);
        assert t[2..] == Escape(s[2..]);
      } else {
        WellFormedEscape(s[1..]);
        WellFormedUnit(s[0]);
        WellFormedAppend(EscapeUnit(s[0]), Escape(s[1..]));
      }
    }
  }

  // ---- integers -----------------------------------------------------------------------------

  function Decimal(n: nat): (t: Text)
    ensures |t| >= 1 && forall i :: 0 <= i < |t| ==> 48 <= t[i] < 58
  {
    if n < 10 then [48 + n] else Decimal(n / 10) + [48 + n % 10]
  }

  /** No leading zero. */
  lemma {:induction false} DecimalInFull(n: nat)
    ensures Decimal(n)[0] == 48 <==> n == 0
    ensures n < 10 ==> Decimal(n) == [48 + n]
  {
    if n >= 10 { DecimalInFull(n / 10); }
  }

  predicate IsDigit(u: CodeUnit) { 48 <= u < 58 }

  function ReadDigits(acc: nat, t: Text): (r: (nat, Text))
    ensures |r.1| <= |t| && (t != [] && IsDigit(t[0]) ==> |r.1| < |t|)
    decreases |t|
  {
    if t != [] && IsDigit(t[0]) then ReadDigits(acc * 10 + (t[0] - 48), t[1..]) else (acc, t)
  }

  lemma {:induction false} ReadDecimal(n: nat, t: Text)
    ensures ReadDigits(0, Decimal(n) + t) == ReadDigits(n, t)
  {
    if n < 10 {
      assert (Decimal(n) + t)[1..] == t;
    } else {
      var d: CodeUnit := 48 + n % 10;
      ReadDecimal(n / 10, [d] + t);
      assert Decimal(n) + t == Decimal(n / 10) + ([d] + t);
      assert ([d] + t)[1..] == t;
    }
  }

  // ---- scalars and arrays ---------------------------------------------------------------------

  datatype Scalar = Null | Num(n: int) | Str(s: Text)

  const NULL_TEXT: Text := [110, 117, 108, 108]

  function PrintScalar(x: Scalar): (t: Text)
    ensures |t| >= 1
  {
    match x
    case Null => NULL_TEXT
    case Num(n) => if n < 0 then [MINUS] + Decimal(-n) else Decimal(n)
    case Str(s) => Quote(s)
  }

  function ReadScalar(t: Text): (r: Option<(Scalar, Text)>)
    ensures r.Some? ==> |r.value.1| < |t|
  {
    if t == [] then None
    else if t[0] == QUOTE then
      match ReadString(t[1..])
      case None => None
      case Some((s, rest)) => Some((Str(s), rest))
    else if t[0] == MINUS then
      var d := ReadDigits(0, t[1..]);
      Some((Num(-(d.0 as int)), d.1))
    else if IsDigit(t[0]) then
      var d := ReadDigits(0, t);
      Some((Num(d.0), d.1))
    else if NULL_TEXT <= t then Some((Null, t[4..]))
    else None
  }

  lemma ReadPrintedNumber(n: int, rest: Text)
    requires rest != [] && !IsDigit(rest[0])
    ensures ReadScalar(PrintScalar(Num(n)) + rest) == Some((Num(n), rest))
  {
    hide ReadString;
    var t := PrintScalar(Num(n)) + rest;
    if n < 0 {
      assert t[1..] == Decimal(-n) + rest;
      ReadDecimal(-n, rest);
    } else {
      ReadDecimal(n, rest);
    }
  }

  lemma ReadPrintedString(s: Text, rest: Text)
    ensures ReadScalar(PrintScalar(Str(s)) + rest) == Some((Str(s), rest))
  {
    hide ReadString;
    hide Escape;
    var t := PrintScalar(Str(s)) + rest;
    assert t[1..] == Escape(s) + [QUOTE] + rest;
    ReadEscaped(s, rest);
  }

  lemma ReadPrintedScalar(x: Scalar, rest: Text)
    requires rest != [] && !IsDigit(rest[0])
    ensures ReadScalar(PrintScalar(x) + rest) == Some((x, rest))
  {
    match x {
      case Null => assert (PrintScalar(x) + rest)[4..] == rest;
      case Num(n) => ReadPrintedNumber(n, rest);
      case Str(s) => ReadPrintedString(s, rest);
    }
  }

  datatype Scalars = Done | More(head: Scalar, tail: Scalars)

  /** The elements after the first, each led by a comma, up to the bracket. */
  function PrintRest(xs: Scalars): (t: Text)
    ensures t != [] && !IsDigit(t[0])
  {
    match xs
    case Done => [CLOSE]
    case More(x, tail) => [COMMA] + PrintScalar(x) + PrintRest(tail)
  }

  /** A non-empty array. */
  function PrintArray(first: Scalar, rest: Scalars): Text { [OPEN] + PrintScalar(first) + PrintRest(rest) }

  function ReadRest(t: Text): Option<Scalars>
    decreases |t|
  {
    if t == [CLOSE] then Some(Done)
    else if t == [] || t[0] != COMMA then None
    else
      match ReadScalar(t[1..])
      case None => None
      case Some((x, after)) =>
        match ReadRest(after)
        case None => None
        case Some(tail) => Some(More(x, tail))
  }

  function ReadArray(t: Text): Option<(Scalar, Scalars)> {
    if t == [] || t[0] != OPEN then None
    else
      match ReadScalar(t[1..])
      case None => None
      case Some((x, after)) =>
        match ReadRest(after)
        case None => None
        case Some(tail) => Some((x, tail))
  }

  lemma {:induction false} ReadPrintedRest(xs: Scalars)
    ensures ReadRest(PrintRest(xs)) == Some(xs)
  {
    hide ReadScalar;
    hide PrintScalar;
    if xs.More? {
      var t := PrintRest(xs);
      ReadPrintedRest(xs.tail);
      ReadPrintedScalar(xs.head, PrintRest(xs.tail));
      assert t[1..] == PrintScalar(xs.head) + PrintRest(xs.tail);
      assert |t| > 1;
    }
  }

  /** Reading undoes printing, so no two arrays share a text. */
  lemma ReadPrintedArray(first: Scalar, rest: Scalars)
    ensures ReadArray(PrintArray(first, rest)) == Some((first, rest))
  {
    hide ReadScalar;
    hide PrintScalar;
    ReadPrintedRest(rest);
    ReadPrintedScalar(first, PrintRest(rest));
    assert PrintArray(first, rest)[1..] == PrintScalar(first) + PrintRest(rest);
  }

  lemma WellFormedScalar(x: Scalar)
    ensures WellFormed(PrintScalar(x))
  {
    match x {
      case Null => AsciiUtf8(NULL_TEXT);
      case Num(n) => AsciiUtf8(PrintScalar(x));
      case Str(s) =>
        WellFormedEscape(s);
        AsciiUtf8([QUOTE]);
        WellFormedAppend([QUOTE], Escape(s));
        WellFormedAppend([QUOTE] + Escape(s), [QUOTE]);
    }
  }

  lemma {:induction false} WellFormedRest(xs: Scalars)
    ensures WellFormed(PrintRest(xs))
  {
    AsciiUtf8([COMMA]);
    AsciiUtf8([CLOSE]);
    if xs.More? {
      WellFormedRest(xs.tail);
      WellFormedScalar(xs.head);
      WellFormedAppend([COMMA], PrintScalar(xs.head));
      WellFormedAppend([COMMA] + PrintScalar(xs.head), PrintRest(xs.tail));
    }
  }

  lemma WellFormedArray(first: Scalar, rest: Scalars)
    ensures WellFormed(PrintArray(first, rest))
  {
    AsciiUtf8([OPEN]);
    WellFormedScalar(first);
    WellFormedRest(rest);
    WellFormedAppend([OPEN], PrintScalar(first));
    WellFormedAppend([OPEN] + PrintScalar(first), PrintRest(rest));
  }

  /** The UTF-8 bytes of an array: what gets hashed. */
  function ArrayBytes(first: Scalar, rest: Scalars): Data {
    WellFormedArray(first, rest);
    Utf8(PrintArray(first, rest))
  }

  lemma ArrayBytesInjective(x: Scalar, xs: Scalars, y: Scalar, ys: Scalars)
    requires ArrayBytes(x, xs) == ArrayBytes(y, ys)
    ensures x == y && xs == ys
  {
    WellFormedArray(x, xs);
    WellFormedArray(y, ys);
    Utf8Injective(PrintArray(x, xs), PrintArray(y, ys));
    ReadPrintedArray(x, xs);
    ReadPrintedArray(y, ys);
  }

  // ---- 0x hex -------------------------------------------------------------------------------------

  function HexBytes(d: Data): (t: Text)
    ensures |t| == 2 * |d|
  {
    if d == [] then [] else [HexDigit(d[0] / 16), HexDigit(d[0] % 16)] + HexBytes(d[1..])
  }

  lemma {:induction false} HexBytesInjective(d: Data, e: Data)
    requires HexBytes(d) == HexBytes(e)
    ensures d == e
  {
    assert |d| == |e|;
    if d != [] {
      var s, t := HexBytes(d), HexBytes(e);
      assert s[0] == t[0] && s[1] == t[1] && s[2..] == HexBytes(d[1..]) && t[2..] == HexBytes(e[1..]);
      HexBytesInjective(d[1..], e[1..]);
      assert d == [d[0]] + d[1..] && e == [e[0]] + e[1..];
    }
  }

  lemma {:induction false} HexBytesPrefix(d: Data, n: nat)
    requires n <= |d|
    ensures HexBytes(d)[..2 * n] == HexBytes(d[..n])
  {
    if n > 0 {
      var head := [HexDigit(d[0] / 16), HexDigit(d[0] % 16)];
      HexBytesPrefix(d[1..], n - 1);
      assert d[..n][1..] == d[1..][..n - 1];
      assert (head + HexBytes(d[1..]))[..2 * n] == head + HexBytes(d[1..])[..2 * (n - 1)];
    }
  }

  /** A digest as lower-case 0x hex. */
  function Hex(d: Digest): Text { [48, 120] + HexBytes(Word(d)) }

  lemma {:induction false} HexBytesInFull(d: Data, i: nat)
    requires i < |d|
    ensures HexBytes(d)[2 * i] == HexChar(d[i] / 16) && HexBytes(d)[2 * i + 1] == HexChar(d[i] % 16)
  {
    HexDigitIsChar(d[i] / 16);
    HexDigitIsChar(d[i] % 16);
    hide HexDigit;
    hide HexChar;
    if i > 0 { HexBytesInFull(d[1..], i - 1); }
  }

  /** 0x, then two lower-case digits for each byte, high half first. */
  lemma HexInFull(d: Digest, i: nat)
    requires i < 32
    ensures |Hex(d)| == 66 && Hex(d)[..2] == Ascii("0x")
    ensures Hex(d)[2 + 2 * i] == HexChar(Word(d)[i] / 16) && Hex(d)[3 + 2 * i] == HexChar(Word(d)[i] % 16)
  {
    HexBytesInFull(Word(d), i);
  }

  lemma HexInjective(d: Digest, e: Digest)
    requires Hex(d) == Hex(e)
    ensures d == e
  {
    assert Hex(d)[2..] == HexBytes(Word(d)) && Hex(e)[2..] == HexBytes(Word(e));
    HexBytesInjective(Word(d), Word(e));
    WordInjective(d, e);
  }
}
