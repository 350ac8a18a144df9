/** Strings as the program sees them: sequences of UTF-16 code units, their UTF-8 bytes
    and their code-unit order. */
module Text {
  import opened Hashing

  type CodeUnit = u: int | 0 <= u < 0x10000
  type Text = seq<CodeUnit>

  predicate IsHigh(u: CodeUnit) { 0xD800 <= u < 0xDC00 }
  predicate IsLow(u: CodeUnit) { 0xDC00 <= u < 0xE000 }

  function Ascii(s: string): (t: Text)
    requires forall i :: 0 <= i < |s| ==> s[i] < 128 as char
    ensures |t| == |s| && forall i :: 0 <= i < |t| ==> t[i] == s[i] as int && t[i] < 128
  {
    seq(|s|, i requires 0 <= i < |s| => s[i] as int)
  }

  /** Every surrogate is paired: exactly the strings that have a UTF-8 encoding. */
  predicate WellFormed(t: Text) {
    if t == [] then true
    else if IsHigh(t[0]) then |t| >= 2 && IsLow(t[1]) && WellFormed(t[2..])
    else !IsLow(t[0]) && WellFormed(t[1..])
  }

  /** The number of code units of the first code point. */
  function Width(t: Text): (n: nat)
    requires t != [] && WellFormed(t)
    ensures 1 <= n <= 2 && n <= |t| && WellFormed(t[n..])
  {
    if IsHigh(t[0]) then 2 else 1
  }

  function CodePoint(t: Text): (p: nat)
    requires t != [] && WellFormed(t)
    ensures p < 0x110000 && (p >= 0x10000 <==> IsHigh(t[0]))
  {
    if IsHigh(t[0]) then 0x10000 + (t[0] as int - 0xD800) * 0x400 + (t[1] as int - 0xDC00) else t[0]
  }

  function PointBytes(p: nat): (r: Data)
    requires p < 0x110000
    ensures |r| >= 1
  {
    var q := p / 0x40;
    var r := q / 0x40;
    if p < 0x80 then [p]
    else if p < 0x800 then [0xC0 + q, 0x80 + p % 0x40]
    else if p < 0x10000 then [0xE0 + r, 0x80 + q % 0x40, 0x80 + p % 0x40]
    else [0xF0 + r / 0x40, 0x80 + r % 0x40, 0x80 + q % 0x40, 0x80 + p % 0x40]
  }

  function Utf8(t: Text): Data
    requires WellFormed(t)
  {
    if t == [] then [] else PointBytes(CodePoint(t)) + Utf8(t[Width(t)..])
  }

  /** The surrogate pair of a supplementary code point, and the one unit of any other. */
  lemma CodePointInFull(t: Text)
    requires t != [] && WellFormed(t)
    ensures CodePoint(t) < 0x10000 ==> t[0] == CodePoint(t) && t[1..] == t[Width(t)..]
    ensures CodePoint(t) >= 0x10000 ==>
              t[0] == 0xD800 + (CodePoint(t) - 0x10000) / 1024 && t[1] == 0xDC00 + CodePoint(t) % 1024 &&
              t[2..] == t[Width(t)..]
  {
  }

  /** The byte patterns of UTF-8 (section 3 of RFC 3629): how many bytes, their leading bits, and
      the code point in the remaining bits. */
  lemma PointBytesInFull(p: nat)
    requires p < 0x110000
    ensures p <= 0x7F ==> PointBytes(p) == [p]
    ensures var r := PointBytes(p);
            0x80 <= p <= 0x7FF ==>
              |r| == 2 && 0xC0 <= r[0] < 0xE0 && 0x80 <= r[1] < 0xC0 && p == (r[0] as int - 0xC0) * 64 + (r[1] as int - 0x80)
    ensures var r := PointBytes(p);
            0x800 <= p <= 0xFFFF ==>
              |r| == 3 && 0xE0 <= r[0] < 0xF0 && 0x80 <= r[1] < 0xC0 && 0x80 <= r[2] < 0xC0 &&
              p == (r[0] as int - 0xE0) * 4096 + (r[1] as int - 0x80) * 64 + (r[2] as int - 0x80)
    ensures var r := PointBytes(p);
            0x10000 <= p ==>
              |r| == 4 && 0xF0 <= r[0] < 0xF8 && 0x80 <= r[1] < 0xC0 && 0x80 <= r[2] < 0xC0 && 0x80 <= r[3] < 0xC0 &&
              p == (r[0] as int - 0xF0) * 262144 + (r[1] as int - 0x80) * 4096 + (r[2] as int - 0x80) * 64 + (r[3] as int - 0x80)
  {
    var q := p / 0x40;
    var r := q / 0x40;
    assert p == q * 64 + p % 0x40 && q == r * 64 + q % 0x40 && r == r / 0x40 * 64 + r % 0x40;
  }

  /** The code point at the front of a byte string, read back from its first bytes. */
  function ReadPoint(d: Data): int
    requires d != []
  {
    if d[0] < 0x80 || |d| < 2 then d[0]
    else if d[0] < 0xE0 || |d| < 3 then Shift(d[0] as int - 0xC0, d[1])
    else if d[0] < 0xF0 || |d| < 4 then Shift(Shift(d[0] as int - 0xE0, d[1]), d[2])
    else Shift(Shift(Shift(d[0] as int - 0xF0, d[1]), d[2]), d[3])
  }

  function Shift(high: int, continuation: Byte): int { high * 0x40 + (continuation as int - 0x80) }

  lemma ReadPointBytes(p: nat, a: Data)
    requires p < 0x110000
    ensures ReadPoint(PointBytes(p) + a) == p
  {
    var d := PointBytes(p) + a;
    var q := p / 0x40;
    var r := q / 0x40;
    if p < 0x80 {
      assert d[0] == p;
    } else if p < 0x800 {
      assert d[0] == 0xC0 + q && d[1] == 0x80 + p % 0x40;
    } else if p < 0x10000 {
      assert d[0] == 0xE0 + r && d[1] == 0x80 + q % 0x40 && d[2] == 0x80 + p % 0x40;
      assert Shift(r, d[1]) == q;
    } else {
      assert d[0] == 0xF0 + r / 0x40 && d[1] == 0x80 + r % 0x40 && d[2] == 0x80 + q % 0x40 && d[3] == 0x80 + p % 0x40;
      assert Shift(r / 0x40, d[1]) == r;
      assert Shift(r, d[2]) == q;
    }
  }

  /** UTF-8 is a prefix code: one code point's bytes, with anything after them, decide it. */
  lemma PointBytesPrefixFree(p: nat, q: nat, a: Data, b: Data)
    requires p < 0x110000 && q < 0x110000
    requires PointBytes(p) + a == PointBytes(q) + b
    ensures p == q && a == b
  {
    ReadPointBytes(p, a);
    ReadPointBytes(q, b);
    var n := |PointBytes(p)|;
    assert a == (PointBytes(p) + a)[n..] && b == (PointBytes(q) + b)[n..];
  }

  lemma {:induction false} Utf8Injective(s: Text, t: Text)
    requires WellFormed(s) && WellFormed(t) && Utf8(s) == Utf8(t)
    ensures s == t
  {
    if s != [] && t != [] {
      var m, n := Width(s), Width(t);
      PointBytesPrefixFree(CodePoint(s), CodePoint(t), Utf8(s[m..]), Utf8(t[n..]));
      Utf8Injective(s[m..], t[n..]);
      assert s == s[..m] + s[m..] && t == t[..n] + t[n..];
      assert s[..m] == t[..n];
    }
  }

  lemma {:induction false} WellFormedAppend(s: Text, t: Text)
    requires WellFormed(s) && WellFormed(t)
    ensures WellFormed(s + t)
  {
    if s == [] {
      assert s + t == t;
    } else {
      var n := Width(s);
      WellFormedAppend(s[n..], t);
      assert (s + t)[n..] == s[n..] + t;
    }
  }

  /** ASCII text is its own UTF-8. */
  lemma {:induction false} AsciiUtf8(t: Text)
    requires forall i :: 0 <= i < |t| ==> t[i] < 128
    ensures WellFormed(t) && Utf8(t) == t
  {
    if t != [] {
      AsciiUtf8(t[1..]);
      assert t == [t[0]] + t[1..];
    }
  }

  /** JavaScript's string `<=`: code units, left to right, a proper prefix first. */
  predicate TextLe(s: Text, t: Text) {
    if s == [] then true
    else if t == [] then false
    else s[0] < t[0] || (s[0] == t[0] && TextLe(s[1..], t[1..]))
  }

  /** Strictly before in that order. */
  predicate PathBefore(p: Text, q: Text) { TextLe(p, q) && p != q }

  /** The first difference decides, and a proper prefix comes first. */
  lemma {:induction false} TextLeFirstDifference(s: Text, t: Text, k: nat)
    requires k <= |s| && k <= |t| && s[..k] == t[..k]
    ensures k == |s| ==> TextLe(s, t)
    ensures k == |t| < |s| ==> !TextLe(s, t)
    ensures k < |s| && k < |t| && s[k] != t[k] ==> (TextLe(s, t) <==> s[k] < t[k])
  {
    if k > 0 {
      assert s[0] == s[..k][0] == t[..k][0] == t[0];
      assert s[1..][..k - 1] == s[..k][1..] && t[1..][..k - 1] == t[..k][1..];
      TextLeFirstDifference(s[1..], t[1..], k - 1);
    }
  }

  lemma {:induction false} TextLeTotal(s: Text, t: Text)
    ensures TextLe(s, t) || TextLe(t, s)
  {
    if s != [] && t != [] && s[0] == t[0] { TextLeTotal(s[1..], t[1..]); }
  }

  lemma {:induction false} TextLeTransitive(s: Text, t: Text, u: Text)
    requires TextLe(s, t) && TextLe(t, u)
    ensures TextLe(s, u)
  {
    if s != [] && s[0] == t[0] == u[0] { TextLeTransitive(s[1..], t[1..], u[1..]); }
  }

  lemma {:induction false} TextLeAntisymmetric(s: Text, t: Text)
    requires TextLe(s, t) && TextLe(t, s)
    ensures s == t
  {
    if s != [] {
      TextLeAntisymmetric(s[1..], t[1..]);
      assert s == [s[0]] + s[1..] && t == [t[0]] + t[1..];
    }
  }
}
