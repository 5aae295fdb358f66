// The text of the arbitrary-precision integers (web/sqflite_sw.js, `k`, `u_`, `u0`, `oi`): decimal text in
// both directions, in chunks of four digits, and hexadecimal text, which is read only.

module DecimalText {
  import opened Basics
  import opened Products

  type DecimalDigit = c: char | '0' <= c <= '9' witness '0'

  function DigitChar(d: nat): (c: DecimalDigit)
    requires d < 10
  {
    '0' + d as char
  }

  function DigitValue(c: char): (d: nat)
    requires '0' <= c <= '9'
    ensures d < 10
  {
    c as int - '0' as int
  }

  predicate AllDigits(s: string) {
    forall i :: 0 <= i < |s| ==> '0' <= s[i] <= '9'
  }

  /** The decimal numeral of n, without leading zeros. */
  function Numeral(n: nat): (s: string)
    ensures |s| > 0 && AllDigits(s)
  {
    if n < 10 then [DigitChar(n)] else Numeral(n / 10) + [DigitChar(n % 10)]
  }

  /** The number that a digit string stands for. */
  function NumeralValue(s: string): nat
    requires AllDigits(s)
  {
    if s == "" then 0 else 10 * NumeralValue(s[..|s| - 1]) + DigitValue(s[|s| - 1])
  }

  function Text(n: int): string {
    if n < 0 then "-" + Numeral(-n) else Numeral(n)
  }

  /** Digit by digit: the value of a digit string, and that numerals have no leading zeros. */
  lemma NumeralValueIs(d: string, i: nat)
    requires AllDigits(d) && i < 10
    ensures NumeralValue("") == 0 && '0' <= "0123456789"[i] <= '9'
    ensures NumeralValue(d + ["0123456789"[i]]) == 10 * NumeralValue(d) + i
  {
    assert (d + ["0123456789"[i]])[..|d|] == d;
  }

  lemma {:induction false} NoLeadingZeros(n: nat)
    ensures Numeral(n)[0] == '0' <==> n == 0
  {
    if n >= 10 { NoLeadingZeros(n / 10); }
  }

  lemma {:induction false} NumeralRoundTrip(n: nat)
    ensures NumeralValue(Numeral(n)) == n
  {
    if n >= 10 {
      NumeralRoundTrip(n / 10);
      var s := Numeral(n);
      assert s[..|s| - 1] == Numeral(n / 10);
    }
  }

  /** w < 10000 with leading zeros up to four digits. */
  function Padded(w: nat): string
    requires w < 10000
  {
    [DigitChar(w / 1000), DigitChar(w / 100 % 10), DigitChar(w / 10 % 10), DigitChar(w % 10)]
  }

  /** The zeros that `k` pushes in front of a chunk. */
  function Padding(length: nat): string {
    if length == 1 then "000" else if length == 2 then "00" else if length == 3 then "0" else ""
  }

  lemma NumeralStep(v: nat)
    ensures v < 10 ==> Numeral(v) == [DigitChar(v)]
    ensures v >= 10 ==> Numeral(v) == Numeral(v / 10) + [DigitChar(v % 10)]
  {
  }

  lemma PaddingFills(w: nat)
    requires w < 10000
    ensures Padding(|Numeral(w)|) + Numeral(w) == Padded(w)
    ensures |Numeral(w)| <= 4
  {
    hide Numeral, DigitChar;
    DigitZero();
    DigitsOf(w);
    NumeralStep(w);
    if w >= 10 {
      NumeralStep(w / 10);
      if w >= 100 {
        NumeralStep(w / 100);
        if w >= 1000 { NumeralStep(w / 1000); }
      }
    }
  }

  lemma DigitZero()
    ensures DigitChar(0) == '0'
  {
  }

  /** Splitting off the last four digits. */
  lemma LastChunk(v: nat)
    requires v >= 10000
    ensures Numeral(v) == Numeral(v / 10000) + Padded(v % 10000)
  {
    hide Numeral, DigitChar;
    NumeralStep(v);
    NumeralStep(v / 10);
    NumeralStep(v / 100);
    NumeralStep(v / 1000);
    DigitsOf(v);
    Append4(Numeral(v / 10000), DigitChar(v / 1000 % 10), DigitChar(v / 100 % 10), DigitChar(v / 10 % 10),
      DigitChar(v % 10));
  }

  lemma DigitsOf(v: nat)
    ensures v / 10 / 10 == v / 100 && v / 100 / 10 == v / 1000 && v / 1000 / 10 == v / 10000
    ensures var w := v % 10000;
      && w % 10 == v % 10 && w / 10 % 10 == v / 10 % 10
      && w / 100 % 10 == v / 100 % 10 && w / 1000 == v / 1000 % 10
  {
    var v1 := v / 10;
    var v2 := v1 / 10;
    var v3 := v2 / 10;
    var v4 := v3 / 10;
    var d0, d1, d2, d3 := v % 10, v1 % 10, v2 % 10, v3 % 10;
    assert v == d0 + 10 * d1 + 100 * d2 + 1000 * d3 + 10000 * v4;
    assert v2 == v / 100 && v3 == v / 1000 && v4 == v / 10000;
    var w := v % 10000;
    assert w == d0 + 10 * d1 + 100 * d2 + 1000 * d3;
    assert w / 10 == d1 + 10 * d2 + 100 * d3 && w / 100 == d2 + 10 * d3;
  }

  lemma Append4(s: string, a: char, b: char, c: char, d: char)
    ensures s + [a] + [b] + [c] + [d] == s + [a, b, c, d]
  {
  }

  /** The pushed pieces, joined back to front. */
  function JoinReversed(parts: seq<string>): string {
    if parts == [] then "" else parts[|parts| - 1] + JoinReversed(parts[..|parts| - 1])
  }

  lemma PushPart(parts: seq<string>, p: string)
    ensures JoinReversed(parts + [p]) == p + JoinReversed(parts)
  {
    assert (parts + [p])[..|parts|] == parts;
  }

  // ----- the numerals that the regular expression of `oi` accepts

  datatype Signed = Signed(neg: bool, digits: string)

  /** White space in the sense of `\\s`. */
  predicate IsSpace(c: char) {
    var n := c as int;
    || n == 0x20 || 0x09 <= n <= 0x0D || n == 0xA0 || n == 0x1680 || 0x2000 <= n <= 0x200A
    || n == 0x2028 || n == 0x2029 || n == 0x202F || n == 0x205F || n == 0x3000 || n == 0xFEFF
  }

  /** The white space characters and line terminators of ECMAScript. */
  lemma SpacesAre(c: char)
    ensures IsSpace(c) <==>
      c as int in {9, 10, 11, 12, 13, 32, 160, 5760, 8192, 8193, 8194, 8195, 8196, 8197, 8198, 8199, 8200, 8201,
        8202, 8232, 8233, 8239, 8287, 12288, 65279}
  {
  }

  predicate Blank(s: string) {
    forall i :: 0 <= i < |s| ==> IsSpace(s[i])
  }

  function TrimLeft(s: string): (t: string)
    ensures |t| <= |s|
  {
    if s != "" && IsSpace(s[0]) then TrimLeft(s[1..]) else s
  }

  function TrimRight(s: string): (t: string)
    ensures |t| <= |s|
  {
    if s != "" && IsSpace(s[|s| - 1]) then TrimRight(s[..|s| - 1]) else s
  }

  lemma {:induction false} TrimLeftOf(l: string, u: string)
    requires Blank(l) && u != "" && !IsSpace(u[0])
    ensures TrimLeft(l + u) == u
  {
    if l == "" {
      assert l + u == u;
    } else {
      TrimLeftOf(l[1..], u);
      assert (l + u)[1..] == l[1..] + u;
    }
  }

  lemma {:induction false} TrimRightOf(u: string, r: string)
    requires Blank(r) && u != "" && !IsSpace(u[|u| - 1])
    ensures TrimRight(u + r) == u
  {
    if r == "" {
      assert u + r == u;
    } else {
      TrimRightOf(u, r[..|r| - 1]);
      assert (u + r)[..|u + r| - 1] == u + r[..|r| - 1];
    }
  }

  lemma {:induction false} TrimmedLeft(s: string) returns (l: string)
    ensures Blank(l) && s == l + TrimLeft(s)
  {
    if s != "" && IsSpace(s[0]) {
      l := TrimmedLeft(s[1..]);
      l := [s[0]] + l;
      assert s == [s[0]] + s[1..];
    } else {
      l := "";
    }
  }

  lemma {:induction false} TrimmedRight(s: string) returns (r: string)
    ensures Blank(r) && s == TrimRight(s) + r
  {
    if s != "" && IsSpace(s[|s| - 1]) {
      r := TrimmedRight(s[..|s| - 1]);
      r := r + [s[|s| - 1]];
      assert s == s[..|s| - 1] + [s[|s| - 1]];
    } else {
      r := "";
    }
  }

  predicate IsSign(sign: string) {
    sign == "" || sign == "+" || sign == "-"
  }

  /** The text without white space around it, and without its sign. */
  function Unsigned(a: string): Signed {
    var t := TrimRight(TrimLeft(a));
    var signed := t != "" && (t[0] == '-' || t[0] == '+');
    Signed(signed && t[0] == '-', if signed then t[1..] else t)
  }

  /** Only a minus sign negates. */
  lemma UnsignedOf(l: string, sign: string, d: string, r: string)
    requires Blank(l) && Blank(r) && IsSign(sign) && d != "" && d[0] != '+' && d[0] != '-'
    requires !IsSpace(d[0]) && !IsSpace(d[|d| - 1])
    ensures Unsigned(l + sign + d + r) == Signed(sign == "-", d)
  {
    var t := sign + d;
    assert l + sign + d + r == l + (t + r) && t[|t| - 1] == d[|d| - 1];
    TrimLeftOf(l, t + r);
    TrimRightOf(t, r);
    assert sign == "" ==> t == d;
    assert sign != "" ==> t[0] == sign[0] && t[1..] == d;
  }

  /** Whatever text it is, it is made like that. */
  lemma UnsignedFrom(a: string) returns (l: string, sign: string, r: string)
    ensures Blank(l) && Blank(r) && IsSign(sign) && a == l + sign + Unsigned(a).digits + r
  {
    l := TrimmedLeft(a);
    r := TrimmedRight(TrimLeft(a));
    var t := TrimRight(TrimLeft(a));
    sign := "";
    if t != "" && (t[0] == '-' || t[0] == '+') {
      sign := [t[0]];
      assert t == sign + t[1..];
    }
    assert l + (t + r) == l + t + r;
    assert l + (sign + Unsigned(a).digits) + r == l + sign + Unsigned(a).digits + r;
  }

  function MatchDecimal(a: string): (m: Option<Signed>)
    ensures m.Some? ==> AllDigits(m.value.digits) && m.value.digits != ""
  {
    var u := Unsigned(a);
    if u.digits != "" && AllDigits(u.digits) then Some(u) else None
  }

  function SignedValue(s: Signed): int
    requires AllDigits(s.digits)
  {
    if s.neg then -(NumeralValue(s.digits) as int) else NumeralValue(s.digits)
  }

  /** The text is a minus sign exactly for negative numbers, and digits without leading zeros. */
  lemma TextShape(n: int)
    ensures var d := if n < 0 then Text(n)[1..] else Text(n);
      && AllDigits(d) && d != "" && (d[0] == '0' <==> n == 0)
      && Text(n) == if n < 0 then "-" + d else d
  {
    NoLeadingZeros(if n < 0 then -n else n);
    hide Numeral;
    if n < 0 { assert ("-" + Numeral(-n))[1..] == Numeral(-n); }
  }

  /** Every integer's text is accepted, and means that integer. */
  lemma TextRoundTrip(n: int)
    ensures MatchDecimal(Text(n)).Some? && SignedValue(MatchDecimal(Text(n)).value) == n
  {
    var s, d := Text(n), Numeral(if n < 0 then -n else n);
    NumeralRoundTrip(if n < 0 then -n else n);
    assert '0' <= d[0] <= '9' && '0' <= d[|d| - 1] <= '9';
    assert TrimLeft(s) == s && s[|s| - 1] == d[|d| - 1];
    assert TrimRight(s) == s;
    if n < 0 { assert s[1..] == d; }
  }

  function Pow10(n: nat): (p: nat)
    ensures p > 0
  {
    if n == 0 then 1 else 10 * Pow10(n - 1)
  }

  /** r characters are read: q stands for the finished chunks, s for the t digits after them. */
  ghost predicate Read(a: string, r: nat, q: int, s: int, t: nat)
    requires AllDigits(a) && r <= |a|
  {
    NumeralValue(a[..r]) == q * Pow10(t) + s && 0 <= s < Pow10(t)
  }

  lemma ReadDigit(a: string, r: nat, q: nat, s: nat, t: nat)
    requires AllDigits(a) && r < |a| && Read(a, r, q, s, t)
    ensures Read(a, r + 1, q, s * 10 + DigitValue(a[r]), t + 1)
  {
    assert a[..r + 1][..r] == a[..r];
    Commute(q, Pow10(t));
    Commute(q, Pow10(t + 1));
    Regroup(10, Pow10(t), q);
  }

  lemma ReadNothing(a: string)
    requires AllDigits(a)
    ensures Read(a, 0, 0, 0, 0)
  {
  }

  /** A finished chunk has four digits, unless it is the first. */
  lemma ReadChunk(a: string, r: nat, q: nat, s: nat, t: nat)
    requires AllDigits(a) && r <= |a| && Read(a, r, q, s, t)
    requires t == 4 || q == 0
    ensures Read(a, r, q * 10000 + s, 0, 0)
  {
    assert Pow10(4) == 10 * (10 * (10 * (10 * Pow10(0))));
  }

  lemma ReadAll(a: string, q: nat, s: nat)
    requires AllDigits(a) && Read(a, |a|, q, s, 0)
    ensures q == NumeralValue(a)
  {
    assert a[..|a|] == a;
  }
}

/** Hexadecimal numerals, four of whose digits make one of the number's. */
module HexText {
  import opened Basics
  import opened Products
  import opened DecimalText

  predicate IsHex(c: char) {
    '0' <= c <= '9' || 'a' <= c <= 'f' || 'A' <= c <= 'F'
  }

  predicate AllHex(s: string) {
    forall i :: 0 <= i < |s| ==> IsHex(s[i])
  }

  /** `pB` on a hexadecimal digit. */
  function HexDigit(c: char): (d: nat)
    requires IsHex(c)
    ensures d < 16
  {
    if c <= '9' then c as int - 48 else if c <= 'F' then c as int - 55 else c as int - 87
  }

  /** The number that a string of hexadecimal digits stands for. */
  function HexValue(s: string): nat
    requires AllHex(s)
  {
    if s == "" then 0 else 16 * HexValue(s[..|s| - 1]) + HexDigit(s[|s| - 1])
  }

  /** The pattern ignores case. */
  function MatchHex(a: string): (m: Option<Signed>)
    ensures m.Some? ==> AllHex(m.value.digits) && m.value.digits != ""
  {
    var u := Unsigned(a);
    var d := u.digits;
    if |d| > 2 && d[0] == '0' && (d[1] == 'x' || d[1] == 'X') && AllHex(d[2..])
      then Some(Signed(u.neg, d[2..])) else None
  }

  /** The number that a text stands for, if it stands for one. */
  function Meaning(a: string): Option<int> {
    match (MatchDecimal(a), MatchHex(a))
    case (Some(d), _) => Some(SignedValue(d))
    case (None, Some(h)) => Some(if h.neg then -(HexValue(h.digits) as int) else HexValue(h.digits))
    case (None, None) => None
  }

  function Lower(s: string): (t: string)
    ensures |t| == |s|
    ensures forall i :: 0 <= i < |s| ==> t[i] == if 'A' <= s[i] <= 'Z' then (s[i] as int + 32) as char else s[i]
  {
    if s == "" then "" else
      var c := s[|s| - 1];
      Lower(s[..|s| - 1]) + [if 'A' <= c <= 'Z' then (c as int + 32) as char else c]
  }

  /** Case does not matter. */
  lemma {:induction false} LowerValue(s: string)
    requires AllHex(s)
    ensures AllHex(Lower(s)) && HexValue(Lower(s)) == HexValue(s)
  {
    if s != "" {
      LowerValue(s[..|s| - 1]);
      assert Lower(s)[..|s| - 1] == Lower(s[..|s| - 1]);
    }
  }

  /** Digit by digit: the value of a string of hexadecimal digits. */
  lemma HexValueIs(d: string, i: nat)
    requires AllHex(d) && i < 16
    ensures HexValue("") == 0 && IsHex("0123456789abcdef"[i]) && IsHex("0123456789ABCDEF"[i])
    ensures HexValue(d + ["0123456789abcdef"[i]]) == 16 * HexValue(d) + i
    ensures HexValue(d + ["0123456789ABCDEF"[i]]) == 16 * HexValue(d) + i
  {
    assert (d + ["0123456789abcdef"[i]])[..|d|] == d && (d + ["0123456789ABCDEF"[i]])[..|d|] == d;
  }

  function Negated(sign: string, n: nat): int {
    if sign == "-" then -(n as int) else n
  }

  predicate IsPrefix(x: string) {
    x == "0x" || x == "0X"
  }

  /** A decimal numeral with white space around it and a sign. */
  lemma DecimalMeans(l: string, sign: string, d: string, r: string)
    requires Blank(l) && Blank(r) && IsSign(sign) && AllDigits(d) && d != ""
    ensures Meaning(l + sign + d + r) == Some(Negated(sign, NumeralValue(d)))
  {
    hide Unsigned, HexValue, NumeralValue;
    assert '0' <= d[0] <= '9' && '0' <= d[|d| - 1] <= '9';
    UnsignedOf(l, sign, d, r);
  }

  /** A hexadecimal one. */
  lemma PrefixedMeans(l: string, sign: string, x: string, d: string, r: string)
    requires Blank(l) && Blank(r) && IsSign(sign) && IsPrefix(x) && AllHex(d) && d != ""
    ensures Meaning(l + sign + x + d + r) == Some(Negated(sign, HexValue(d)))
  {
    hide Unsigned, HexValue, NumeralValue;
    var xd := x + d;
    assert IsHex(d[|d| - 1]) && xd[|xd| - 1] == d[|d| - 1] && xd[0] == '0';
    UnsignedOf(l, sign, xd, r);
    assert l + sign + xd + r == l + sign + x + d + r;
    assert xd[2..] == d && (xd[1] == 'x' || xd[1] == 'X') && !AllDigits(xd);
  }

  /** Nothing else has a meaning. */
  lemma OnlyNumerals(a: string) returns (l: string, sign: string, x: string, d: string, r: string)
    requires Meaning(a).Some?
    ensures a == l + sign + x + d + r && Blank(l) && Blank(r) && IsSign(sign) && d != ""
    ensures (x == "" && AllDigits(d)) || (IsPrefix(x) && AllHex(d))
  {
    hide Unsigned, HexValue, NumeralValue;
    l, sign, r := UnsignedFrom(a);
    var u := Unsigned(a).digits;
    if MatchDecimal(a).Some? {
      x, d := "", u;
      assert l + sign + "" == l + sign;
    } else {
      x, d := u[..2], u[2..];
      assert u == x + d && x == [u[0], u[1]];
      assert l + sign + (x + d) == l + sign + x + d;
    }
  }

  /** The hexadecimal numeral of n, without leading zeros. */
  function HexNumeral(n: nat): (s: string)
    ensures |s| > 0 && AllHex(s)
  {
    var d := n % 16;
    var c := if d < 10 then '0' + d as char else 'a' + (d - 10) as char;
    if n < 16 then [c] else HexNumeral(n / 16) + [c]
  }

  lemma {:induction false} HexRoundTrip(n: nat)
    ensures HexValue(HexNumeral(n)) == n
  {
    if n >= 16 {
      HexRoundTrip(n / 16);
      var s := HexNumeral(n);
      assert s[..|s| - 1] == HexNumeral(n / 16);
    } else {
      assert HexNumeral(n)[..0] == "";
    }
  }

  function HexText(n: int): string {
    if n < 0 then "-0x" + HexNumeral(-n) else "0x" + HexNumeral(n)
  }

  lemma NothingToTrim(s: string)
    requires s != "" && !IsSpace(s[0]) && !IsSpace(s[|s| - 1])
    ensures TrimRight(TrimLeft(s)) == s
  {
  }

  lemma HexUnsigned(d: string)
    requires AllHex(d) && d != ""
    ensures Unsigned("0x" + d) == Signed(false, "0x" + d) && Unsigned("-0x" + d) == Signed(true, "0x" + d)
  {
    assert IsHex(d[|d| - 1]);
    NothingToTrim("0x" + d);
    NothingToTrim("-0x" + d);
    assert ("-0x" + d)[1..] == "0x" + d;
  }

  lemma HexMeans(a: string, neg: bool, d: string)
    requires AllHex(d) && d != "" && Unsigned(a) == Signed(neg, "0x" + d)
    ensures Meaning(a) == Some(if neg then -(HexValue(d) as int) else HexValue(d))
  {
    hide Unsigned, HexValue, NumeralValue;
    assert ("0x" + d)[1] == 'x' && ("0x" + d)[2..] == d;
  }

  /** Every integer's hexadecimal text is accepted, and means that integer. */
  lemma HexTextRoundTrip(n: int)
    ensures Meaning(HexText(n)) == Some(n)
  {
    hide HexNumeral, HexValue, Unsigned, Meaning;
    var d := HexNumeral(if n < 0 then -n else n);
    HexRoundTrip(if n < 0 then -n else n);
    HexUnsigned(d);
    HexMeans(HexText(n), n < 0, d);
  }

  function Pow16(n: nat): nat {
    if n == 0 then 1 else 16 * Pow16(n - 1)
  }

  lemma HexSnoc(a: string, s: nat)
    requires AllHex(a) && s < |a|
    ensures HexValue(a[..s + 1]) == 16 * HexValue(a[..s]) + HexDigit(a[s])
  {
    assert a[..s + 1][..s] == a[..s];
  }

  /** q hexadecimal digits behind the first s. */
  ghost predicate HexRead(a: string, s: nat, q: nat, r: nat)
    requires AllHex(a) && s + q <= |a|
  {
    HexValue(a[..s + q]) == HexValue(a[..s]) * Pow16(q) + r && r < Pow16(q)
  }

  lemma HexReadOne(a: string, s: nat, q: nat, r: nat)
    requires AllHex(a) && s + q < |a| && HexRead(a, s, q, r)
    ensures HexRead(a, s, q + 1, 16 * r + HexDigit(a[s + q]))
  {
    hide HexValue, HexDigit;
    HexSnoc(a, s + q);
    var v := HexValue(a[..s]);
    Regroup(v, 16, Pow16(q));
    Regroup(16, v, Pow16(q));
    Commute(v, 16);
  }

  lemma HexReadNone(a: string, s: nat)
    requires AllHex(a) && s <= |a|
    ensures HexRead(a, s, 0, 0)
  {
  }

  lemma HexChunk(a: string, s: nat, q: nat, r: nat)
    requires AllHex(a) && s + q <= |a| && HexRead(a, s, q, r) && q <= 4
    ensures r < 65536
    ensures q == 4 ==> HexValue(a[..s + q]) == 65536 * HexValue(a[..s]) + r
    ensures s == 0 ==> HexValue(a[..q]) == r
  {
    hide HexValue;
    assert Pow16(0) == 1 && Pow16(1) == 16 && Pow16(2) == 256 && Pow16(3) == 4096 && Pow16(4) == 65536;
    assert s == 0 ==> a[..s] == "";
    NoHex();
  }

  lemma NoHex()
    ensures HexValue("") == 0
  {
  }
}

module BigText {
  import opened Basics
  import opened DigitValues
  import opened BigInts
  import opened BigDivision
  import opened DecimalText
  import opened HexText

  /** A non-negative number of at most one digit. */
  lemma OneDigitNumber(x: BigInt)
    requires x.Valid()
    ensures 0 <= x.Abs() < 65536 ==> x.used <= 1
    ensures x.used > 1 ==> x.Abs() >= 65536
    ensures x.used == 1 ==> x.Abs() == x.digits[0]
  {
    AbsZero(x);
    if x.used == 1 {
      assert x.digits[..1] == [x.digits[0]];
      ValEmpty();
    }
    if x.used > 1 {
      PowMonotone(1, x.used - 1);
    }
  }

  lemma ChunkOff(v: nat)
    requires v >= 10000
    ensures TruncatedQuotient(v, 10000) == v / 10000 && TruncatedRemainder(v, 10000) == v % 10000
  {
    TruncatedDivision(v, 10000, v / 10000, v % 10000);
  }

  /** Push a chunk and the zeros that fill it up. */
  method PushChunk(parts0: seq<string>, p: string) returns (parts: seq<string>)
    ensures JoinReversed(parts) == Padding(|p|) + p + JoinReversed(parts0)
  {
    hide JoinReversed;
    PushPart(parts0, p);
    parts := parts0 + [p];
    ghost var pushed := JoinReversed(parts);
    if |p| == 1 { PushPart(parts, "000"); parts := parts + ["000"]; }
    if |p| == 2 { PushPart(parts, "00"); parts := parts + ["00"]; }
    if |p| == 3 { PushPart(parts, "0"); parts := parts + ["0"]; }
    Reassociate(Padding(|p|), p, JoinReversed(parts0));
    if |p| == 0 || |p| > 3 { assert "" + pushed == pushed; }
  }

  /** `k`. */
  method ToString(x: BigInt, cache: DivisionCache) returns (text: string)
    requires x.Valid() && cache.Valid()
    modifies cache
    ensures text == Text(x.Value()) && cache.Valid()
    ensures fresh(cache.quoRem) || cache.quoRem == old(cache.quoRem)
    decreases x.used, 1
  {
    hide Val, Pow, Numeral, DivisionCache.Valid, JoinReversed;
    AbsZero(x);
    OneDigitNumber(x);
    NumeralOfZero();
    if x.used == 0 {
      return "0";
    }
    if x.used == 1 {
      if x.neg {
        return "-" + Numeral(x.digits[0]);
      }
      return Numeral(x.digits[0]);
    }
    var r := x;
    if x.neg { r := Negate(x); }
    AbsZero(r);
    var parts := Chunks(r, x.used, cache);
    if x.neg {
      PushPart(parts, "-");
      parts := parts + ["-"];
    }
    text := JoinReversed(parts);
  }

  /** The loop of `k`: the pieces of a positive number, last four digits first. */
  method Chunks(x: BigInt, ghost size: nat, cache: DivisionCache) returns (parts: seq<string>)
    requires x.Valid() && x.Value() > 0 && cache.Valid() && size > 1
    modifies cache
    ensures JoinReversed(parts) == Numeral(x.Value()) && cache.Valid()
    ensures fresh(cache.quoRem) || cache.quoRem == old(cache.quoRem)
    decreases size, 0
  {
    hide Val, Pow, Numeral, DivisionCache.Valid, TruncatedQuotient, TruncatedRemainder, Padded, Padding;
    parts := [];
    var r := x;
    var q := FromInt(10000);
    while r.used > 1
      invariant cache.Valid() && q.Valid() && q.Value() == 10000
      invariant fresh(cache.quoRem) || cache.quoRem == old(cache.quoRem)
      invariant r.Valid() && r.Value() > 0 && Numeral(x.Value()) == Numeral(r.Value()) + JoinReversed(parts)
      decreases r.Value()
    {
      ghost var v, tail := r.Value(), JoinReversed(parts);
      OneDigitNumber(r);
      ChunkOff(v);
      var chunk := cache.RemainderOf(r, q);
      OneDigitNumber(chunk);
      var p := ToString(chunk, cache);
      PaddingFills(v % 10000);
      LastChunk(v);
      parts := PushChunk(parts, p);
      Reassociate(Numeral(v / 10000), Padded(v % 10000), tail);
      r := cache.QuotientOf(r, q);
    }
    OneDigitNumber(r);
    AbsZero(r);
    PushPart(parts, Numeral(r.digits[0]));
    parts := parts + [Numeral(r.digits[0])];
  }

  lemma NumeralOfZero()
    ensures Numeral(0) == "0"
  {
  }

  /** The first chunk is short enough for the last one to be full. */
  lemma LastChunkEnds(p: nat, o0: nat, o: nat, chunks: nat)
    requires o0 == if 4 - p % 4 == 4 then 0 else 4 - p % 4
    requires o < 4 && p + o0 == 4 * chunks + o
    ensures o == 0
  {
  }

  method AppendChunk(x: BigInt, thousands: BigInt, s: nat) returns (r: BigInt)
    requires x.Valid() && thousands.Valid() && thousands.Value() == 10000
    ensures r.Valid() && r.Value() == x.Value() * 10000 + s
  {
    var scaled := Multiply(x, thousands);
    var chunk := FromInt(s);
    r := Add(scaled, chunk);
  }

  /** `u_`: the value of a string of decimal digits, negated if asked. */
  method ParseDigits(a: string, neg: bool) returns (x: BigInt)
    requires AllDigits(a)
    ensures x.Valid() && x.Value() == SignedValue(Signed(neg, a))
  {
    hide NumeralValue, Val, Pow, Read, Pow10, BigInt.Abs, BigInt.Value;
    var p := |a|;
    var o := 4 - p % 4;
    if o == 4 { o := 0; }
    ghost var o0, t, chunks := o, 0, 0;
    x := FromInt(0);
    var thousands := FromInt(10000);
    var s, r := 0, 0;
    ReadNothing(a);
    while r < p
      invariant 0 <= r <= p && x.Valid() && x.Value() >= 0 && thousands.Valid() && thousands.Value() == 10000
      invariant 0 <= t <= o < 4 && r + o0 == 4 * chunks + o
      invariant t == o || (x.Value() == 0 && t == r)
      invariant s >= 0 && Read(a, r, x.Value(), s, t)
    {
      ReadDigit(a, r, x.Value(), s, t);
      s := s * 10 + DigitValue(a[r]);
      o, t, r := o + 1, t + 1, r + 1;
      if o == 4 {
        ReadChunk(a, r, x.Value(), s, t);
        x := AppendChunk(x, thousands, s);
        s, o, t, chunks := 0, 0, 0, chunks + 1;
      }
    }
    LastChunkEnds(p, o0, o, chunks);
    ReadAll(a, x.Value(), s);
    if neg {
      x := Negate(x);
    }
  }

  /** The inner loops of `u0`: up to four digits. */
  method ReadHex(a: string, s: nat, count: nat) returns (r: nat)
    requires AllHex(a) && s + count <= |a| && count <= 4
    ensures HexRead(a, s, count, r)
  {
    hide HexRead, HexDigit;
    r := 0;
    HexReadNone(a, s);
    for q := 0 to count
      invariant HexRead(a, s, q, r)
    {
      HexReadOne(a, s, q, r);
      r := r * 16 + HexDigit(a[s + q]);
    }
  }

  /** `u0`: the value of a string of hexadecimal digits, negated if asked; the array is filled from its end. */
  method ParseHex(a: string, neg: bool) returns (x: BigInt)
    requires AllHex(a) && a != ""
    ensures x.Valid() && x.Value() == if neg then -(HexValue(a) as int) else HexValue(a)
  {
    hide HexValue, HexDigit, HexRead, Val, Pow, BigInt.Value, BigInt.Abs;
    var k := |a|;
    var j := (k + 3) / 4;
    var i := new Digit[j](_ => 0);
    var n := j - 1;
    var s := k - n * 4;
    var r := ReadHex(a, 0, s);
    HexChunk(a, 0, s, r);
    i[n] := r;
    ValEmpty();
    assert i[..][n..] == [r];
    while s < k
      invariant 0 <= n < j == i.Length && s == k - 4 * n && Val(i[..][n..]) == HexValue(a[..s])
      decreases n
    {
      ghost var high := i[..][n..];
      r := ReadHex(a, s, 4);
      HexChunk(a, s, 4, r);
      s := s + 4;
      n := n - 1;
      i[n] := r;
      assert i[..][n..] == [r] + high;
      ValPushed(r, high);
    }
    assert i[..][0..] == i[..j] && a[..s] == a;
    x := Make(neg, i, j);
  }

  lemma ValPushed(d: Digit, high: seq<Digit>)
    ensures Val([d] + high) == d + 65536 * Val(high)
  {
  }

  /** `oi`; None for text that is neither form. */
  method Parse(a: string) returns (x: Option<BigInt>)
    ensures x.Some? <==> Meaning(a).Some?
    ensures x.Some? ==> x.value.Valid() && x.value.Value() == Meaning(a).value
  {
    hide Unsigned, NumeralValue, HexValue, BigInt.Value;
    if a == "" {
      NothingMatches();
      return None;
    }
    var decimal := MatchDecimal(a);
    if decimal.Some? {
      var y := ParseDigits(decimal.value.digits, decimal.value.neg);
      return Some(y);
    }
    var hex := MatchHex(a);
    if hex.Some? {
      var y := ParseHex(hex.value.digits, hex.value.neg);
      return Some(y);
    }
    x := None;
  }

  lemma NothingMatches()
    ensures MatchDecimal("") == None && MatchHex("") == None
  {
  }

  /** Printing and parsing again gives the same number. */
  method PrintAndParse(x: BigInt, cache: DivisionCache) returns (y: BigInt)
    requires x.Valid() && cache.Valid()
    modifies cache
    ensures y.Valid() && y.Value() == x.Value() && cache.Valid()
    ensures fresh(cache.quoRem) || cache.quoRem == old(cache.quoRem)
  {
    hide DivisionCache.Valid, Unsigned, NumeralValue, Val, Text, MatchDecimal;
    var text := ToString(x, cache);
    TextRoundTrip(x.Value());
    var parsed := Parse(text);
    y := parsed.value;
  }
}
