/** The two pieces of text formatting the controller's payloads need:
    Java's decimal rendering of a non-negative `int` (string concatenation
    `"..." + n`) and `String.format("%.4f:%.4f", x, y)` for coordinates held
    in fixed point, as whole ten-thousandths of a unit. */
module Text {
  import Seqs

  predicate IsDigit(c: char) {
    '0' <= c <= '9'
  }

  predicate AllDigits(s: string) {
    forall k :: 0 <= k < |s| ==> IsDigit(s[k])
  }

  function Digit(d: nat): (c: char)
    requires d < 10
    ensures IsDigit(c)
  {
    ('0' as int + d) as char
  }

  function DigitValue(c: char): (d: nat)
    requires IsDigit(c)
    ensures d < 10
  {
    c as int - '0' as int
  }

  /** The number a string of decimal digits denotes. */
  function DigitsValue(s: string): nat
    requires AllDigits(s)
    decreases |s|
  {
    if s == [] then 0 else DigitsValue(s[..|s| - 1]) * 10 + DigitValue(s[|s| - 1])
  }

  /** Java's decimal text of a non-negative `int`: digits only, no sign and
      no leading zero. */
  function DecimalString(n: nat): (s: string)
    ensures |s| >= 1
    decreases n
  {
    if n < 10 then [Digit(n)] else DecimalString(n / 10) + [Digit(n % 10)]
  }

  lemma {:induction false} DecimalStringDigits(n: nat)
    ensures AllDigits(DecimalString(n))
    decreases n
  {
    if n >= 10 {
      DecimalStringDigits(n / 10);
    }
  }

  /** The decimal text is read back as the number it was made from, and
      has no leading zero unless the number is zero. */
  lemma {:induction false} DecimalStringValue(n: nat)
    ensures AllDigits(DecimalString(n))
    ensures DigitsValue(DecimalString(n)) == n
    ensures DecimalString(n)[0] == '0' <==> n == 0
    decreases n
  {
    DecimalStringDigits(n);
    var s := DecimalString(n);
    if n >= 10 {
      DecimalStringValue(n / 10);
      assert s[..|s| - 1] == DecimalString(n / 10);
    }
  }

  function Pow10(k: nat): (p: nat)
    ensures p >= 1
  {
    if k == 0 then 1 else 10 * Pow10(k - 1)
  }

  /** A number below 10^k takes at most k digits. */
  lemma {:induction false} DecimalStringLength(n: nat, k: nat)
    requires 1 <= k && n < Pow10(k)
    ensures |DecimalString(n)| <= k
    decreases k
  {
    if n >= 10 {
      DecimalStringLength(n / 10, k - 1);
    }
  }

  /** Distinct numbers have distinct decimal texts. */
  lemma DecimalStringInjective(m: nat, n: nat)
    requires DecimalString(m) == DecimalString(n)
    ensures m == n
  {
    DecimalStringValue(m);
    DecimalStringValue(n);
  }

  /** The four fractional digits of a fraction of ten-thousandths. */
  function FourDigits(f: nat): (s: string)
    requires f < 10000
    ensures |s| == 4
  {
    [Digit(f / 1000), Digit(f / 100 % 10), Digit(f / 10 % 10), Digit(f % 10)]
  }

  /** `String.format("%.4f", v / 10000.0)` in a locale that writes '.' and
      ASCII digits: an optional minus sign, the integer part, a point and
      exactly four fractional digits. */
  function Fixed4(v: int): string {
    var a := if v < 0 then -v else v;
    (if v < 0 then "-" else "") + DecimalString(a / 10000) + "." + FourDigits(a % 10000)
  }

  /** The shape every `%.4f` rendering has: an optional '-', at least one
      digit, '.', and four digits. */
  predicate IsFixed4(s: string) {
    var body := if |s| > 0 && s[0] == '-' then s[1..] else s;
    |body| >= 6 && body[|body| - 5] == '.'
    && AllDigits(body[..|body| - 5]) && AllDigits(body[|body| - 4..])
  }

  /** The fixed-point value a `%.4f` rendering denotes. */
  function Fixed4Value(s: string): int
    requires IsFixed4(s)
  {
    var neg := |s| > 0 && s[0] == '-';
    var body := if neg then s[1..] else s;
    var m := DigitsValue(body[..|body| - 5]) * 10000 + DigitsValue(body[|body| - 4..]);
    if neg then -m else m
  }

  /** One more digit on the right: ten times the value, plus the digit. */
  lemma DigitsValueSnoc(s: string, c: char)
    requires AllDigits(s) && IsDigit(c)
    ensures AllDigits(s + [c])
    ensures DigitsValue(s + [c]) == DigitsValue(s) * 10 + DigitValue(c)
  {
    assert (s + [c])[..|s|] == s;
  }

  lemma FourDigitsValue(f: nat)
    requires f < 10000
    ensures AllDigits(FourDigits(f))
    ensures DigitsValue(FourDigits(f)) == f
  {
    var d0, d1, d2, d3 := f / 1000, f / 100 % 10, f / 10 % 10, f % 10;
    assert FourDigits(f) == [] + [Digit(d0)] + [Digit(d1)] + [Digit(d2)] + [Digit(d3)];
    DigitsValueSnoc([], Digit(d0));
    DigitsValueSnoc([] + [Digit(d0)], Digit(d1));
    DigitsValueSnoc([] + [Digit(d0)] + [Digit(d1)], Digit(d2));
    DigitsValueSnoc([] + [Digit(d0)] + [Digit(d1)] + [Digit(d2)], Digit(d3));
    assert f / 100 / 10 == d0;
    assert f / 10 / 10 == f / 100;
    assert ((d0 * 10 + d1) * 10 + d2) * 10 + d3 == f;
  }

  /** Where the point and the two digit runs of `ip + "." + fp` sit. */
  lemma Fixed4Body(ip: string, fp: string)
    requires |ip| >= 1 && IsDigit(ip[0]) && |fp| == 4
    ensures var body := ip + "." + fp;
            |body| >= 6 && body[0] != '-' && body[|body| - 5] == '.'
            && body[..|body| - 5] == ip && body[|body| - 4..] == fp
  {
    var body := ip + "." + fp;
    assert body[..|body| - 5] == ip;
    assert body[|body| - 4..] == fp;
  }

  /** A '-', digits, '.', and four digits. */
  lemma ReadSigned(ip: string, fp: string)
    requires |ip| >= 1 && AllDigits(ip) && |fp| == 4 && AllDigits(fp)
    ensures IsFixed4("-" + ip + "." + fp)
            && Fixed4Value("-" + ip + "." + fp) == -(DigitsValue(ip) * 10000 + DigitsValue(fp))
  {
    var body := ip + "." + fp;
    ReadBody(ip, fp);
    Seqs.AppendAssociative("-", ip, ".");
    Seqs.AppendAssociative("-", ip + ".", fp);
    ReadNegative(body);
  }

  /** Digits, '.', and four digits, without a sign. */
  lemma ReadBody(ip: string, fp: string)
    requires |ip| >= 1 && AllDigits(ip) && |fp| == 4 && AllDigits(fp)
    ensures var body := ip + "." + fp;
            IsFixed4(body) && body[0] != '-' && Fixed4Value(body) == DigitsValue(ip) * 10000 + DigitsValue(fp)
  {
    Fixed4Body(ip, fp);
  }

  /** A leading '-' negates a rendering that has none. */
  lemma ReadNegative(body: string)
    requires IsFixed4(body) && body[0] != '-'
    ensures IsFixed4("-" + body) && Fixed4Value("-" + body) == -Fixed4Value(body)
  {
    assert ("-" + body)[1..] == body;
  }

  /** Every rendering has the `%.4f` shape and is read back as the value it
      was made from. */
  lemma Fixed4RoundTrip(v: int)
    ensures IsFixed4(Fixed4(v))
    ensures Fixed4Value(Fixed4(v)) == v
  {
    var a := if v < 0 then -v else v;
    var ip, fp := DecimalString(a / 10000), FourDigits(a % 10000);
    DecimalStringValue(a / 10000);
    FourDigitsValue(a % 10000);
    if v < 0 {
      assert Fixed4(v) == "-" + ip + "." + fp;
      ReadSigned(ip, fp);
    } else {
      assert Fixed4(v) == ip + "." + fp;
      ReadBody(ip, fp);
    }
  }

  /** How many times `c` occurs in `s`. */
  function Count(s: string, c: char): nat
    decreases |s|
  {
    if s == [] then 0 else (if s[0] == c then 1 else 0) + Count(s[1..], c)
  }

  lemma {:induction false} CountAppend(s: string, t: string, c: char)
    ensures Count(s + t, c) == Count(s, c) + Count(t, c)
    decreases |s|
  {
    if s == [] {
      assert s + t == t;
    } else {
      assert (s + t)[1..] == s[1..] + t;
      CountAppend(s[1..], t, c);
    }
  }

  lemma {:induction false} CountAbsent(s: string, c: char)
    requires forall k :: 0 <= k < |s| ==> s[k] != c
    ensures Count(s, c) == 0
    decreases |s|
  {
    if s != [] {
      CountAbsent(s[1..], c);
    }
  }

  /** The MOVE_XY payload `"X:Y"`, each coordinate with four decimals. */
  function Coordinates(x: int, y: int): string {
    Fixed4(x) + ":" + Fixed4(y)
  }

  /** A rendered number holds exactly one '.' and no ':'. */
  lemma Fixed4Marks(v: int)
    ensures Count(Fixed4(v), ':') == 0
    ensures Count(Fixed4(v), '.') == 1
  {
    var a := if v < 0 then -v else v;
    var sign: string := if v < 0 then "-" else "";
    var ip := DecimalString(a / 10000);
    var fp := FourDigits(a % 10000);
    assert Fixed4(v) == sign + ip + "." + fp;
    DecimalStringDigits(a / 10000);
    FourDigitsValue(a % 10000);
    CountAbsent(sign, ':');
    CountAbsent(sign, '.');
    CountAbsent(ip, ':');
    CountAbsent(ip, '.');
    CountAbsent(fp, ':');
    CountAbsent(fp, '.');
    CountAppend(sign, ip, ':');
    CountAppend(sign, ip, '.');
    CountAppend(sign + ip, ".", ':');
    CountAppend(sign + ip, ".", '.');
    CountAppend(sign + ip + ".", fp, ':');
    CountAppend(sign + ip + ".", fp, '.');
  }

  /** The coordinate payload holds exactly one ':', and on each side of it a
      `%.4f` rendering that reads back as the coordinate. */
  lemma CoordinatesShape(x: int, y: int)
    ensures Count(Coordinates(x, y), ':') == 1
    ensures var s := Coordinates(x, y); var k := |Fixed4(x)|;
            k < |s| && s[k] == ':' && IsFixed4(s[..k]) && Fixed4Value(s[..k]) == x
            && IsFixed4(s[k + 1..]) && Fixed4Value(s[k + 1..]) == y
  {
    Fixed4Marks(x);
    Fixed4Marks(y);
    CountAppend(Fixed4(x), ":", ':');
    CountAppend(Fixed4(x) + ":", Fixed4(y), ':');
    Fixed4RoundTrip(x);
    Fixed4RoundTrip(y);
    var s := Coordinates(x, y);
    var k := |Fixed4(x)|;
    assert s[..k] == Fixed4(x);
    assert s[k + 1..] == Fixed4(y);
  }
}
