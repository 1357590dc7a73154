/** The UTF-8 transformation of section 3 of RFC 3629, as `String.getBytes`
    and `new String(bytes, UTF_8)` apply it. A Java string is modelled as a
    Dafny `string`, a sequence of Unicode scalar values. Decoding replaces
    each maximal ill-formed subpart of the input by U+FFFD, the practice
    section 3.9 of the Unicode Standard recommends, with two exceptions the
    Java decoder makes: three octets that encode a surrogate code point
    (ED A0..BF 80..BF) are replaced as one unit, and ED A0..BF followed by
    anything but a continuation octet, or by the end of the input, as one
    unit of two. */
module Utf8 {
  import opened Bytes

  /** U+FFFD REPLACEMENT CHARACTER. */
  const Replacement: char := '\U{FFFD}'

  /** How many octets RFC 3629 section 3 uses for the scalar value `c`. */
  function Width(c: char): (n: nat)
    ensures 1 <= n <= 4
  {
    if c as int < 0x80 then 1
    else if c as int < 0x800 then 2
    else if c as int < 0x1_0000 then 3
    else 4
  }

  predicate IsContinuation(b: byte) {
    0x80 <= b < 0xC0
  }

  /** The octets of one scalar value, most significant bits first. */
  function EncodeChar(c: char): (r: seq<byte>)
    ensures |r| == Width(c)
    ensures forall k :: 1 <= k < |r| ==> IsContinuation(r[k])
  {
    var cp := c as int;
    if cp < 0x80 then [cp]
    else if cp < 0x800 then [0xC0 + cp / 0x40, 0x80 + cp % 0x40]
    else if cp < 0x1_0000 then
      [0xE0 + cp / 0x1000, 0x80 + (cp / 0x40) % 0x40, 0x80 + cp % 0x40]
    else
      [0xF0 + cp / 0x4_0000, 0x80 + (cp / 0x1000) % 0x40,
       0x80 + (cp / 0x40) % 0x40, 0x80 + cp % 0x40]
  }

  /** `s.getBytes(StandardCharsets.UTF_8)`. */
  function Encode(s: string): (r: seq<byte>) {
    EncodeFrom(s, 0)
  }

  /** The octets of `s[i..]`, scalar value by scalar value. */
  function EncodeFrom(s: string, i: nat): seq<byte>
    requires i <= |s|
    decreases |s| - i, 1
  {
    if i == |s| then [] else EncodeAt(s, i)
  }

  /** The octets of `s[i]` and then of what follows it. */
  function EncodeAt(s: string, i: nat): seq<byte>
    requires i < |s|
    decreases |s| - i, 0
  {
    EncodeChar(s[i]) + EncodeFrom(s, i + 1)
  }

  lemma EncodeStep(s: string, i: nat)
    requires i < |s|
    ensures EncodeFrom(s, i) == EncodeChar(s[i]) + EncodeFrom(s, i + 1)
  {
    assert EncodeFrom(s, i) == EncodeAt(s, i);
  }

  lemma {:induction false} EncodeFromSuffix(s: string, i: nat)
    requires i <= |s|
    ensures EncodeFrom(s, i) == Encode(s[i..])
    decreases |s| - i
  {
    if i < |s| {
      EncodeStep(s, i);
      EncodeStep(s[i..], 0);
      EncodeFromSuffix(s, i + 1);
      EncodeFromSuffix(s[i..], 1);
      assert s[i..][1..] == s[i + 1..];
    }
  }

  /** The first scalar value's octets come first. */
  lemma EncodeCons(s: string)
    requires s != []
    ensures Encode(s) == EncodeChar(s[0]) + Encode(s[1..])
  {
    EncodeStep(s, 0);
    EncodeFromSuffix(s, 1);
  }

  /** Encoding distributes over concatenation. */
  lemma {:induction false} EncodeAppend(s: string, t: string)
    ensures Encode(s + t) == Encode(s) + Encode(t)
    decreases |s|
  {
    if s == [] {
      assert s + t == t;
    } else {
      assert (s + t)[1..] == s[1..] + t;
      EncodeCons(s);
      EncodeCons(s + t);
      EncodeAppend(s[1..], t);
    }
  }

  /** Every scalar value takes one to four octets. */
  lemma {:induction false} EncodeLength(s: string)
    ensures |s| <= |Encode(s)| <= 4 * |s|
    decreases |s|
  {
    if s != [] {
      EncodeCons(s);
      EncodeLength(s[1..]);
    }
  }

  /** A string of code points below 0x80 encodes to those code points. */
  lemma {:induction false} EncodeAscii(s: string)
    requires forall k :: 0 <= k < |s| ==> s[k] as int < 0x80
    ensures |Encode(s)| == |s|
    ensures forall k :: 0 <= k < |s| ==> Encode(s)[k] == s[k] as int
    decreases |s|
  {
    if s != [] {
      EncodeCons(s);
      EncodeAscii(s[1..]);
    }
  }

  /** The number of octets of a well-formed sequence that starts with
      `lead`; 0 when `lead` cannot start one (a continuation byte, C0, C1,
      or F5..FF). */
  function SequenceLength(lead: byte): (n: nat)
    ensures n <= 4
  {
    if lead < 0x80 then 1
    else if 0xC2 <= lead < 0xE0 then 2
    else if 0xE0 <= lead < 0xF0 then 3
    else if 0xF0 <= lead < 0xF5 then 4
    else 0
  }

  /** The range the second octet must fall in after `lead` for the decoder
      to read on (the restrictions of RFC 3629 section 4 rule out overlong
      forms and code points past U+10FFFF; surrogates, ED A0..BF, are
      read on and replaced once the third octet is seen). */
  predicate SecondInRange(lead: byte, b: byte) {
    if lead == 0xE0 then 0xA0 <= b < 0xC0
    else if lead == 0xF0 then 0x90 <= b < 0xC0
    else if lead == 0xF4 then 0x80 <= b < 0x90
    else IsContinuation(b)
  }

  /** One decoding step on a non-empty input: the scalar value produced,
      how many octets it consumed, and whether they formed a well-formed
      sequence (false when an ill-formed part was replaced). */
  datatype Step = Step(c: char, used: nat, wellFormed: bool)

  /** The value bits of a continuation octet, or of a lead octet once its
      marker `base` is removed. */
  function Bits(b: byte, base: int): int {
    b as int - base
  }

  function DecodeOne(b: seq<byte>): (r: Step)
    requires |b| > 0
    ensures 1 <= r.used <= |b| && r.used <= 4
    ensures !r.wellFormed ==> r.c == Replacement
    ensures r.wellFormed ==> r.used == SequenceLength(b[0])
  {
    var n := SequenceLength(b[0]);
    if n == 1 then Step(b[0] as char, 1, true)
    else if n == 0 then Step(Replacement, 1, false)
    else if |b| < 2 || !SecondInRange(b[0], b[1]) then Step(Replacement, 1, false)
    else if n == 2 then
      Step((Bits(b[0], 0xC0) * 0x40 + Bits(b[1], 0x80)) as char, 2, true)
    else if |b| < 3 || !IsContinuation(b[2]) then Step(Replacement, 2, false)
    else if n == 3 then
      if b[0] == 0xED && 0xA0 <= b[1] then Step(Replacement, 3, false)
      else Step((Bits(b[0], 0xE0) * 0x1000 + Bits(b[1], 0x80) * 0x40 + Bits(b[2], 0x80)) as char, 3, true)
    else if |b| < 4 || !IsContinuation(b[3]) then Step(Replacement, 3, false)
    else
      Step((Bits(b[0], 0xF0) * 0x4_0000 + Bits(b[1], 0x80) * 0x1000
            + Bits(b[2], 0x80) * 0x40 + Bits(b[3], 0x80)) as char, 4, true)
  }

  /** `new String(b, StandardCharsets.UTF_8)`. */
  function Decode(b: seq<byte>): (s: string)
    ensures |s| <= |b|
    decreases |b|, 1
  {
    if b == [] then [] else DecodeFirst(b)
  }

  /** One scalar value decoded from the front of `b`, then the rest. */
  function DecodeFirst(b: seq<byte>): (s: string)
    requires b != []
    ensures |s| <= |b|
    decreases |b|, 0
  {
    var st := DecodeOne(b);
    [st.c] + Decode(b[st.used..])
  }

  lemma DecodeStep(b: seq<byte>)
    requires b != []
    ensures Decode(b) == [DecodeOne(b).c] + Decode(b[DecodeOne(b).used..])
  {
    assert Decode(b) == DecodeFirst(b);
  }

  /** The octets are one well-formed UTF-8 text: no decoding step
      replaces anything. */
  predicate WellFormed(b: seq<byte>)
    decreases |b|
  {
    b == [] || (DecodeOne(b).wellFormed && WellFormed(b[DecodeOne(b).used..]))
  }

  /** Quotient and remainder by 64, from any decomposition with the
      remainder in range. */
  lemma DivMod64(n: int, q: int, r: int)
    requires 0 <= r < 0x40 && n == q * 0x40 + r
    ensures n / 0x40 == q && n % 0x40 == r
  {
  }

  /** Decoding the octets of `c`, whatever follows them, gives back `c`
      and consumes exactly its octets. */
  lemma DecodeEncodedChar(c: char, rest: seq<byte>)
    ensures DecodeOne(EncodeChar(c) + rest) == Step(c, Width(c), true)
  {
    var cp := c as int;
    var b := EncodeChar(c) + rest;
    if cp < 0x80 {
    } else if cp < 0x800 {
      assert cp == (cp / 0x40) * 0x40 + cp % 0x40;
    } else if cp < 0x1_0000 {
      var q := cp / 0x40;
      assert q / 0x40 == cp / 0x1000;
      assert cp == (cp / 0x1000) * 0x1000 + (q % 0x40) * 0x40 + cp % 0x40;
      assert SecondInRange(b[0], b[1]);
    } else {
      var q := cp / 0x40;
      var q2 := cp / 0x1000;
      assert q / 0x40 == q2;
      assert q2 / 0x40 == cp / 0x4_0000;
      assert cp == (cp / 0x4_0000) * 0x4_0000 + (q2 % 0x40) * 0x1000
                   + (q % 0x40) * 0x40 + cp % 0x40;
      assert SecondInRange(b[0], b[1]);
    }
  }

  /** Round trip: decoding what was encoded gives back the string. */
  lemma {:induction false} DecodeEncode(s: string)
    ensures Decode(Encode(s)) == s
    ensures WellFormed(Encode(s))
    decreases |s|
  {
    if s != [] {
      var b := Encode(s);
      EncodeCons(s);
      DecodeEncodedChar(s[0], Encode(s[1..]));
      DecodeStep(b);
      assert b[Width(s[0])..] == Encode(s[1..]);
      DecodeEncode(s[1..]);
    }
  }

  /** A well-formed step consumes exactly the octets of the scalar value it
      produces. */
  lemma EncodeDecodedChar(b: seq<byte>)
    requires |b| > 0 && DecodeOne(b).wellFormed
    ensures EncodeChar(DecodeOne(b).c) == b[..DecodeOne(b).used]
  {
    var st := DecodeOne(b);
    var cp := st.c as int;
    var n := st.used;
    if n == 2 {
      DivMod64(cp, Bits(b[0], 0xC0), Bits(b[1], 0x80));
    } else if n == 3 {
      var q := Bits(b[0], 0xE0) * 0x40 + Bits(b[1], 0x80);
      DivMod64(cp, q, Bits(b[2], 0x80));
      DivMod64(q, Bits(b[0], 0xE0), Bits(b[1], 0x80));
      assert cp / 0x1000 == Bits(b[0], 0xE0);
    } else if n == 4 {
      var q2 := Bits(b[0], 0xF0) * 0x40 + Bits(b[1], 0x80);
      var q := q2 * 0x40 + Bits(b[2], 0x80);
      DivMod64(cp, q, Bits(b[3], 0x80));
      DivMod64(q, q2, Bits(b[2], 0x80));
      DivMod64(q2, Bits(b[0], 0xF0), Bits(b[1], 0x80));
      assert cp / 0x1000 == q2;
      assert cp / 0x4_0000 == Bits(b[0], 0xF0);
    }
  }

  /** Re-encoding the decoding of well-formed octets reproduces them. */
  lemma {:induction false} WellFormedRoundTrip(b: seq<byte>)
    requires WellFormed(b)
    ensures Encode(Decode(b)) == b
    decreases |b|
  {
    if b != [] {
      var st := DecodeOne(b);
      var tail := b[st.used..];
      WellFormedRoundTrip(tail);
      EncodeDecodedChar(b);
      var d := Decode(tail);
      var s := [st.c] + d;
      DecodeStep(b);
      assert Decode(b) == s;
      assert s[0] == st.c && s[1..] == d;
      EncodeCons(s);
      assert b == b[..st.used] + tail;
    }
  }

  /** Re-encoding a decoded text gives back the octets exactly when they
      were well-formed UTF-8. */
  lemma EncodeDecode(b: seq<byte>)
    ensures Encode(Decode(b)) == b <==> WellFormed(b)
  {
    if WellFormed(b) {
      WellFormedRoundTrip(b);
    }
    DecodeEncode(Decode(b));
  }

  /** An octet that cannot start a sequence (a continuation octet, C0, C1
      or F5..FF) is replaced on its own, so the header's byte count and the
      UTF-8 length of the decoded text can differ. */
  lemma InvalidByteIsReplaced(x: byte, rest: seq<byte>)
    requires SequenceLength(x) == 0
    ensures Decode([x] + rest) == [Replacement] + Decode(rest)
    ensures |Encode([Replacement])| == 3
  {
    var b := [x] + rest;
    assert DecodeOne(b) == Step(Replacement, 1, false);
    DecodeStep(b);
    assert b[1..] == rest;
    EncodeCons([Replacement]);
    assert [Replacement][1..] == [];
  }

  /** The three octets of a surrogate code point, which no scalar value
      has, are replaced by one U+FFFD, as the Java decoder does. */
  lemma SurrogateIsReplaced(second: byte, third: byte, rest: seq<byte>)
    requires 0xA0 <= second < 0xC0 && IsContinuation(third)
    ensures Decode([0xED, second, third] + rest) == [Replacement] + Decode(rest)
  {
    var b := [0xED, second, third] + rest;
    assert DecodeOne(b) == Step(Replacement, 3, false);
    DecodeStep(b);
    assert b[3..] == rest;
  }
}
