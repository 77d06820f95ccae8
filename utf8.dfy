/** UTF-8 as Rust uses it: `str::as_bytes` (Encode), `String::from_utf8` and
    `Read::read_to_string` (Decode, which refuses ill-formed input) and
    `String::from_utf8_lossy` (Lossy, which replaces every maximal ill-formed
    subpart by U+FFFD). Well-formedness follows table 3-7 of the Unicode
    Standard, chapter 3. */
module Utf8 {
  import opened Results
  import opened Bytes

  const REPLACEMENT: char := 0xFFFD as char

  predicate IsAscii(s: string) {
    forall i :: 0 <= i < |s| ==> (s[i] as int) < 0x80
  }

  predicate IsAsciiBytes(b: seq<byte>) {
    forall i :: 0 <= i < |b| ==> b[i] < 0x80
  }

  predicate Cont(b: byte) { 0x80 <= b <= 0xBF }

  /** The range allowed for the second byte of a sequence led by `b0`. */
  predicate SecondOk(b0: byte, b1: byte) {
    if b0 == 0xE0 then 0xA0 <= b1 <= 0xBF
    else if b0 == 0xED then 0x80 <= b1 <= 0x9F
    else if b0 == 0xF0 then 0x90 <= b1 <= 0xBF
    else if b0 == 0xF4 then 0x80 <= b1 <= 0x8F
    else Cont(b1)
  }

  /** The bytes of one scalar value. */
  function EncodeChar(c: char): (b: seq<byte>)
    ensures 1 <= |b| <= 4
  {
    var n := c as int;
    if n < 0x80 then [n]
    else if n < 0x800 then [0xC0 + n / 0x40, 0x80 + n % 0x40]
    else if n < 0x1_0000 then [0xE0 + n / 0x1000, 0x80 + (n / 0x40) % 0x40, 0x80 + n % 0x40]
    else [0xF0 + n / 0x4_0000, 0x80 + (n / 0x1000) % 0x40, 0x80 + (n / 0x40) % 0x40, 0x80 + n % 0x40]
  }

  /** `str::as_bytes` */
  function Encode(s: string): seq<byte> {
    if s == [] then [] else EncodeChar(s[0]) + Encode(s[1..])
  }

  /** Decodes the well-formed sequence at the head of `b`, if there is one,
      giving the scalar value and the number of bytes it takes. */
  function DecodeOne(b: seq<byte>): (r: Option<(char, nat)>)
    requires |b| > 0
    ensures r.Some? ==> 1 <= r.value.1 <= |b| && r.value.1 <= 4
  {
    var b0 := b[0] as int;
    var b1 := if |b| >= 2 then b[1] as int else 0;
    var b2 := if |b| >= 3 then b[2] as int else 0;
    var b3 := if |b| >= 4 then b[3] as int else 0;
    if b0 < 0x80 then Some((b0 as char, 1))
    else if 0xC2 <= b0 <= 0xDF then
      if |b| >= 2 && Cont(b[1]) then
        Some((((b0 - 0xC0) * 0x40 + (b1 - 0x80)) as char, 2))
      else None
    else if 0xE0 <= b0 <= 0xEF then
      if |b| >= 3 && SecondOk(b[0], b[1]) && Cont(b[2]) then
        var n := (b0 - 0xE0) * 0x1000 + (b1 - 0x80) * 0x40 + (b2 - 0x80);
        assert 0x800 <= n < 0xD800 || 0xE000 <= n < 0x1_0000;
        Some((n as char, 3))
      else None
    else if 0xF0 <= b0 <= 0xF4 then
      if |b| >= 4 && SecondOk(b[0], b[1]) && Cont(b[2]) && Cont(b[3]) then
        var n := (b0 - 0xF0) * 0x4_0000 + (b1 - 0x80) * 0x1000 + (b2 - 0x80) * 0x40 + (b3 - 0x80);
        assert 0x1_0000 <= n < 0x11_0000;
        Some((n as char, 4))
      else None
    else None
  }

  /** `String::from_utf8`: the text, or None when `b` is not well-formed UTF-8. */
  function Decode(b: seq<byte>): Option<string>
    decreases |b|
  {
    if b == [] then Some([])
    else match DecodeOne(b)
      case None => None
      case Some((c, k)) =>
        match Decode(b[k..])
        case None => None
        case Some(s) => Some([c] + s)
  }

  /** Length of the maximal subpart of an ill-formed sequence at the head of
      `b`: the longest prefix that could still begin a well-formed sequence,
      and at least one byte. */
  function Subpart(b: seq<byte>): (k: nat)
    requires |b| > 0
    ensures 1 <= k <= |b|
  {
    if !(0xC2 <= b[0] <= 0xF4) then 1
    else if |b| < 2 || !SecondOk(b[0], b[1]) then 1
    else if b[0] < 0xE0 || |b| < 3 || !Cont(b[2]) then 2
    else 3
  }

  /** `String::from_utf8_lossy` */
  function Lossy(b: seq<byte>): string
    decreases |b|
  {
    if b == [] then []
    else match DecodeOne(b)
      case Some((c, k)) => [c] + Lossy(b[k..])
      case None => [REPLACEMENT] + Lossy(b[Subpart(b)..])
  }

  // ---- properties ----

  lemma DecodeOneEncodeChar(c: char, rest: seq<byte>)
    ensures DecodeOne(EncodeChar(c) + rest) == Some((c, |EncodeChar(c)|))
  {
    var n := c as int;
    if n < 0x80 {
    } else if n < 0x800 {
      DecodeTwo(c, rest);
    } else if n < 0x1_0000 {
      DecodeThree(c, rest);
    } else {
      DecodeFour(c, rest);
    }
  }

  lemma DecodeTwo(c: char, rest: seq<byte>)
    requires 0x80 <= c as int < 0x800
    ensures DecodeOne(EncodeChar(c) + rest) == Some((c, 2))
  {
    var n := c as int;
    var b0, b1 := 0xC0 + n / 0x40, 0x80 + n % 0x40;
    assert EncodeChar(c) == [b0, b1];
    var b := EncodeChar(c) + rest;
    assert b[0] == b0 && b[1] == b1;
    assert n == (n / 0x40) * 0x40 + n % 0x40;
    assert (b0 - 0xC0) * 0x40 + (b1 - 0x80) == n;
  }

  lemma DecodeThree(c: char, rest: seq<byte>)
    requires 0x800 <= c as int < 0x1_0000
    ensures DecodeOne(EncodeChar(c) + rest) == Some((c, 3))
  {
    var n := c as int;
    var q := n / 0x40;
    var b0, b1, b2 := 0xE0 + n / 0x1000, 0x80 + q % 0x40, 0x80 + n % 0x40;
    assert EncodeChar(c) == [b0, b1, b2];
    var b := EncodeChar(c) + rest;
    assert b[0] == b0 && b[1] == b1 && b[2] == b2;
    assert n == q * 0x40 + n % 0x40;
    assert q == (q / 0x40) * 0x40 + q % 0x40;
    assert q / 0x40 == n / 0x1000;
    assert (b0 - 0xE0) * 0x1000 + (b1 - 0x80) * 0x40 + (b2 - 0x80) == n;
    assert SecondOk(b0, b1);
  }

  lemma DecodeFour(c: char, rest: seq<byte>)
    requires 0x1_0000 <= c as int
    ensures DecodeOne(EncodeChar(c) + rest) == Some((c, 4))
  {
    var n := c as int;
    var q := n / 0x40;
    var q2 := n / 0x1000;
    var b0, b1, b2, b3 := 0xF0 + n / 0x4_0000, 0x80 + q2 % 0x40, 0x80 + q % 0x40, 0x80 + n % 0x40;
    assert EncodeChar(c) == [b0, b1, b2, b3];
    var b := EncodeChar(c) + rest;
    assert b[0] == b0 && b[1] == b1 && b[2] == b2 && b[3] == b3;
    assert n == q * 0x40 + n % 0x40;
    assert q == (q / 0x40) * 0x40 + q % 0x40;
    assert q / 0x40 == q2;
    assert q2 == (q2 / 0x40) * 0x40 + q2 % 0x40;
    assert q2 / 0x40 == n / 0x4_0000;
    assert (b0 - 0xF0) * 0x4_0000 + (b1 - 0x80) * 0x1000 + (b2 - 0x80) * 0x40 + (b3 - 0x80) == n;
    assert SecondOk(b0, b1);
  }

  /** Decoding what `as_bytes` produced gives the text back. */
  lemma {:induction false} DecodeEncode(s: string)
    ensures Decode(Encode(s)) == Some(s)
  {
    if s != [] {
      var e := EncodeChar(s[0]);
      assert Encode(s) == e + Encode(s[1..]);
      DecodeOneEncodeChar(s[0], Encode(s[1..]));
      assert Encode(s)[|e|..] == Encode(s[1..]);
      DecodeEncode(s[1..]);
      assert [s[0]] + s[1..] == s;
    }
  }

  lemma SplitTwo(b0: int, b1: int)
    requires 0xC2 <= b0 <= 0xDF && 0x80 <= b1 <= 0xBF
    ensures var n := (b0 - 0xC0) * 0x40 + (b1 - 0x80);
      n < 0x800 && n / 0x40 == b0 - 0xC0 && n % 0x40 == b1 - 0x80
  {
  }

  lemma SplitThree(b0: int, b1: int, b2: int)
    requires 0xE0 <= b0 <= 0xEF && 0x80 <= b1 <= 0xBF && 0x80 <= b2 <= 0xBF
    ensures var n := (b0 - 0xE0) * 0x1000 + (b1 - 0x80) * 0x40 + (b2 - 0x80);
      n < 0x1_0000 && n / 0x1000 == b0 - 0xE0 && (n / 0x40) % 0x40 == b1 - 0x80 && n % 0x40 == b2 - 0x80
  {
    var n := (b0 - 0xE0) * 0x1000 + (b1 - 0x80) * 0x40 + (b2 - 0x80);
    var q := (b0 - 0xE0) * 0x40 + (b1 - 0x80);
    assert n == q * 0x40 + (b2 - 0x80);
    assert n / 0x40 == q;
    assert q / 0x40 == b0 - 0xE0;
  }

  lemma SplitFour(b0: int, b1: int, b2: int, b3: int)
    requires 0xF0 <= b0 <= 0xF4 && 0x80 <= b1 <= 0xBF && 0x80 <= b2 <= 0xBF && 0x80 <= b3 <= 0xBF
    ensures var n := (b0 - 0xF0) * 0x4_0000 + (b1 - 0x80) * 0x1000 + (b2 - 0x80) * 0x40 + (b3 - 0x80);
      n / 0x4_0000 == b0 - 0xF0 && (n / 0x1000) % 0x40 == b1 - 0x80 &&
      (n / 0x40) % 0x40 == b2 - 0x80 && n % 0x40 == b3 - 0x80
  {
    var n := (b0 - 0xF0) * 0x4_0000 + (b1 - 0x80) * 0x1000 + (b2 - 0x80) * 0x40 + (b3 - 0x80);
    var q1 := (b0 - 0xF0) * 0x40 + (b1 - 0x80);
    var q2 := q1 * 0x40 + (b2 - 0x80);
    assert n == q2 * 0x40 + (b3 - 0x80);
    assert n / 0x40 == q2;
    assert q2 / 0x40 == q1;
    assert n / 0x1000 == q1 by {
      assert n == q1 * 0x1000 + ((b2 - 0x80) * 0x40 + (b3 - 0x80));
    }
    assert q1 / 0x40 == b0 - 0xF0;
    assert n / 0x4_0000 == b0 - 0xF0 by {
      assert n == (b0 - 0xF0) * 0x4_0000 + ((b1 - 0x80) * 0x1000 + (b2 - 0x80) * 0x40 + (b3 - 0x80));
    }
  }

  lemma EncodeCharDecodeOne(b: seq<byte>)
    requires |b| > 0 && DecodeOne(b).Some?
    ensures EncodeChar(DecodeOne(b).value.0) == b[..DecodeOne(b).value.1]
  {
    var b0 := b[0] as int;
    if b0 < 0x80 {
    } else if b0 <= 0xDF {
      EncodeTwo(b);
    } else if b0 <= 0xEF {
      EncodeThree(b);
    } else {
      EncodeFour(b);
    }
  }

  lemma EncodeTwo(b: seq<byte>)
    requires |b| >= 2 && 0xC2 <= b[0] <= 0xDF && Cont(b[1])
    ensures DecodeOne(b).Some? && EncodeChar(DecodeOne(b).value.0) == b[..2]
  {
    var b0, b1 := b[0] as int, b[1] as int;
    var n := (b0 - 0xC0) * 0x40 + (b1 - 0x80);
    assert DecodeOne(b) == Some((n as char, 2));
    SplitTwo(b0, b1);
    assert EncodeChar(n as char) == [0xC0 + n / 0x40, 0x80 + n % 0x40];
  }

  lemma EncodeThree(b: seq<byte>)
    requires |b| >= 3 && 0xE0 <= b[0] <= 0xEF && SecondOk(b[0], b[1]) && Cont(b[2])
    ensures DecodeOne(b).Some? && EncodeChar(DecodeOne(b).value.0) == b[..3]
  {
    var b0, b1, b2 := b[0] as int, b[1] as int, b[2] as int;
    var n := (b0 - 0xE0) * 0x1000 + (b1 - 0x80) * 0x40 + (b2 - 0x80);
    assert DecodeOne(b) == Some((n as char, 3));
    SplitThree(b0, b1, b2);
    assert n >= 0x800;
    assert EncodeChar(n as char) == [0xE0 + n / 0x1000, 0x80 + (n / 0x40) % 0x40, 0x80 + n % 0x40];
  }

  lemma EncodeFour(b: seq<byte>)
    requires |b| >= 4 && 0xF0 <= b[0] <= 0xF4 && SecondOk(b[0], b[1]) && Cont(b[2]) && Cont(b[3])
    ensures DecodeOne(b).Some? && EncodeChar(DecodeOne(b).value.0) == b[..4]
  {
    var b0, b1, b2, b3 := b[0] as int, b[1] as int, b[2] as int, b[3] as int;
    var n := (b0 - 0xF0) * 0x4_0000 + (b1 - 0x80) * 0x1000 + (b2 - 0x80) * 0x40 + (b3 - 0x80);
    assert DecodeOne(b) == Some((n as char, 4));
    SplitFour(b0, b1, b2, b3);
    assert n >= 0x1_0000;
    assert EncodeChar(n as char) == [0xF0 + n / 0x4_0000, 0x80 + (n / 0x1000) % 0x40, 0x80 + (n / 0x40) % 0x40, 0x80 + n % 0x40];
  }

  /** Well-formed input decodes to the one text whose bytes it is. */
  lemma {:induction false} EncodeDecode(b: seq<byte>)
    requires Decode(b).Some?
    ensures Encode(Decode(b).value) == b
    decreases |b|
  {
    if b != [] {
      var c := DecodeOne(b).value.0;
      var k := DecodeOne(b).value.1;
      var rest := Decode(b[k..]).value;
      assert Decode(b).value == [c] + rest;
      assert ([c] + rest)[0] == c && ([c] + rest)[1..] == rest;
      assert Encode(Decode(b).value) == EncodeChar(c) + Encode(rest);
      EncodeCharDecodeOne(b);
      EncodeDecode(b[k..]);
      assert b == b[..k] + b[k..];
    }
  }

  lemma {:induction false} EncodeAppend(s: string, t: string)
    ensures Encode(s + t) == Encode(s) + Encode(t)
  {
    if s != [] {
      var u := s + t;
      assert u[0] == s[0] && u[1..] == s[1..] + t;
      EncodeAppend(s[1..], t);
      assert Encode(u) == EncodeChar(s[0]) + (Encode(s[1..]) + Encode(t));
    } else {
      assert s + t == t;
    }
  }

  /** An ASCII text is encoded byte for byte. */
  lemma {:induction false} EncodeAscii(s: string)
    requires IsAscii(s)
    ensures |Encode(s)| == |s|
    ensures forall i :: 0 <= i < |s| ==> Encode(s)[i] == s[i] as int
  {
    if s != [] {
      EncodeAscii(s[1..]);
    }
  }

  /** Decoding never yields more characters than there are bytes. */
  lemma {:induction false} DecodeLength(b: seq<byte>)
    requires Decode(b).Some?
    ensures |Decode(b).value| <= |b|
    decreases |b|
  {
    if b != [] {
      DecodeLength(b[DecodeOne(b).value.1..]);
    }
  }

  /** `from_utf8_lossy` agrees with `from_utf8` on well-formed input. */
  lemma {:induction false} LossyOfValid(b: seq<byte>)
    requires Decode(b).Some?
    ensures Lossy(b) == Decode(b).value
    decreases |b|
  {
    if b != [] {
      LossyOfValid(b[DecodeOne(b).value.1..]);
    }
  }

  /** The only way `from_utf8_lossy` yields ASCII text is from the very same
      ASCII bytes: replacement characters and decoded multi-byte sequences
      are never ASCII. */
  lemma {:induction false} LossyAscii(b: seq<byte>)
    requires IsAscii(Lossy(b))
    ensures IsAsciiBytes(b)
    ensures |Lossy(b)| == |b|
    ensures forall i :: 0 <= i < |b| ==> Lossy(b)[i] as int == b[i]
    decreases |b|
  {
    if b != [] {
      match DecodeOne(b)
      case Some((c, k)) =>
        assert Lossy(b)[0] == c;
        assert b[0] < 0x80 && k == 1;
        assert Lossy(b) == [c] + Lossy(b[1..]);
        assert forall i :: 0 <= i < |Lossy(b[1..])| ==> Lossy(b[1..])[i] == Lossy(b)[i + 1];
        LossyAscii(b[1..]);
        assert Lossy(b) == [c] + Lossy(b[1..]);
      case None =>
        assert false;
    }
  }

  /** Converse: ASCII bytes are decoded one character per byte. */
  lemma {:induction false} LossyOfAscii(b: seq<byte>)
    requires IsAsciiBytes(b)
    ensures |Lossy(b)| == |b|
    ensures forall i :: 0 <= i < |b| ==> Lossy(b)[i] as int == b[i]
    decreases |b|
  {
    if b != [] {
      LossyOfAscii(b[1..]);
    }
  }
}
