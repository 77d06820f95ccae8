/** The connection primitives of `AdbClient`: the status word, the request
    header written by `send`, and the exact-length, length-prefixed and
    little-endian reads. The TCP stream is modelled by the bytes the server
    sends (consumed through a cursor) and the bytes written to it. */
module Client {
  import opened Results
  import opened Bytes
  import opened Utf8
  import opened IntParse
  import Io
  import opened AdbErrors

  /** `AdbConnState` */
  datatype ConnState = OKAY | FAIL | DENT | DONE | DATA

  /** `Into<String> for AdbConnState` */
  function Name(s: ConnState): string {
    match s
    case OKAY => "OKAY"
    case FAIL => "FAIL"
    case DENT => "DENT"
    case DONE => "DONE"
    case DATA => "DATA"
  }

  /** `From<&[u8; 4]> for AdbConnState`: the lossy text of the four bytes is
      compared with "OKAY"; every other word is FAIL. */
  function FromStatus(buf: seq<byte>): ConnState
    requires |buf| == 4
  {
    if Lossy(buf) == "OKAY" then OKAY else FAIL
  }

  /** The bytes of the word "OKAY" on the wire. */
  const OkayBytes: seq<byte> := [0x4F, 0x4B, 0x41, 0x59]

  const Refused: AdbError := IoError(Io.Error(Io.ConnectionRefused, "got wrong state from adb server"))

  /** The error of `read_n_bytes` / `read_n_string` when the stream ends early. */
  function ShortRead(n: nat, got: nat): AdbError {
    IoError(Io.Error(Io.UnexpectedEof, "expect read " + Decimal(n) + " bytes but read " + Decimal(got) + " bytes"))
  }

  // ---- the request header of `send` ----

  /** The digits `{:X}` writes. */
  predicate IsUpperHexDigit(c: char) {
    '0' <= c <= '9' || 'A' <= c <= 'F'
  }

  function HexDigitValue(c: char): nat {
    if '0' <= c <= '9' then c as int - '0' as int
    else if 'A' <= c <= 'F' then c as int - 'A' as int + 10
    else 0
  }

  function HexDigit(d: nat): (c: char)
    requires d < 16
    ensures IsUpperHexDigit(c) && HexDigitValue(c) == d
  {
    if d < 10 then DigitChar(d) else ('A' as int + (d - 10)) as char
  }

  /** Value of a hexadecimal digit string (reference definition). */
  function HexValue(s: string): int {
    if s == [] then 0
    else
      HexValue(s[..|s| - 1]) * 16 + HexDigitValue(s[|s| - 1])
  }

  /** `format!("{:X}", b)`: upper-case hexadecimal, no padding. */
  function UpperHex(b: byte): (s: string)
    ensures |s| == (if b < 16 then 1 else 2)
    ensures IsAscii(s)
    ensures forall i :: 0 <= i < |s| ==> IsUpperHexDigit(s[i])
    ensures HexValue(s) == b
  {
    if b < 16 then [HexDigit(b)] else
      var s := [HexDigit(b / 16), HexDigit(b % 16)];
      assert s[..1] == [HexDigit(b / 16)];
      assert [HexDigit(b / 16)][..0] == [];
      assert HexValue(s[..1]) == b / 16;
      s
  }

  /** A hexadecimal digit is fixed by its value. */
  lemma HexDigitValueInjective(c: char, d: char)
    requires IsUpperHexDigit(c) && IsUpperHexDigit(d) && HexDigitValue(c) == HexDigitValue(d)
    ensures c == d && HexDigitValue(c) < 16
  {
  }

  /** `{:X}` is the only unpadded upper-case spelling of a byte: any text of
      the same length, made of the same digits and with the same value, is
      `UpperHex(b)`. */
  lemma UpperHexUnique(b: byte, s: string)
    requires |s| == (if b < 16 then 1 else 2)
    requires forall i :: 0 <= i < |s| ==> IsUpperHexDigit(s[i])
    requires HexValue(s) == b
    ensures s == UpperHex(b)
  {
    var t := UpperHex(b);
    HexValueTwo(s);
    HexValueTwo(t);
    if b < 16 {
      HexDigitValueInjective(s[0], t[0]);
    } else {
      HexDigitValueInjective(s[1], s[1]);
      HexDigitValueInjective(t[1], t[1]);
      DigitsOfByte(b, HexDigitValue(s[0]), HexDigitValue(s[1]));
      DigitsOfByte(b, HexDigitValue(t[0]), HexDigitValue(t[1]));
      HexDigitValueInjective(s[0], t[0]);
      HexDigitValueInjective(s[1], t[1]);
    }
  }

  /** The value of a text of one or two digits. */
  lemma HexValueTwo(s: string)
    requires 1 <= |s| <= 2
    ensures |s| == 1 ==> HexValue(s) == HexDigitValue(s[0])
    ensures |s| == 2 ==> HexValue(s) == HexDigitValue(s[0]) * 16 + HexDigitValue(s[1])
  {
    assert s[..|s| - 1][..0] == [];
    if |s| == 2 {
      assert s[..1] == [s[0]];
    }
  }

  lemma DigitsOfByte(b: int, hi: int, lo: int)
    requires 0 <= lo < 16 && b == hi * 16 + lo
    ensures hi == b / 16 && lo == b % 16
  {
  }

  /** The fold at the start of `send`: the `{:X}` texts of the given bytes,
      appended left to right. */
  function HexFold(acc: string, bs: seq<byte>): string
    decreases |bs|
  {
    if bs == [] then acc else HexFold(acc + UpperHex(bs[0]), bs[1..])
  }

  /** The four bytes "000C" that `send` writes before every command. */
  const SendHeader: seq<byte> := [0x30, 0x30, 0x30, 0x43]

  // ---- what each read does to the remaining input ----

  /** The outcome of a read: its result and how many input bytes it consumed. */
  datatype Step<T> = Step(result: Result<T, AdbError>, used: nat)

  function Min(a: nat, b: nat): nat { if a <= b then a else b }

  /** `Read::take(n)` followed by `read_to_end`. */
  function Take(rem: seq<byte>, n: nat): seq<byte> {
    rem[..Min(n, |rem|)]
  }

  /** `Read::read_exact` into a buffer of `n` bytes (io errors become `AdbError`). */
  function ReadExactStep(rem: seq<byte>, n: nat): Step<seq<byte>> {
    if n <= |rem| then Step(Ok(rem[..n]), n) else Step(Err(FromIo(Io.FillWholeBuffer)), |rem|)
  }

  /** `read_n_bytes` */
  function ReadNBytesStep(rem: seq<byte>, n: nat): Step<seq<byte>> {
    var got := Take(rem, n);
    if |got| < n then Step(Err(ShortRead(n, |got|)), |got|) else Step(Ok(got), |got|)
  }

  /** `read_n_string`: `read_to_string` refuses bytes that are not UTF-8
      before the length is compared. */
  function ReadNStringStep(rem: seq<byte>, n: nat): Step<string> {
    var got := Take(rem, n);
    match Decode(got)
    case None => Step(Err(FromIo(Io.NotUtf8)), |got|)
    case Some(s) => if |got| < n then Step(Err(ShortRead(n, |got|)), |got|) else Step(Ok(s), |got|)
  }

  /** `read_string`: four length bytes, their lossy text parsed by
      `u32::from_str`, then `read_n_string` of that length. */
  function ReadStringStep(rem: seq<byte>): Step<string> {
    var len := ReadExactStep(rem, 4);
    match len.result
    case Err(e) => Step(Err(e), len.used)
    case Ok(buf) =>
      match ParseU32(Lossy(buf))
      case Err(k) => Step(Err(FromParseInt(k)), 4)
      case Ok(n) =>
        var body := ReadNStringStep(rem[4..], n);
        Step(body.result, 4 + body.used)
  }

  /** `read_u32`: one `read` into a zeroed 4-byte buffer, which takes the
      bytes that are there, at most four, then `u32::from_le_bytes`. */
  function ReadU32Step(rem: seq<byte>): Step<u32> {
    var k := Min(4, |rem|);
    var buf := rem[..k] + seq(4 - k, _ => 0);
    Step(Ok(FromLe(buf)), k)
  }

  /** `conn_code` */
  function ConnCodeStep(rem: seq<byte>): Step<ConnState> {
    var code := ReadExactStep(rem, 4);
    match code.result
    case Err(e) => Step(Err(e), code.used)
    case Ok(buf) => Step(Ok(FromStatus(buf)), 4)
  }

  /** `check_code_is` */
  function CheckCodeIsStep(rem: seq<byte>, expected: ConnState): Step<bool> {
    var code := ConnCodeStep(rem);
    match code.result
    case Err(e) => Step(Err(e), code.used)
    case Ok(state) => Step(Ok(state == expected), code.used)
  }

  /** `check_ok` */
  function CheckOkStep(rem: seq<byte>): Step<Unit> {
    var check := CheckCodeIsStep(rem, OKAY);
    match check.result
    case Err(e) => Step(Err(e), check.used)
    case Ok(same) => if same then Step(Ok(Unit), check.used) else Step(Err(Refused), check.used)
  }

  /** `rend_full_string`: `read_to_string` of everything that is left. */
  function FullStringStep(rem: seq<byte>): Step<string> {
    match Decode(rem)
    case None => Step(Err(FromIo(Io.NotUtf8)), |rem|)
    case Some(s) => Step(Ok(s), |rem|)
  }

  // ---- properties of the status word, the header and the reads ----

  lemma OkayBytesText()
    ensures Encode("OKAY") == OkayBytes
  {
    EncodeAscii("OKAY");
  }

  /** Decoding a status word yields OKAY exactly for the bytes "OKAY" and
      FAIL for every other word: DENT, DONE and DATA are never decoded. */
  lemma FromStatusOkay(buf: seq<byte>)
    requires |buf| == 4
    ensures FromStatus(buf) == OKAY <==> buf == OkayBytes
    ensures FromStatus(buf) == OKAY || FromStatus(buf) == FAIL
  {
    if buf == OkayBytes {
      LossyOfAscii(buf);
      assert Lossy(buf) == "OKAY";
    }
    if Lossy(buf) == "OKAY" {
      LossyAscii(buf);
      assert buf == OkayBytes;
    }
  }

  /** Every state is written as its own four-letter name; reading that name
      back gives the same state only for OKAY and FAIL. */
  lemma StatusRoundTrip(s: ConnState)
    ensures |Encode(Name(s))| == 4
    ensures FromStatus(Encode(Name(s))) == s <==> (s == OKAY || s == FAIL)
  {
    EncodeAscii(Name(s));
    var b := Encode(Name(s));
    FromStatusOkay(b);
    if s != OKAY {
      assert b[0] != 0x4F;
    }
  }

  /** The header `send` writes is always "000C": the unpadded `{:X}` texts
      of the big-endian bytes 0, 0, 0, 12. */
  lemma SendHeaderValue()
    ensures Encode(HexFold([], ToBe(|"host:version"|))) == SendHeader
    ensures SendHeader == Encode("000C")
  {
    HeaderText();
    EncodeAscii("000C");
  }

  lemma HeaderText()
    ensures HexFold([], ToBe(|"host:version"|)) == "000C"
  {
    assert |"host:version"| == 12;
    assert ToBe(12) == [0, 0, 0, 12];
    var zero, c := UpperHex(0), UpperHex(12);
    assert zero == "0" && c == "C";
    assert HexFold([], [0, 0, 0, 12]) == HexFold(zero, [0, 0, 12]);
    assert HexFold(zero, [0, 0, 12]) == HexFold(zero + zero, [0, 12]);
    assert HexFold(zero + zero, [0, 12]) == HexFold(zero + zero + zero, [12]);
    assert HexFold(zero + zero + zero, [12]) == zero + zero + zero + c;
  }

  /** `check_ok` consumes four bytes and succeeds exactly when they are
      "OKAY"; any other word is refused, and a stream with fewer than four
      bytes left fails as `read_exact` does. */
  lemma CheckOkSpec(rem: seq<byte>)
    ensures CheckOkStep(rem) ==
      if |rem| < 4 then Step(Err(IoError(Io.FillWholeBuffer)), |rem|)
      else if rem[..4] == OkayBytes then Step(Ok(Unit), 4)
      else Step(Err(Refused), 4)
  {
    if |rem| >= 4 {
      FromStatusOkay(rem[..4]);
    }
  }

  /** `read_n_bytes` succeeds exactly when `n` bytes remain and then yields
      the next `n` bytes; otherwise it reports how many it got. */
  lemma ReadNBytesSpec(rem: seq<byte>, n: nat)
    ensures ReadNBytesStep(rem, n).used == Min(n, |rem|)
    ensures ReadNBytesStep(rem, n).result ==
      if n <= |rem| then Ok(rem[..n]) else Err(ShortRead(n, |rem|))
  {
  }

  /** `read_n_string` succeeds exactly when `n` bytes remain and they are
      UTF-8; the text it yields is exactly those bytes. Ill-formed bytes are
      reported before a short stream. */
  lemma ReadNStringSpec(rem: seq<byte>, n: nat)
    ensures ReadNStringStep(rem, n).used == Min(n, |rem|)
    ensures ReadNStringStep(rem, n).result.Ok? <==> n <= |rem| && Decode(rem[..n]).Some?
    ensures ReadNStringStep(rem, n).result.Ok? ==> Encode(ReadNStringStep(rem, n).result.value) == rem[..n]
    ensures Decode(Take(rem, n)).None? ==> ReadNStringStep(rem, n).result == Err(IoError(Io.NotUtf8))
    ensures Decode(Take(rem, n)).Some? && |rem| < n ==> ReadNStringStep(rem, n).result == Err(ShortRead(n, |rem|))
  {
    if Decode(Take(rem, n)).Some? {
      EncodeDecode(Take(rem, n));
    }
  }

  /** The two exact-length reads agree: when the text read succeeds, the
      byte read of the same input yields the bytes of that text. */
  lemma ReadNStringAgrees(rem: seq<byte>, n: nat)
    requires ReadNStringStep(rem, n).result.Ok?
    ensures ReadNBytesStep(rem, n) == Step(Ok(Encode(ReadNStringStep(rem, n).result.value)), n)
  {
    ReadNStringSpec(rem, n);
  }

  /** `read_string`: a length field that is not a u32 literal is a parse
      error (not an io error) after four bytes; otherwise the declared
      number of following bytes is read as text, and on success the text is
      exactly those bytes. */
  lemma ReadStringSpec(rem: seq<byte>)
    ensures |rem| < 4 ==> ReadStringStep(rem) == Step(Err(IoError(Io.FillWholeBuffer)), |rem|)
    ensures |rem| >= 4 && !IsU32Literal(Lossy(rem[..4])) ==>
      ReadStringStep(rem).used == 4 && ReadStringStep(rem).result.Err? &&
      ReadStringStep(rem).result.error.ProtocolParseError?
    ensures |rem| >= 4 && IsU32Literal(Lossy(rem[..4])) ==>
      var n := Value(Unsigned(Lossy(rem[..4])));
      var body := ReadNStringStep(rem[4..], n);
      ReadStringStep(rem) == Step(body.result, 4 + body.used) &&
      (body.result.Err? ==> body.result.error.IoError?) &&
      (body.result.Ok? ==> 4 + n <= |rem| && Encode(body.result.value) == rem[4..4 + n])
  {
    if |rem| >= 4 {
      var text := Lossy(rem[..4]);
      ParseU32Spec(text);
      if IsU32Literal(text) {
        var n := Value(Unsigned(text));
        ReadNStringSpec(rem[4..], n);
        if 4 + n <= |rem| {
          assert rem[4..][..n] == rem[4..4 + n];
        }
      }
    }
  }

  /** A reply written as a four-byte length field followed by a text of
      that many bytes is read back as that text, consuming both. */
  lemma ReadStringOfReply(len: string, text: string, n: u32)
    requires |Encode(len)| == 4 && ParseU32(len) == Ok(n) && |Encode(text)| == n
    ensures ReadStringStep(Encode(len) + Encode(text)) == Step(Ok(text), 4 + n)
  {
    var rem := Encode(len) + Encode(text);
    assert rem[..4] == Encode(len) && rem[4..] == Encode(text);
    DecodeEncode(len);
    LossyOfValid(Encode(len));
    DecodeEncode(text);
    assert Take(Encode(text), n) == Encode(text);
  }

  /** `read_u32` never fails: it consumes up to four bytes and reads them
      little-endian, the missing high bytes counting as 0; with four bytes
      there it inverts `u32::to_le_bytes`. */
  lemma ReadU32Spec(rem: seq<byte>)
    ensures ReadU32Step(rem).result.Ok?
    ensures ReadU32Step(rem).used == Min(4, |rem|)
    ensures var at := (i: nat) => if i < |rem| then rem[i] as int else 0;
      ReadU32Step(rem).result.value == at(0) + 0x100 * at(1) + 0x1_0000 * at(2) + 0x100_0000 * at(3)
    ensures |rem| >= 4 ==> ToLe(ReadU32Step(rem).result.value) == rem[..4]
  {
    var k := Min(4, |rem|);
    var buf := rem[..k] + seq(4 - k, _ => 0);
    assert forall i :: 0 <= i < 4 ==> buf[i] == if i < |rem| then rem[i] else 0;
    if |rem| >= 4 {
      assert buf == rem[..4];
      ToLeFromLe(buf);
    }
  }

  /** `rend_full_string` consumes all that is left, and succeeds exactly
      when that is UTF-8, yielding the text of those bytes. */
  lemma FullStringSpec(rem: seq<byte>)
    ensures FullStringStep(rem).used == |rem|
    ensures FullStringStep(rem).result.Ok? <==> Decode(rem).Some?
    ensures FullStringStep(rem).result.Ok? ==> Encode(FullStringStep(rem).result.value) == rem
  {
    if Decode(rem).Some? {
      EncodeDecode(rem);
    }
  }

  // ---- the connection ----

  class AdbClient {
    /** Everything the server sends on this connection, in order. */
    var input: seq<byte>
    /** How much of `input` has been read. */
    var pos: nat
    /** Everything written to the connection, in order. */
    var output: seq<byte>

    ghost predicate Valid()
      reads this
    {
      pos <= |input|
    }

    /** The bytes not yet read. */
    function Remaining(): seq<byte>
      reads this
      requires Valid()
    {
      input[pos..]
    }

    /** A client whose connection is established and on which `server`
        is what the server will send. */
    constructor (server: seq<byte>)
      ensures Valid() && input == server && pos == 0 && output == []
    {
      input, pos, output := server, 0, [];
    }

    /** Consumes `k` bytes. */
    method Advance(k: nat)
      requires Valid() && k <= |Remaining()|
      modifies this
      ensures Valid() && input == old(input) && output == old(output)
      ensures pos == old(pos) + k
    {
      pos := pos + k;
    }

    method ReadExact(n: nat) returns (r: Result<seq<byte>, AdbError>)
      requires Valid()
      modifies this
      ensures Valid() && input == old(input) && output == old(output)
      ensures var step := ReadExactStep(old(Remaining()), n);
        r == step.result && pos == old(pos) + step.used
    {
      var rem := Remaining();
      if n <= |rem| {
        r := Ok(rem[..n]);
        Advance(n);
      } else {
        r := Err(FromIo(Io.FillWholeBuffer));
        Advance(|rem|);
      }
    }

    method RendFullString() returns (r: Result<string, AdbError>)
      requires Valid()
      modifies this
      ensures Valid() && input == old(input) && output == old(output)
      ensures var step := FullStringStep(old(Remaining()));
        r == step.result && pos == old(pos) + step.used
    {
      var rem := Remaining();
      Advance(|rem|);
      match Decode(rem)
      case None => r := Err(FromIo(Io.NotUtf8));
      case Some(s) => r := Ok(s);
    }

    method ReadString() returns (r: Result<string, AdbError>)
      requires Valid()
      modifies this
      ensures Valid() && input == old(input) && output == old(output)
      ensures var step := ReadStringStep(old(Remaining()));
        r == step.result && pos == old(pos) + step.used
    {
      ghost var rem := Remaining();
      var len := ReadExact(4);
      if len.Err? {
        return Err(len.error);
      }
      var strLen := Lossy(len.value);
      var u32Len := ParseU32(strLen);
      if u32Len.Err? {
        return Err(FromParseInt(u32Len.error));
      }
      assert Remaining() == rem[4..];
      r := ReadNString(u32Len.value);
    }

    method ReadU32() returns (r: Result<u32, AdbError>)
      requires Valid()
      modifies this
      ensures Valid() && input == old(input) && output == old(output)
      ensures var step := ReadU32Step(old(Remaining()));
        r == step.result && pos == old(pos) + step.used
    {
      var rem := Remaining();
      var k := Min(4, |rem|);
      var buf := rem[..k] + seq(4 - k, _ => 0);
      Advance(k);
      r := Ok(FromLe(buf));
    }

    /** `read_n`: `read_n_bytes` on this connection's stream. */
    method ReadN(n: nat) returns (r: Result<seq<byte>, AdbError>)
      requires Valid()
      modifies this
      ensures Valid() && input == old(input) && output == old(output)
      ensures var step := ReadNBytesStep(old(Remaining()), n);
        r == step.result && pos == old(pos) + step.used
    {
      r := ReadNBytes(n);
    }

    method ReadNBytes(n: nat) returns (r: Result<seq<byte>, AdbError>)
      requires Valid()
      modifies this
      ensures Valid() && input == old(input) && output == old(output)
      ensures var step := ReadNBytesStep(old(Remaining()), n);
        r == step.result && pos == old(pos) + step.used
    {
      var res := Take(Remaining(), n);
      Advance(|res|);
      if |res| < n {
        return Err(ShortRead(n, |res|));
      }
      r := Ok(res);
    }

    method ReadNString(n: nat) returns (r: Result<string, AdbError>)
      requires Valid()
      modifies this
      ensures Valid() && input == old(input) && output == old(output)
      ensures var step := ReadNStringStep(old(Remaining()), n);
        r == step.result && pos == old(pos) + step.used
    {
      var chunk := Take(Remaining(), n);
      Advance(|chunk|);
      var res := Decode(chunk);
      if res.None? {
        return Err(FromIo(Io.NotUtf8));
      }
      if |chunk| < n {
        return Err(ShortRead(n, |chunk|));
      }
      r := Ok(res.value);
    }

    method ConnCode() returns (r: Result<ConnState, AdbError>)
      requires Valid()
      modifies this
      ensures Valid() && input == old(input) && output == old(output)
      ensures var step := ConnCodeStep(old(Remaining()));
        r == step.result && pos == old(pos) + step.used
    {
      var code := ReadExact(4);
      if code.Err? {
        return Err(code.error);
      }
      r := Ok(FromStatus(code.value));
    }

    method CheckCodeIs(expected: ConnState) returns (r: Result<bool, AdbError>)
      requires Valid()
      modifies this
      ensures Valid() && input == old(input) && output == old(output)
      ensures var step := CheckCodeIsStep(old(Remaining()), expected);
        r == step.result && pos == old(pos) + step.used
    {
      var state := ConnCode();
      if state.Err? {
        return Err(state.error);
      }
      r := Ok(state.value == expected);
    }

    method CheckOk() returns (r: Result<Unit, AdbError>)
      requires Valid()
      modifies this
      ensures Valid() && input == old(input) && output == old(output)
      ensures var step := CheckOkStep(old(Remaining()));
        r == step.result && pos == old(pos) + step.used
    {
      var same := CheckCodeIs(OKAY);
      if same.Err? {
        return Err(same.error);
      }
      if !same.value {
        return Err(Refused);
      }
      r := Ok(Unit);
    }

    /** `recv_full`: `read_exact` into `buf`; on a short stream the bytes
        that were there are copied in and the rest of `buf` is left alone. */
    method RecvFull(buf: array<byte>) returns (r: Result<Unit, AdbError>)
      requires Valid()
      modifies this, buf
      ensures Valid() && input == old(input) && output == old(output)
      ensures var step := ReadExactStep(old(Remaining()), buf.Length);
        pos - old(pos) == step.used &&
        (r.Ok? <==> step.result.Ok?) &&
        (r.Err? ==> r.error == step.result.error) &&
        (r.Ok? ==> buf[..] == step.result.value)
      ensures buf[..pos - old(pos)] == old(Remaining())[..pos - old(pos)]
      ensures forall i :: pos - old(pos) <= i < buf.Length ==> buf[i] == old(buf[i])
    {
      var rem := Remaining();
      var k := Min(buf.Length, |rem|);
      var i := 0;
      while i < k
        modifies buf
        invariant 0 <= i <= k
        invariant buf[..i] == rem[..i]
        invariant buf[i..] == old(buf[i..])
      {
        buf[i] := rem[i];
        i := i + 1;
        assert buf[..i] == buf[..i - 1] + [buf[i - 1]];
      }
      Advance(k);
      if k < buf.Length {
        return Err(FromIo(Io.FillWholeBuffer));
      }
      r := Ok(Unit);
    }

    /** `send`: writes the header and then the command in one full write,
        and returns the number of bytes written. */
    method Send(command: seq<byte>) returns (r: Result<nat, AdbError>)
      requires Valid()
      modifies this
      ensures Valid() && input == old(input) && pos == old(pos)
      ensures output == old(output) + SendHeader + command
      ensures r == Ok(|SendHeader| + |command|)
    {
      SendHeaderValue();
      var size := HexFold([], ToBe(|"host:version"|));
      var buffer: seq<byte> := [];
      buffer := buffer + Encode(size);
      buffer := buffer + command;
      output := output + buffer;
      r := Ok(|buffer|);
    }
  }
}
