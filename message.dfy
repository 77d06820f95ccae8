/** The transport-level message of the adb protocol: the command words and
    the 24-byte message header. */
module Message {
  import opened Bytes
  import opened Utf8

  datatype AdbMessageType = SYNC | CNXN | AUTH | OPEN | OKAY | CLSE | WRTE

  /** The four-letter name of each command. */
  function Name(t: AdbMessageType): string {
    match t
    case SYNC => "SYNC"
    case CNXN => "CNXN"
    case AUTH => "AUTH"
    case OPEN => "OPEN"
    case OKAY => "OKAY"
    case CLSE => "CLSE"
    case WRTE => "WRTE"
  }

  /** The `A_*` command constants. */
  function Constant(t: AdbMessageType): u32 {
    match t
    case SYNC => 0x434e5953
    case CNXN => 0x4e584e43
    case AUTH => 0x48545541
    case OPEN => 0x4e45504f
    case OKAY => 0x59414b4f
    case CLSE => 0x45534c43
    case WRTE => 0x45545257
  }

  /** `Into<Vec<u8>>`: the bytes each command is turned into. */
  function ToBytes(t: AdbMessageType): (b: seq<byte>)
    ensures |b| == 4
  {
    match t
    case SYNC => [0x43, 0x4E, 0x59, 0x53]
    case CNXN => [0x4E, 0x58, 0x4e, 0x43]
    case AUTH => [0x48, 0x54, 0x55, 0x41]
    case OPEN => [0x4E, 0x45, 0x50, 0x4F]
    case OKAY => [0x59, 0x41, 0x4B, 0x4F]
    case CLSE => [0x45, 0x53, 0x4C, 0x43]
    case WRTE => [0x45, 0x54, 0x52, 0x57]
  }

  /** No two commands are turned into the same bytes. */
  lemma ToBytesInjective(t: AdbMessageType, u: AdbMessageType)
    ensures ToBytes(t) == ToBytes(u) <==> t == u
  {
  }

  /** The bytes are the constant's big-endian bytes. */
  lemma ToBytesBigEndian(t: AdbMessageType)
    ensures ToBytes(t) == ToBe(Constant(t))
  {
    var b := ToBytes(t);
    var le := [b[3], b[2], b[1], b[0]];
    assert FromLe(le) == Constant(t);
    ToLeFromLe(le);
  }

  /** The bytes are the command's name backwards (SYNC gives "CNYS"); the
      name itself is the constant's little-endian bytes, the order in which
      the header carries it. */
  lemma ToBytesReversedName(t: AdbMessageType)
    ensures var name := Encode(Name(t));
      |name| == 4 && ToBytes(t) == [name[3], name[2], name[1], name[0]]
    ensures ToLe(Constant(t)) == Encode(Name(t))
  {
    EncodeAscii(Name(t));
    ToBytesBigEndian(t);
  }

  /** The message header: six 32-bit words. */
  datatype AdbMessage = AdbMessage(command: u32, arg0: u32, arg1: u32, dataLen: u32, dataCrc32: u32, magic: u32)

  function Pow2(w: nat): nat {
    if w == 0 then 1 else 2 * Pow2(w - 1)
  }

  lemma {:induction false} Pow2Add(a: nat, b: nat)
    ensures Pow2(a + b) == Pow2(a) * Pow2(b)
  {
    if a > 0 {
      Pow2Add(a - 1, b);
      assert Pow2(a + b) == 2 * Pow2(a - 1 + b);
      Double(Pow2(a - 1), Pow2(b));
    }
  }

  lemma Double(x: int, y: int)
    ensures 2 * (x * y) == (2 * x) * y
  {
  }

  lemma Pow2Word()
    ensures Pow2(32) == 0x1_0000_0000
  {
    assert Pow2(2) == 4;
    Pow2Add(2, 2);
    Pow2Add(4, 4);
    Pow2Add(8, 8);
    Pow2Add(16, 16);
  }

  /** Bitwise exclusive or of the low `w` bits of `a` and `b`. */
  function Xor(a: nat, b: nat, w: nat): nat {
    if w == 0 then 0
    else (if a % 2 != b % 2 then 1 else 0) + 2 * Xor(a / 2, b / 2, w - 1)
  }

  /** `command ^ 0xffffffff` */
  function Magic(command: u32): (m: u32)
    ensures m == U32_MAX - command
  {
    Pow2Word();
    XorAllOnes(command, 32);
    Xor(command, 0xFFFF_FFFF, 32)
  }

  /** Exclusive or with all ones complements the word. */
  lemma {:induction false} XorAllOnes(a: nat, w: nat)
    requires a < Pow2(w)
    ensures Xor(a, Pow2(w) - 1, w) == Pow2(w) - 1 - a
  {
    if w > 0 {
      var ones := Pow2(w) - 1;
      assert ones % 2 == 1 && ones / 2 == Pow2(w - 1) - 1;
      XorAllOnes(a / 2, w - 1);
    }
  }

  /** A header whose magic matches its command and whose length field is
      the payload's length (0 allowed). */
  predicate WellFormed(m: AdbMessage, payload: seq<byte>) {
    m.magic == Magic(m.command) && m.dataLen == |payload|
  }

  /** A receiver checks a header by recomputing the command from its magic
      and comparing the length field with the payload it reads; a header
      survives its own encoding with its well-formedness unchanged. */
  lemma WellFormedCheck(m: AdbMessage, payload: seq<byte>)
    ensures WellFormed(m, payload) <==> Magic(m.magic) == m.command && m.dataLen == |payload|
    ensures WellFormed(ParseHeader(Header(m)), payload) <==> WellFormed(m, payload)
  {
    MagicInvolution(m.command);
    MagicInvolution(m.magic);
    ParseHeaderInverse(m);
  }

  /** Applying the magic twice gives the command back, so a receiver
      recomputes the command from the magic. */
  lemma MagicInvolution(c: u32)
    ensures Magic(Magic(c)) == c
    ensures Magic(c) != c
  {
  }

  /** The 24 header bytes: each word little-endian, in field order. */
  function Header(m: AdbMessage): (b: seq<byte>)
    ensures |b| == 24
  {
    ToLe(m.command) + ToLe(m.arg0) + ToLe(m.arg1) + ToLe(m.dataLen) + ToLe(m.dataCrc32) + ToLe(m.magic)
  }

  /** Reads a header back from 24 bytes. */
  function ParseHeader(b: seq<byte>): AdbMessage
    requires |b| == 24
  {
    AdbMessage(FromLe(b[0..4]), FromLe(b[4..8]), FromLe(b[8..12]), FromLe(b[12..16]), FromLe(b[16..20]), FromLe(b[20..24]))
  }

  /** A header read back from its bytes is the header that was written. */
  lemma ParseHeaderInverse(m: AdbMessage)
    ensures ParseHeader(Header(m)) == m
  {
    var b := Header(m);
    assert b[0..4] == ToLe(m.command);
    assert b[4..8] == ToLe(m.arg0);
    assert b[8..12] == ToLe(m.arg1);
    assert b[12..16] == ToLe(m.dataLen);
    assert b[16..20] == ToLe(m.dataCrc32);
    assert b[20..24] == ToLe(m.magic);
    FromLeToLe(m.command);
    FromLeToLe(m.arg0);
    FromLeToLe(m.arg1);
    FromLeToLe(m.dataLen);
    FromLeToLe(m.dataCrc32);
    FromLeToLe(m.magic);
  }

  /** Any 24 bytes are the header of what is read from them. */
  lemma HeaderOfParse(b: seq<byte>)
    requires |b| == 24
    ensures Header(ParseHeader(b)) == b
  {
    ToLeFromLe(b[0..4]);
    ToLeFromLe(b[4..8]);
    ToLeFromLe(b[8..12]);
    ToLeFromLe(b[12..16]);
    ToLeFromLe(b[16..20]);
    ToLeFromLe(b[20..24]);
    assert b == b[0..4] + b[4..8] + b[8..12] + b[12..16] + b[16..20] + b[20..24];
  }

  /** The first word of a header for a command is the command's name. */
  lemma HeaderStartsWithName(m: AdbMessage, t: AdbMessageType)
    requires m.command == Constant(t)
    ensures Header(m)[..4] == Encode(Name(t))
  {
    ToBytesReversedName(t);
    assert Header(m)[..4] == ToLe(m.command);
  }
}
