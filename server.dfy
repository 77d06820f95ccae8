/** The requests the library makes of the adb server over its socket:
    `adb_version`, `devices`, `forward_list`, `forward` and `reverse`,
    and the parsing of their replies. */
module Server {
  import opened Results
  import opened Bytes
  import opened Utf8
  import opened IntParse
  import opened Text
  import opened AdbErrors
  import opened BaseType
  import opened Client

  // ---- the command texts ----

  const DevicesCommand: string := "host:devices"

  /** How `forward` renders the remote endpoint: the socket name as it is,
      or the port in decimal. */
  function RemoteText(m: MappingType): string {
    match m
    case Ipc(name) => name
    case Port(p) => Decimal(p)
  }

  /** The one request `forward` sends: `host-serial`, the serial, `forward`,
      `norebind` only when asked for explicitly, and `<local>;<remote>`,
      separated by ';'. */
  function ForwardCommand(serial: string, local: u32, remote: MappingType, norebind: Option<bool>): string {
    "host-serial" + ";" + serial + ";" + "forward" + (if norebind == Some(true) then ";" + "norebind" else "")
      + ";" + (Decimal(local) + ";" + RemoteText(remote))
  }

  function ForwardListCommand(serial: Option<string>): string {
    match serial
    case Some(s) => "host-serial:" + s + ":list-forward"
    case None => "host:list-forward"
  }

  /** The first request of `reverse`; the format string puts a ',' after
      the prefix. */
  function TransportCommand(serial: string): string {
    "host:transport:," + serial
  }

  function ReverseCommand(remote: u32, local: u32): string {
    "reverse:forward:" + Decimal(remote) + ";" + Decimal(local)
  }

  // ---- the replies ----

  predicate IsTrimSpace(c: char) { c == ' ' || c == '\t' }

  /** A line of the device listing that holds more than spaces and tabs. */
  predicate NotBlank(line: string) {
    TrimMatches(line, IsTrimSpace) != []
  }

  /** The elements `keep` holds of, in order. */
  function Filter<T>(xs: seq<T>, keep: T -> bool): seq<T> {
    if xs == [] then []
    else (if keep(xs[0]) then [xs[0]] else []) + Filter(xs[1..], keep)
  }

  lemma {:induction false} FilterSpec<T>(xs: seq<T>, keep: T -> bool)
    ensures forall i :: 0 <= i < |Filter(xs, keep)| ==> Filter(xs, keep)[i] in xs && keep(Filter(xs, keep)[i])
    ensures forall x :: x in xs && keep(x) ==> x in Filter(xs, keep)
  {
    if xs != [] {
      FilterSpec(xs[1..], keep);
      assert xs == [xs[0]] + xs[1..];
    }
  }

  lemma {:induction false} FilterAppend<T>(a: seq<T>, b: seq<T>, keep: T -> bool)
    ensures Filter(a + b, keep) == Filter(a, keep) + Filter(b, keep)
  {
    if a == [] {
      assert a + b == b;
    } else {
      var ab := a + b;
      var h := if keep(a[0]) then [a[0]] else [];
      assert ab[0] == a[0] && ab[1..] == a[1..] + b;
      assert Filter(ab, keep) == h + Filter(a[1..] + b, keep);
      FilterAppend(a[1..], b, keep);
      var fa, fb := Filter(a[1..], keep), Filter(b, keep);
      assert h + (fa + fb) == (h + fa) + fb;
    }
  }

  /** The lines that are not blank, whole and in order. */
  function NonBlank(lines: seq<string>): seq<string> {
    Filter(lines, NotBlank)
  }

  /** The serials `devices` reads out of the listing: every line (split on
      '\n') that is not blank, untrimmed. */
  function DeviceSerials(payload: string): seq<string> {
    NonBlank(Split(payload, IsNewline))
  }

  /** The entry a line of the forward listing stands for: one whose tokens
      are at least three and whose second token is a u32 literal; any
      further tokens are ignored. */
  function ForwardLine(tokens: seq<string>): seq<ForwardDevice> {
    if |tokens| >= 3 && IsU32Literal(tokens[1])
    then [NewForwardDevice(tokens[0], Value(Unsigned(tokens[1])), tokens[2])]
    else []
  }

  /** The concatenation of `f` over the elements, in order. */
  function Gather<T, U>(xs: seq<T>, f: T -> seq<U>): seq<U> {
    if xs == [] then [] else Gather(xs[..|xs| - 1], f) + f(xs[|xs| - 1])
  }

  lemma {:induction false} GatherAppend<T, U>(a: seq<T>, b: seq<T>, f: T -> seq<U>)
    ensures Gather(a + b, f) == Gather(a, f) + Gather(b, f)
    decreases |b|
  {
    if b == [] {
      assert a + b == a;
    } else {
      var ab := a + b;
      assert ab[..|ab| - 1] == a + b[..|b| - 1];
      assert ab[|ab| - 1] == b[|b| - 1];
      GatherAppend(a, b[..|b| - 1], f);
      var ga, gb, last := Gather(a, f), Gather(b[..|b| - 1], f), f(b[|b| - 1]);
      assert (ga + gb) + last == ga + (gb + last);
    }
  }

  /** The entries one line of the listing contributes. */
  function LineEntries(line: string): seq<ForwardDevice> {
    ForwardLine(Tokens(line))
  }

  /** The entries of the listing's lines, in line order. */
  function ForwardEntries(lines: seq<string>): seq<ForwardDevice> {
    Gather(lines, LineEntries)
  }

  /** `check_ok` followed by `read_string`, the shape of every listing reply. */
  function ListingStep(rem: seq<byte>): Step<string> {
    var ok := CheckOkStep(rem);
    match ok.result
    case Err(e) => Step(Err(e), ok.used)
    case Ok(_) =>
      CheckOkSpec(rem);
      var body := ReadStringStep(rem[ok.used..]);
      Step(body.result, ok.used + body.used)
  }

  function DevicesStep(rem: seq<byte>): Step<seq<string>> {
    var listing := ListingStep(rem);
    match listing.result
    case Err(e) => Step(Err(e), listing.used)
    case Ok(payload) => Step(Ok(DeviceSerials(payload)), listing.used)
  }

  function ForwardListStep(rem: seq<byte>): Step<seq<ForwardDevice>> {
    var listing := ListingStep(rem);
    match listing.result
    case Err(e) => Step(Err(e), listing.used)
    case Ok(payload) => Step(Ok(ForwardEntries(Split(payload, IsNewline))), listing.used)
  }

  /** `adb_version` reads a string and parses it as a u32; it sends no
      request and reads no status word first. */
  function AdbVersionStep(rem: seq<byte>): Step<u32> {
    var s := ReadStringStep(rem);
    match s.result
    case Err(e) => Step(Err(e), s.used)
    case Ok(text) =>
      match ParseU32(text)
      case Err(k) => Step(Err(FromParseInt(k)), s.used)
      case Ok(v) => Step(Ok(v), s.used)
  }

  // ---- properties of the replies ----

  /** A listing reply is read only after "OKAY": any other status word ends
      the request after four bytes with nothing parsed. */
  lemma ListingRefused(rem: seq<byte>)
    requires |rem| >= 4 && rem[..4] != OkayBytes
    ensures ListingStep(rem) == Step(Err(Refused), 4)
    ensures DevicesStep(rem) == Step(Err(Refused), 4)
    ensures ForwardListStep(rem) == Step(Err(Refused), 4)
  {
    CheckOkSpec(rem);
  }

  /** After "OKAY" a listing reply is the length-prefixed string that follows. */
  lemma ListingAccepted(rem: seq<byte>)
    requires |rem| >= 4 && rem[..4] == OkayBytes
    ensures var body := ReadStringStep(rem[4..]);
      ListingStep(rem) == Step(body.result, 4 + body.used)
  {
    CheckOkSpec(rem);
  }

  /** The serials are exactly the non-blank lines, each whole. */
  lemma NonBlankSpec(lines: seq<string>)
    ensures forall i :: 0 <= i < |NonBlank(lines)| ==> NonBlank(lines)[i] in lines && NotBlank(NonBlank(lines)[i])
    ensures forall l :: l in lines && NotBlank(l) ==> l in NonBlank(lines)
  {
    FilterSpec(lines, NotBlank);
  }

  lemma NonBlankAppend(a: seq<string>, b: seq<string>)
    ensures NonBlank(a + b) == NonBlank(a) + NonBlank(b)
  {
    FilterAppend(a, b, NotBlank);
  }

  /** A line is blank exactly when it holds only spaces and tabs. */
  lemma NotBlankSpec(line: string)
    ensures NotBlank(line) <==> exists i :: 0 <= i < |line| && !IsTrimSpace(line[i])
  {
    TrimEmpty(line, IsTrimSpace);
  }

  /** The listing is read line by line from the front: the first line
      gives a serial when it is not blank, and the rest follow in order. */
  lemma DeviceSerialsCons(line: string, rest: string)
    requires '\n' !in line
    ensures DeviceSerials(line + "\n" + rest) == (if NotBlank(line) then [line] else []) + DeviceSerials(rest)
  {
    SplitAppend(line, '\n', rest, IsNewline);
    NonBlankAppend([line], Split(rest, IsNewline));
  }

  /** A listing without a line feed holds at most the one serial. */
  lemma DeviceSerialsOneLine(line: string)
    requires '\n' !in line
    ensures DeviceSerials(line) == if NotBlank(line) then [line] else []
  {
    assert forall j :: 0 <= j < |line| ==> !IsNewline(line[j]);
    assert Find(line, IsNewline) == |line|;
    assert Split(line, IsNewline) == [line];
    assert [line][1..] == [];
    assert NonBlank([line]) == (if NotBlank(line) then [line] else []) + NonBlank([]);
  }

  /** The usual listing, "serial\tdevice\n", gives its line, tab and
      state included, as the serial. */
  lemma DeviceSerialsExample()
    ensures DeviceSerials("emulator-5554\tdevice\n") == ["emulator-5554\tdevice"]
  {
    var line := "emulator-5554\tdevice";
    assert !IsTrimSpace(line[0]);
    NotBlankSpec(line);
    DeviceSerialsCons(line, "");
    assert line + "\n" + "" == "emulator-5554\tdevice\n";
    DeviceSerialsOneLine("");
  }

  lemma ForwardEntriesAppend(a: seq<string>, b: seq<string>)
    ensures ForwardEntries(a + b) == ForwardEntries(a) + ForwardEntries(b)
  {
    GatherAppend(a, b, LineEntries);
  }

  /** Each line contributes at most one entry, and an entry exactly when the
      line qualifies; its serial, local port and remote are the line's first
      three tokens. */
  lemma ForwardLineSpec(tokens: seq<string>)
    ensures |ForwardLine(tokens)| <= 1
    ensures |ForwardLine(tokens)| == 1 <==> |tokens| >= 3 && IsU32Literal(tokens[1])
    ensures |ForwardLine(tokens)| == 1 ==>
      var d := ForwardLine(tokens)[0];
      d.serial == tokens[0] && d.local == Value(Unsigned(tokens[1])) && FromStr(tokens[2]) == Ok(d.remote)
  {
  }

  /** The listing "<serial> tcp-port tcp:27183" has no entry: the local
      field must be a bare number. */
  lemma ForwardLineNeedsNumber()
    ensures ForwardLine(["emulator-5554", "tcp:1234", "tcp:27183"]) == []
  {
    assert !IsDigit(':');
    assert !IsU32Literal("tcp:1234");
  }

  /** At most one entry per line, in line order. */
  lemma {:induction false} ForwardEntriesBound(lines: seq<string>)
    ensures |ForwardEntries(lines)| <= |lines|
  {
    if lines != [] {
      ForwardEntriesBound(lines[..|lines| - 1]);
      ForwardLineSpec(Tokens(lines[|lines| - 1]));
      assert ForwardEntries(lines) == ForwardEntries(lines[..|lines| - 1]) + LineEntries(lines[|lines| - 1]);
    }
  }

  /** The version reply after the four-byte length is parsed as a u32; a
      reply that is not one is a parse error, and no status word is
      expected (a leading "OKAY" is taken as the length field). */
  lemma AdbVersionSpec(rem: seq<byte>)
    ensures AdbVersionStep(rem).result.Ok? <==>
      ReadStringStep(rem).result.Ok? && IsU32Literal(ReadStringStep(rem).result.value)
    ensures AdbVersionStep(rem).result.Ok? ==>
      AdbVersionStep(rem).result.value == Value(Unsigned(ReadStringStep(rem).result.value))
    ensures |rem| >= 4 && rem[..4] == OkayBytes ==>
      AdbVersionStep(rem) == Step(Err(ProtocolParseError(Description(InvalidDigit))), 4)
  {
    if ReadStringStep(rem).result.Ok? {
      ParseU32Spec(ReadStringStep(rem).result.value);
    }
    if |rem| >= 4 && rem[..4] == OkayBytes {
      FromStatusOkay(rem[..4]);
      assert Lossy(rem[..4]) == "OKAY";
      ParseBadStart("OKAY", false, 0, U32_MAX);
    }
  }

  /** The server's reply "0004" followed by "0029" is version 29, read in
      eight bytes. */
  lemma AdbVersionExample()
    ensures AdbVersionStep(Encode("0004") + Encode("0029")) == Step(Ok(29), 8)
  {
    EncodeAscii("0004");
    EncodeAscii("0029");
    VersionDigits("0004", 4);
    ReadStringOfReply("0004", "0029", 4);
    VersionDigits("0029", 29);
  }

  lemma VersionDigits(s: string, n: u32)
    requires (s == "0004" && n == 4) || (s == "0029" && n == 29)
    ensures ParseU32(s) == Ok(n)
  {
    assert Unsigned(s) == s && AllDigits(s);
    var a := s[..3];
    var b := a[..2];
    var c := b[..1];
    assert b == "00" && c == "0" && c[..0] == "";
    assert Value(c) == 0;
    assert Value(b) == 0;
    assert Value(a) == DigitValue(a[2]);
    assert Value(s) == Value(a) * 10 + DigitValue(s[3]);
    assert Value(s) == n;
    ParseU32Spec(s);
  }

  // ---- the requests ----

  /** A listing request: the request, then `check_ok`, then `read_string`. */
  method ReadListing(client: AdbClient, cmd: string) returns (r: Result<string, AdbError>)
    requires client.Valid()
    modifies client
    ensures client.Valid() && client.input == old(client.input)
    ensures client.output == old(client.output) + SendHeader + Encode(cmd)
    ensures var step := ListingStep(old(client.Remaining()));
      r == step.result && client.pos == old(client.pos) + step.used
  {
    var sent := client.Send(Encode(cmd));
    ghost var rem := client.Remaining();
    CheckOkSpec(rem);
    var ok := client.CheckOk();
    if ok.Err? {
      return Err(ok.error);
    }
    r := client.ReadString();
  }

  /** `forward_list` */
  method ForwardList(client: AdbClient, serial: Option<string>) returns (r: Result<seq<ForwardDevice>, AdbError>)
    requires client.Valid()
    modifies client
    ensures client.Valid() && client.input == old(client.input)
    ensures client.output == old(client.output) + SendHeader + Encode(ForwardListCommand(serial))
    ensures var step := ForwardListStep(old(client.Remaining()));
      r == step.result && client.pos == old(client.pos) + step.used
  {
    var cmd := if serial.Some? then "host-serial:" + serial.value + ":list-forward" else "host:list-forward";
    assert cmd == ForwardListCommand(serial);
    var list := ReadListing(client, cmd);
    if list.Err? {
      return Err(list.error);
    }
    var res := ParseForwardList(list.value);
    r := Ok(res);
  }

  /** The fold of `handle_forward` over the listing's lines. */
  method ParseForwardList(list: string) returns (res: seq<ForwardDevice>)
    ensures res == ForwardEntries(Split(list, IsNewline))
  {
    var lines := Split(list, IsNewline);
    res := [];
    var i := 0;
    while i < |lines|
      invariant 0 <= i <= |lines|
      invariant res == ForwardEntries(lines[..i])
    {
      res := HandleForward(res, Tokens(lines[i]));
      assert lines[..i + 1][..i] == lines[..i];
      i := i + 1;
    }
    assert lines[..i] == lines;
  }

  /** `handle_forward`: takes the first three tokens and appends an entry
      when all three are there and the second is a port. */
  method HandleForward(acc: seq<ForwardDevice>, item: seq<string>) returns (acc': seq<ForwardDevice>)
    ensures acc' == acc + ForwardLine(item)
  {
    var serial: Option<string> := if |item| > 0 then Some(item[0]) else None;
    var local: Option<string> := if |item| > 1 then Some(item[1]) else None;
    var remote: Option<string> := if |item| > 2 then Some(item[2]) else None;
    acc' := acc;
    if serial.Some? && local.Some? && remote.Some? {
      ParseU32Spec(local.value);
      var port := ParseU32(local.value);
      if port.Ok? {
        acc' := acc' + [NewForwardDevice(serial.value, port.value, remote.value)];
      }
    }
  }

  /** `forward`: a single request and no reply read. */
  method RequestForward(client: AdbClient, serial: string, local: u32, remote: MappingType, norebind: Option<bool>)
    returns (r: Result<Unit, AdbError>)
    requires client.Valid()
    modifies client
    ensures client.Valid() && client.input == old(client.input) && client.pos == old(client.pos)
    ensures client.output == old(client.output) + SendHeader + Encode(ForwardCommand(serial, local, remote, norebind))
    ensures r == Ok(Unit)
  {
    var cmds := ["host-serial", serial, "forward"];
    if norebind.Some? && norebind.value {
      cmds := cmds + ["norebind"];
    }
    var forwardCmd := match remote
      case Ipc(ipc) => Decimal(local) + ";" + ipc
      case Port(port) => Decimal(local) + ";" + Decimal(port);
    assert forwardCmd == Decimal(local) + ";" + RemoteText(remote);
    assert cmds == ["host-serial", serial, "forward"] + (if norebind == Some(true) then ["norebind"] else []);
    cmds := cmds + [forwardCmd];
    var res := Join(cmds, ";");
    JoinForward(serial, norebind == Some(true), forwardCmd);
    assert res == ForwardCommand(serial, local, remote, norebind);
    var sent := client.Send(Encode(res));
    r := Ok(Unit);
  }

  /** The segments `forward` collects, joined with ';'. */
  lemma JoinForward(serial: string, norebind: bool, last: string)
    ensures Join(["host-serial", serial, "forward"] + (if norebind then ["norebind"] else []) + [last], ";") ==
      "host-serial" + ";" + serial + ";" + "forward" + (if norebind then ";" + "norebind" else "") + ";" + last
  {
    var words := ["host-serial", serial, "forward"];
    if norebind {
      assert words + ["norebind"] + [last] == words + ["norebind", last];
      JoinThree("host-serial", serial, "forward", ["norebind", last], ";");
      JoinPair("norebind", last, ";");
    } else {
      assert words + [] + [last] == words + [last];
      JoinThree("host-serial", serial, "forward", [last], ";");
    }
  }

  lemma TransportText(serial: string)
    ensures "host:transport:" + "," + serial == TransportCommand(serial)
  {
    assert "host:transport:" + "," == "host:transport:,";
  }

  lemma ReverseText(remote: u32, local: u32)
    ensures Join(["reverse:forward", Decimal(remote) + ";" + Decimal(local)], ":") == ReverseCommand(remote, local)
  {
    var sub := Decimal(remote) + ";" + Decimal(local);
    JoinPair("reverse:forward", sub, ":");
    assert "reverse:forward" + ":" == "reverse:forward:";
    assert "reverse:forward:" + Decimal(remote) + ";" + Decimal(local) == "reverse:forward:" + sub;
  }

  /** `reverse`: the transport request, then the status word, and the
      reverse request only when the status was "OKAY". */
  method RequestReverse(client: AdbClient, serial: string, remote: u32, local: u32) returns (r: Result<Unit, AdbError>)
    requires client.Valid()
    modifies client
    ensures client.Valid() && client.input == old(client.input)
    ensures var ok := CheckOkStep(old(client.Remaining()));
      client.pos == old(client.pos) + ok.used &&
      client.output == old(client.output) + SendHeader + Encode(TransportCommand(serial))
        + (if ok.result.Ok? then SendHeader + Encode(ReverseCommand(remote, local)) else []) &&
      r == (if ok.result.Ok? then Ok(Unit) else Err(ok.result.error))
  {
    var transport := "host:transport:" + "," + serial;
    TransportText(serial);
    var sent := client.Send(Encode(transport));
    ghost var out := client.output;
    var ok := client.CheckOk();
    if ok.Err? {
      assert client.output == out;
      return Err(ok.error);
    }
    var subCmd := Decimal(remote) + ";" + Decimal(local);
    var cmds := ["reverse:forward", subCmd];
    var request := Join(cmds, ":");
    ReverseText(remote, local);
    var again := client.Send(Encode(request));
    r := Ok(Unit);
  }

  /** A device reached through the server: its serial and a connection. */
  class AdbDevice {
    const inner: AdbClient
    const serial: string

    constructor (inner: AdbClient, serial: string)
      ensures this.inner == inner && this.serial == serial
    {
      this.inner := inner;
      this.serial := serial;
    }

    method Forward(local: u32, remote: MappingType, norebind: Option<bool>) returns (r: Result<Unit, AdbError>)
      requires inner.Valid()
      modifies inner
      ensures inner.Valid() && inner.input == old(inner.input) && inner.pos == old(inner.pos)
      ensures inner.output == old(inner.output) + SendHeader + Encode(ForwardCommand(serial, local, remote, norebind))
      ensures r == Ok(Unit)
    {
      r := RequestForward(inner, serial, local, remote, norebind);
    }

    method Reverse(remote: u32, local: u32) returns (r: Result<Unit, AdbError>)
      requires inner.Valid()
      modifies inner
      ensures inner.Valid() && inner.input == old(inner.input)
      ensures var ok := CheckOkStep(old(inner.Remaining()));
        inner.pos == old(inner.pos) + ok.used &&
        inner.output == old(inner.output) + SendHeader + Encode(TransportCommand(serial))
          + (if ok.result.Ok? then SendHeader + Encode(ReverseCommand(remote, local)) else []) &&
        r == (if ok.result.Ok? then Ok(Unit) else Err(ok.result.error))
    {
      r := RequestReverse(inner, serial, remote, local);
    }
  }

  /** The handle on the adb server. */
  class AndroidDebugBridge {
    const inner: AdbClient

    constructor (client: AdbClient)
      ensures inner == client
    {
      inner := client;
    }

    /** `adb_version`: reads the reply only; nothing is written. */
    method AdbVersion() returns (r: Result<u32, AdbError>)
      requires inner.Valid()
      modifies inner
      ensures inner.Valid() && inner.input == old(inner.input) && inner.output == old(inner.output)
      ensures var step := AdbVersionStep(old(inner.Remaining()));
        r == step.result && inner.pos == old(inner.pos) + step.used
    {
      var res := inner.ReadString();
      if res.Err? {
        return Err(res.error);
      }
      var version := ParseU32(res.value);
      if version.Err? {
        return Err(FromParseInt(version.error));
      }
      r := Ok(version.value);
    }

    /** `devices`: the serials of the listing (each device's own connection
        is not modelled). */
    method Devices() returns (r: Result<seq<string>, AdbError>)
      requires inner.Valid()
      modifies inner
      ensures inner.Valid() && inner.input == old(inner.input)
      ensures inner.output == old(inner.output) + SendHeader + Encode(DevicesCommand)
      ensures var step := DevicesStep(old(inner.Remaining()));
        r == step.result && inner.pos == old(inner.pos) + step.used
    {
      var deviceStr := ReadListing(inner, DevicesCommand);
      if deviceStr.Err? {
        return Err(deviceStr.error);
      }
      r := Ok(DeviceSerials(deviceStr.value));
    }
  }
}
