/** The launcher's wrapper around the `adb` command-line tool: the parsing
    of `adb devices` output and the argument lists of the forward requests.
    Running the tool is the parameter `run`, standing for `command`: the
    text `wait_with_output` collects from the child (or the error that
    starting it, waiting for it or decoding that text gave). `command`
    starts the child without piping its standard output, so the child
    prints to the launcher's own terminal and the collected text is empty;
    `SilentTool` states what the operations then give. `run` is kept
    general so that the parsing is modelled for any text. */
module PhoneAdb {
  import opened Results
  import opened Text
  import opened IntParse
  import opened ExecErrors

  type Runner = seq<string> -> Result<string, ExecuteError>

  datatype Device = Device(serial: string, state: string)

  /** `Device::is_space`: only space and carriage return separate fields;
      a tab does not. */
  predicate IsSpace(c: char)
    ensures IsSpace(c) ==> IsAsciiWhitespace(c) && !IsNewline(c)
  {
    c == ' ' || c == '\r'
  }

  /** `Device::new`: the first two pieces of the line split at every
      separator. */
  function NewDevice(line: string): (r: Option<Device>)
    ensures r.Some? <==> exists i :: 0 <= i < |line| && IsSpace(line[i])
    ensures r.Some? ==>
      var k := Find(line, IsSpace);
      var rest := line[k + 1..];
      r.value.serial == line[..k] && r.value.state == rest[..Find(rest, IsSpace)]
  {
    SplitHead(line, IsSpace);
    var parts := Split(line, IsSpace);
    if |parts| >= 2 then Some(Device(parts[0], parts[1])) else None
  }

  /** A listing line that uses a tab between serial and state has no
      device. */
  lemma NewDeviceTab()
    ensures NewDevice("emulator-5554\tdevice") == None
  {
    var line := "emulator-5554\tdevice";
    assert forall i :: 0 <= i < |line| ==> !IsSpace(line[i]);
  }

  /** A line made of a serial, a separator, a state and either nothing or
      a further separator with anything after it gives that serial and
      state. */
  lemma NewDeviceFields(serial: string, sep: char, state: string, more: string)
    requires NoneMatch(serial, IsSpace) && IsSpace(sep) && NoneMatch(state, IsSpace)
    requires more == [] || IsSpace(more[0])
    ensures NewDevice(serial + [sep] + state + more) == Some(Device(serial, state))
  {
    var line := serial + [sep] + state + more;
    assert line == serial + [sep] + (state + more);
    SplitAppend(serial, sep, state + more, IsSpace);
    var rest := StateFirst(state, more);
    assert Split(line, IsSpace) == [serial] + rest;
  }

  /** The pieces after the serial start with the state. */
  lemma StateFirst(state: string, more: string) returns (rest: seq<string>)
    requires NoneMatch(state, IsSpace)
    requires more == [] || IsSpace(more[0])
    ensures rest == Split(state + more, IsSpace) && |rest| >= 1 && rest[0] == state
  {
    rest := Split(state + more, IsSpace);
    if more == [] {
      assert state + more == state;
      assert Find(state, IsSpace) == |state|;
    } else {
      assert state + more == state + [more[0]] + more[1..];
      SplitAppend(state, more[0], more[1..], IsSpace);
    }
  }

  /** Two spaces in a row give an empty state. */
  lemma NewDeviceDoubleSpace()
    ensures NewDevice("ab  device") == Some(Device("ab", ""))
  {
    NewDeviceFields("ab", ' ', "", " device");
    assert "ab" + [' '] + "" + " device" == "ab  device";
  }

  /** One space separates serial and state. */
  lemma NewDeviceOneSpace()
    ensures NewDevice("ab device") == Some(Device("ab", "device"))
  {
    NewDeviceFields("ab", ' ', "device", "");
    assert "ab" + [' '] + "device" + "" == "ab device";
  }

  /** `skip(1).map(Device::new)` */
  function ParseLines(lines: seq<string>): (r: seq<Option<Device>>)
    ensures |r| == if |lines| == 0 then 0 else |lines| - 1
    ensures forall i :: 0 <= i < |r| ==> r[i] == NewDevice(lines[i + 1])
  {
    if |lines| <= 1 then [] else [NewDevice(lines[1])] + ParseLines(lines[1..])
  }

  /** `devices`: every line of `adb devices` but the first (its header),
      each parsed or kept as `None`, in order. */
  function Devices(run: Runner): (r: Result<seq<Option<Device>>, ExecuteError>)
    ensures run(["devices"]).Err? ==> r == Err(run(["devices"]).error)
    ensures run(["devices"]).Ok? ==>
      var lines := Lines(run(["devices"]).value);
      r.Ok? && |r.value| == (if |lines| == 0 then 0 else |lines| - 1) &&
      (forall i :: 0 <= i < |r.value| ==> r.value[i] == NewDevice(lines[i + 1]))
  {
    match run(["devices"])
    case Err(e) => Err(e)
    case Ok(output) => Ok(ParseLines(Lines(output)))
  }

  predicate Matches(d: Option<Device>, serial: string) {
    d.Some? && d.value.serial == serial
  }

  /** The first parsed device with the serial. */
  function FirstMatch(devices: seq<Option<Device>>, serial: string): (r: Option<Device>)
    ensures r.Some? <==> exists i :: 0 <= i < |devices| && Matches(devices[i], serial)
    ensures r.Some? ==> r.value.serial == serial
    ensures r.Some? ==>
      exists i :: 0 <= i < |devices| && devices[i] == Some(r.value) &&
        (forall j :: 0 <= j < i ==> !Matches(devices[j], serial))
  {
    if devices == [] then None
    else if Matches(devices[0], serial) then devices[0]
    else
      var r := FirstMatch(devices[1..], serial);
      assert forall i :: 1 <= i < |devices| ==> devices[i] == devices[1..][i - 1];
      if r.Some? then
        ghost var i :| 0 <= i < |devices[1..]| && devices[1..][i] == Some(r.value) &&
          (forall j :: 0 <= j < i ==> !Matches(devices[1..][j], serial));
        assert devices[i + 1] == Some(r.value);
        r
      else r
  }

  /** `find_device`: the first listed device with the serial; when there is
      none the empty `Option` is turned into "adb no output", so `Ok(None)`
      is never returned. */
  function FindDevice(run: Runner, serial: string): (r: Result<Option<Device>, ExecuteError>)
    ensures r.Ok? ==> r.value.Some? && r.value.value.serial == serial
    ensures Devices(run).Err? ==> r == Err(Devices(run).error)
    ensures Devices(run).Ok? ==>
      (r.Ok? <==> exists i :: 0 <= i < |Devices(run).value| && Matches(Devices(run).value[i], serial))
    ensures Devices(run).Ok? && r.Ok? ==>
      exists i :: 0 <= i < |Devices(run).value| && Devices(run).value[i] == r.value &&
        (forall j :: 0 <= j < i ==> !Matches(Devices(run).value[j], serial))
    ensures Devices(run).Ok? && r.Err? ==> r.error == FromNone()
  {
    match Devices(run)
    case Err(e) => Err(e)
    case Ok(devices) =>
      match FirstMatch(devices, serial)
      case None => Err(FromNone())
      case Some(d) => Ok(Some(d))
  }

  /** The `trim` of `filter(|x| x.trim().is_empty())`. */
  predicate IsBlank(line: string) {
    TrimMatches(line, IsWhitespace) == []
  }

  /** The first line the filter lets through. */
  function FirstBlank(lines: seq<string>): (r: Option<string>)
    ensures r.Some? ==> IsBlank(r.value)
    ensures r.None? <==> forall i :: 0 <= i < |lines| ==> !IsBlank(lines[i])
    ensures r.Some? ==>
      exists i :: 0 <= i < |lines| && lines[i] == r.value &&
        (forall j :: 0 <= j < i ==> !IsBlank(lines[j]))
  {
    if lines == [] then None
    else if IsBlank(lines[0]) then Some(lines[0])
    else
      var r := FirstBlank(lines[1..]);
      assert forall i :: 1 <= i < |lines| ==> lines[i] == lines[1..][i - 1];
      if r.Some? then
        ghost var i :| 0 <= i < |lines[1..]| && lines[1..][i] == r.value &&
          (forall j :: 0 <= j < i ==> !IsBlank(lines[1..][j]));
        assert lines[i + 1] == r.value;
        r
      else r
  }

  function RandomPortArgs(serial: string, remote: string): seq<string> {
    ["-s", serial, "forward", "tcp:0", remote]
  }

  /** `forward_random_port`: the first blank output line parsed as an i32.
      Since only blank lines pass the filter, the parse never succeeds. */
  function ForwardRandomPort(run: Runner, serial: string, remote: string): (r: Result<int, ExecuteError>)
    ensures r.Err?
    ensures run(RandomPortArgs(serial, remote)).Err? ==> r == Err(run(RandomPortArgs(serial, remote)).error)
  {
    match run(["-s", serial, "forward", "tcp:0", remote])
    case Err(e) => Err(e)
    case Ok(output) =>
      match FirstBlank(Lines(output))
      case None => Err(FromNone())
      case Some(line) =>
        BlankNeverParses(line);
        match ParseI32(line)
        case Err(k) => Err(FromParseInt(k))
        case Ok(port) => Ok(port)
  }

  /** A blank line is no number: empty, or starting with whitespace. */
  lemma BlankNeverParses(line: string)
    requires IsBlank(line)
    ensures ParseI32(line) == Err(if line == [] then Empty else InvalidDigit)
  {
    TrimEmpty(line, IsWhitespace);
    if line != [] {
      assert IsWhitespace(line[0]);
      ParseBadStart(line, true, -0x8000_0000, 0x7FFF_FFFF);
    }
  }

  /** Which error `forward_random_port` gives once the tool has run. */
  lemma ForwardRandomPortError(run: Runner, serial: string, remote: string)
    requires run(RandomPortArgs(serial, remote)).Ok?
    ensures var lines := Lines(run(RandomPortArgs(serial, remote)).value);
      ForwardRandomPort(run, serial, remote) ==
        if forall i :: 0 <= i < |lines| ==> !IsBlank(lines[i]) then Err(FromNone())
        else if FirstBlank(lines) == Some("") then Err(ParseIntError(Empty))
        else Err(ParseIntError(InvalidDigit))
  {
    var lines := Lines(run(RandomPortArgs(serial, remote)).value);
    match FirstBlank(lines)
    case None =>
    case Some(line) => BlankNeverParses(line);
  }

  /** With `command` as written the collected text is always empty: the
      listing holds no device, `find_device` reports "adb no output", and
      so does `forward_random_port`, since no line reaches its filter. */
  lemma SilentTool(run: Runner, serial: string, remote: string)
    requires run(["devices"]) == Ok("")
    requires run(RandomPortArgs(serial, remote)) == Ok("")
    ensures Devices(run) == Ok([])
    ensures FindDevice(run, serial) == Err(AdbExecuteError("adb no output"))
    ensures ForwardRandomPort(run, serial, remote) == Err(AdbExecuteError("adb no output"))
  {
    assert Lines("") == [];
    assert RandomPortArgs(serial, remote) == ["-s", serial, "forward", "tcp:0", remote];
  }

  /** A listing whose last line ends in a bare '\r' loses that '\r' to
      `lines`, so a serial alone on that line gives no device. */
  lemma DevicesFinalCr(run: Runner, header: string, serial: string)
    requires NoneMatch(header, IsNewline) && NoneMatch(serial, IsNewline) && NoneMatch(serial, IsSpace)
    requires run(["devices"]) == Ok(header + "\n" + serial + "\r")
    ensures Devices(run) == Ok([None])
  {
    LinesFinalCr(header, serial);
    assert NewDevice(serial) == None;
    assert ParseLines([StripCr(header), serial]) == [NewDevice(serial)];
  }

  /** `forward_ipc`: a random-port forward to the named socket, with the
      prefix spelled "localabstuct:"; it fails as `forward_random_port` does. */
  function ForwardIpc(run: Runner, serial: string, remote: string): (r: Result<int, ExecuteError>)
    ensures r.Err?
    ensures r == ForwardRandomPort(run, serial, "localabstuct:" + remote)
  {
    ForwardRandomPort(run, serial, "localabstuct:" + remote)
  }

  /** `forward`: runs the tool once and ignores what it prints. */
  function Forward(run: Runner, serial: string, local: string, remote: string): (r: Result<Unit, ExecuteError>)
    ensures var out := run(["-s", serial, "forward", local, remote]);
      (r.Ok? <==> out.Ok?) && (out.Err? ==> r.error == out.error)
  {
    match run(["-s", serial, "forward", local, remote])
    case Err(e) => Err(e)
    case Ok(_) => Ok(Unit)
  }

  /** `remove_forward`: the tool is given "tcp:<local>" and no remote. */
  function RemoveForward(run: Runner, serial: string, local: string): (r: Result<Unit, ExecuteError>)
    ensures var out := run(["-s", serial, "forward", "tcp:" + local]);
      (r.Ok? <==> out.Ok?) && (out.Err? ==> r.error == out.error)
  {
    match run(["-s", serial, "forward", "tcp:" + local])
    case Err(e) => Err(e)
    case Ok(_) => Ok(Unit)
  }
}
