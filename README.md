# adb-rs core in Dafny

This project models the client side of the adb server protocol as adb-rs
implements it, together with the launcher's wrapper around the `adb`
command-line tool. It covers:

- **The byte-level connection (`Client`).** `AdbClient` is a class with the
  bytes the server sends, a read cursor and the bytes written so far. Its
  methods are the status-word reads (`conn_code`, `check_code_is`,
  `check_ok`), the length-prefixed and exact-length reads (`read_string`,
  `read_n_bytes`, `read_n_string`, `read_u32`, `recv_full`,
  `rend_full_string`) and `send`. Each read is specified by a pure step
  function over the bytes not yet read. The step function gives the result
  and the number of bytes consumed.
- **The server requests (`Server`).** These are `adb_version`, `devices`,
  `forward_list` with its `handle_forward` fold, `forward` and `reverse`,
  plus the `AdbDevice` and `AndroidDebugBridge` handles that delegate to
  them.
- **Forward endpoints (`BaseType`).** `MappingType::from_str` and
  `ForwardDevice::new`.
- **The transport message (`Message`).** The command words, their byte
  encodings and the 24-byte little-endian header.
- **The launcher wrapper (`PhoneAdb`).** `Device::new`, `devices`,
  `find_device`, `forward_random_port`, `forward_ipc`, `forward` and
  `remove_forward`. Running the tool is a function parameter `run` that
  stands for `command`: from the argument list to the text collected from
  the child, or the error that starting it, waiting for it or decoding that
  text gave. `run` is left general so that the parsing is modelled for any
  text; what `command` as written collects is described below.
- **The two error enums (`AdbErrors`, `ExecErrors`, with `Io`).** These
  include the `From` conversions that `?` applies.
- **Standard-library behaviour the code depends on, written out:**
  - UTF-8 encoding, strict decoding and lossy decoding (`Utf8`).
  - `u32`/`i32::from_str` with Rust's error kinds (`IntParse`).
  - `split`, `lines`, `split_ascii_whitespace`, `trim_matches` and `join`
    (`Text`).

  The crate needs a nightly compiler from the time `std::option::NoneError`
  and `#![feature(try_trait)]` existed (`src/main.rs:1`,
  `src/errors/error.rs:3`), and the standard library is modelled as it
  behaved then. Two behaviours differ from later releases. `lines` drops a
  trailing '\r' from the unterminated last line as well (`Text.Lines`).
  `from_str` reads a lone sign as an empty number, not as an invalid digit
  (`IntParse.ParseInt`). The error kinds keep their later names
  (`PosOverflow`, `NegOverflow` for `Overflow`, `Underflow`); their
  descriptions are the same.
  - little- and big-endian `u32` bytes (`Bytes`).

Integers are unbounded in Dafny. The `u32` and byte types are subset types,
and every place where the code works modulo 2^32 is written out. Rust
`String`s are Dafny strings. Socket data is a sequence of bytes, and the
conversion between the two is explicit.

## Code versus description

Each of these is modelled as the code is written, and the lemma named beside
it states the consequence.

- **`send` always writes the header "000C".** It folds over the big-endian
  bytes of `"host:version".len()` rather than the command's length, and
  `{:X}` does not pad, so the fold gives "0", "0", "0", "C"
  (`Client.SendHeaderValue`). adb's host protocol asks for the command's
  length as four hex digits.
- **`reverse` has a stray comma.** Its first request is
  `format!("{},{}", "host:transport:", serial)`, that is
  "host:transport:," followed by the serial (`Server.TransportText`).
- **`adb_version` sends no request and reads no status word.** It reads a
  length-prefixed string straight away. A reply that starts with "OKAY" is
  therefore a parse error (`Server.AdbVersionSpec`).
- **`read_string` reads the length field as decimal.** It parses the four
  bytes with `u32::from_str`, not as hexadecimal
  (`Client.ReadStringSpec`).
- **`AdbConnState::from` decodes only OKAY.** Every other word, including
  DENT, DONE and DATA, becomes FAIL (`Client.StatusRoundTrip`).
- **`forward_random_port` can never succeed.** Its filter keeps the blank
  lines, the opposite of skipping them, so it can never return a port
  (`PhoneAdb.ForwardRandomPort`, `PhoneAdb.ForwardRandomPortError`).
- **`command` collects no output.** It spawns the tool without
  `stdout(Stdio::piped())` (`src/resource/phone/adb.rs:41-46`), so the
  child writes to the launcher's own standard output and
  `wait_with_output` returns an empty `stdout`. Once the tool starts and
  ends, `command` gives `Ok("")`. Then `devices` is always `Ok([])`, and
  `find_device` and `forward_random_port` always fail with "adb no output"
  (`PhoneAdb.SilentTool`). The operations' names describe parsing the
  tool's listing, and that parsing is modelled for any text `run` gives.
- **`devices` keeps each whole listing line as the serial.** The
  server's listing has a serial, a tab and a state on each line; the code
  only drops blank lines and keeps the rest whole, so
  "emulator-5554\tdevice" is the serial (`adb-rs/src/adb/server.rs:55-60`,
  `Server.DeviceSerialsExample`).
- **`forward` joins its fields with ';' and sends bare numbers.** It
  writes "host-serial;<serial>;forward[;norebind];<local>;<remote>", with
  the local port as a bare number and a port remote as a bare number too
  (`adb-rs/src/adb/server.rs:99-110`, `Server.RequestForward`). The host
  protocol's form is "host-serial:<serial>:forward:tcp:<local>;tcp:<remote>".
- **`forward_ipc` misspells its prefix** as "localabstuct:"
  (`PhoneAdb.ForwardIpc`).
- **The byte comments in `Into<Vec<u8>> for AdbMessageType` are misleading.**
  The bytes are the big-endian bytes of the `A_*` constants, so each one is
  its command's name backwards (`Message.ToBytesReversedName`).

## Model

| member | source | states |
|---|---|---|
| Client.FromStatusOkay | adb-rs/src/client.rs:73-82 | a 4-byte status word decodes to OKAY exactly when it is the bytes of "OKAY", and to FAIL otherwise |
| Client.StatusRoundTrip | adb-rs/src/client.rs:52-82 | every state's name is 4 bytes on the wire, and decoding that name gives the state back only for OKAY and FAIL |
| Client.UpperHex | adb-rs/src/client.rs:219 | `{:X}` of a byte is one upper-case hexadecimal digit below 16 and two otherwise, and its hexadecimal value is the byte |
| Client.HexDigitValueInjective | adb-rs/src/client.rs:219 | an upper-case hexadecimal digit is fixed by its value, which is below 16 |
| Client.UpperHexUnique | adb-rs/src/client.rs:219 | any text of upper-case hexadecimal digits with the byte's value and no padding is `{:X}` of that byte |
| Client.SendHeaderValue | adb-rs/src/client.rs:216-221 | the header `send` builds from the length of "host:version" is always the four bytes of "000C", whatever the command |
| Client.CheckOkSpec | adb-rs/src/client.rs:188-206 | `check_ok` consumes 4 bytes and succeeds exactly on "OKAY"; any other word is a ConnectionRefused error; fewer than 4 bytes is the `read_exact` error |
| Client.ReadNBytesSpec | adb-rs/src/client.rs:163-173 | `read_n_bytes` consumes min(n, available) bytes, yields the next n bytes when there are n, and otherwise reports how many it got |
| Client.ReadNStringSpec | adb-rs/src/client.rs:175-186 | `read_n_string` succeeds exactly when n bytes remain and are UTF-8, and then the text encodes to those bytes; invalid UTF-8 is reported before a short read |
| Client.ReadNStringAgrees | adb-rs/src/client.rs:163-186 | when the text read succeeds, the byte read of the same input succeeds with the bytes of that text |
| Client.ReadStringSpec | adb-rs/src/client.rs:141-150 | a length field that is not a u32 literal is a parse error after 4 bytes; otherwise the declared number of bytes is read as text, and on success the text is those bytes |
| Client.ReadStringOfReply | adb-rs/src/client.rs:141-150 | a four-byte length field spelling n followed by a text of n bytes is read back as that text, consuming 4 + n bytes |
| Client.ReadU32Spec | adb-rs/src/client.rs:152-157 | `read_u32` never fails, consumes up to 4 bytes, reads them little-endian with missing bytes as 0, and inverts `to_le_bytes` when 4 bytes are there |
| Client.FullStringSpec | adb-rs/src/client.rs:134-138 | `rend_full_string` consumes everything left and succeeds exactly when it is UTF-8, yielding text that encodes back to those bytes |
| Client.AdbClient.constructor | adb-rs/src/client.rs:115-121 | a new client has read and written nothing |
| Client.AdbClient.ReadExact | adb-rs/src/client.rs:145 | the result and the bytes consumed are those of `ReadExactStep` on the unread input; nothing is written |
| Client.AdbClient.RendFullString | adb-rs/src/client.rs:134-138 | result and consumption agree with `FullStringStep` |
| Client.AdbClient.ReadString | adb-rs/src/client.rs:141-150 | result and consumption agree with `ReadStringStep` |
| Client.AdbClient.ReadU32 | adb-rs/src/client.rs:152-157 | result and consumption agree with `ReadU32Step` |
| Client.AdbClient.ReadN | adb-rs/src/client.rs:159-161 | result and consumption agree with `ReadNBytesStep` |
| Client.AdbClient.ReadNBytes | adb-rs/src/client.rs:163-173 | result and consumption agree with `ReadNBytesStep` |
| Client.AdbClient.ReadNString | adb-rs/src/client.rs:175-186 | result and consumption agree with `ReadNStringStep` |
| Client.AdbClient.ConnCode | adb-rs/src/client.rs:188-192 | result and consumption agree with `ConnCodeStep` |
| Client.AdbClient.CheckCodeIs | adb-rs/src/client.rs:194-197 | result and consumption agree with `CheckCodeIsStep` |
| Client.AdbClient.CheckOk | adb-rs/src/client.rs:199-206 | result and consumption agree with `CheckOkStep` |
| Client.AdbClient.RecvFull | adb-rs/src/client.rs:208-211 | the buffer is filled with the next bytes and the call succeeds exactly when there were enough; on a short stream the bytes that were there are copied and the rest of the buffer is untouched |
| Client.AdbClient.Send | adb-rs/src/client.rs:215-227 | the output grows by exactly the header followed by the command, nothing is read, and the count returned is their total length |
| BaseType.FromStr | adb-rs/src/adb/base_type.rs:13-18 | `from_str` never fails |
| BaseType.FromStrSpec | adb-rs/src/adb/base_type.rs:13-18 | the result is a port exactly for u32 literals, with the value they spell, and otherwise the unchanged text as a socket name |
| BaseType.FromStrDecimal | adb-rs/src/adb/base_type.rs:14-15 | the decimal text of any u32 is parsed as that port, never as a socket name |
| BaseType.NewForwardDevice | adb-rs/src/adb/base_type.rs:30-38 | serial and local port are kept, and the remote is a port exactly when the text is a u32 literal, otherwise the text itself |
| Server.ListingRefused | adb-rs/src/adb/server.rs:50-53 | a listing reply whose status is not "OKAY" fails with the refusal after 4 bytes, for `devices` and `forward_list` alike, with nothing parsed |
| Server.ListingAccepted | adb-rs/src/adb/server.rs:73-76 | after "OKAY", the listing is the length-prefixed string that follows |
| Server.NonBlankSpec | adb-rs/src/adb/server.rs:55-61 | every serial is a non-blank line of the listing, whole, and every non-blank line is a serial |
| Server.NotBlankSpec | adb-rs/src/adb/server.rs:54-57 | a line is dropped exactly when it holds only spaces and tabs |
| Server.DeviceSerialsCons | adb-rs/src/adb/server.rs:55-61 | the listing is read line by line from the front: the first line gives a serial when it is not blank, and the rest follow in order |
| Server.DeviceSerialsOneLine | adb-rs/src/adb/server.rs:56-57 | a listing without a line feed gives at most its one line |
| Server.DeviceSerialsExample | adb-rs/src/adb/server.rs:56-60 | "emulator-5554\tdevice\n" gives the single serial "emulator-5554\tdevice", state included |
| Server.NonBlankAppend | adb-rs/src/adb/server.rs:57 | filtering a concatenation of line lists filters each part in order |
| Server.ForwardLineSpec | adb-rs/src/adb/server.rs:88-97 | a line gives at most one entry, and gives one exactly when it has at least three tokens and the second is a u32 literal; its fields are the first three tokens |
| Server.ForwardLineNeedsNumber | adb-rs/src/adb/server.rs:93 | a line whose local field is "tcp:1234" gives no entry |
| Server.ForwardEntriesAppend | adb-rs/src/adb/server.rs:77-84 | the entries of concatenated lines are the entries of each part, in order |
| Server.ForwardEntriesBound | adb-rs/src/adb/server.rs:77-84 | there are never more entries than lines |
| Server.HandleForward | adb-rs/src/adb/server.rs:88-97 | appends to the accumulator exactly the entry the line's tokens stand for, or nothing |
| Server.ParseForwardList | adb-rs/src/adb/server.rs:77-84 | the fold over the lines of the listing yields the entries of all lines in line order |
| Server.ReadListing | adb-rs/src/adb/server.rs:51-53 | writes the header and the request, then the status word and the length-prefixed reply are read; the result and consumption agree with `ListingStep` |
| Server.ForwardList | adb-rs/src/adb/server.rs:67-86 | sends "host-serial:<s>:list-forward" or "host:list-forward", and the result and consumption agree with `ForwardListStep` |
| Server.AdbVersionSpec | adb-rs/src/adb/server.rs:44-48 | the version is the u32 the reply string spells and fails exactly when the string is not one; a reply starting with "OKAY" is a parse error after 4 bytes |
| Server.AdbVersionExample | adb-rs/src/adb/mod.rs:14-20 | the reply "0004" then "0029" is version 29, read in eight bytes |
| Server.RequestForward | adb-rs/src/adb/server.rs:99-113 | writes exactly one request, "host-serial;<serial>;forward[;norebind];<local>;<remote>" with norebind only for Some(true) and the remote as socket name or decimal port, reads nothing, and returns Ok |
| Server.JoinForward | adb-rs/src/adb/server.rs:100-110 | joining the collected segments with ';' gives that request text |
| Server.TransportText | adb-rs/src/adb/server.rs:117 | the text `format!("{},{}", "host:transport:", serial)` builds is "host:transport:," followed by the serial |
| Server.ReverseText | adb-rs/src/adb/server.rs:119-121 | joining "reverse:forward" and "<remote>;<local>" with ':' gives "reverse:forward:<remote>;<local>" |
| Server.RequestReverse | adb-rs/src/adb/server.rs:116-123 | writes "host:transport:,<serial>", reads one status word, and writes "reverse:forward:<remote>;<local>" only when the status is OKAY; otherwise it returns that status error |
| Server.AdbDevice.constructor | adb-rs/src/adb/server.rs:14-19 | keeps the connection and the serial |
| Server.AdbDevice.Forward | adb-rs/src/adb/server.rs:21-23 | the same request and result as `forward` with the device's own serial |
| Server.AdbDevice.Reverse | adb-rs/src/adb/server.rs:25-27 | the same requests and result as `reverse` with the device's own serial |
| Server.AndroidDebugBridge.constructor | adb-rs/src/adb/server.rs:37-42 | wraps the given connection |
| Server.AndroidDebugBridge.AdbVersion | adb-rs/src/adb/server.rs:44-48 | writes nothing, and the result and consumption agree with `AdbVersionStep` |
| Server.AndroidDebugBridge.Devices | adb-rs/src/adb/server.rs:50-63 | writes the header and "host:devices", and the result and consumption agree with `DevicesStep` |
| Message.ToBytes | adb-rs/src/protocol/message.rs:24-36 | every command word is 4 bytes |
| Message.ToBytesInjective | adb-rs/src/protocol/message.rs:27-33 | two commands have the same bytes exactly when they are the same command |
| Message.ToBytesBigEndian | adb-rs/src/protocol/message.rs:4-10 | each command's bytes are the big-endian bytes of its `A_*` constant |
| Message.ToBytesReversedName | adb-rs/src/protocol/message.rs:4-33 | each command's bytes are its name backwards, and the name is the constant's little-endian bytes |
| Message.Magic | adb-rs/src/protocol/message.rs:65-67 | `command ^ 0xffffffff` is the bitwise complement, 0xffffffff - command |
| Message.XorAllOnes | adb-rs/src/protocol/message.rs:65-67 | exclusive or with w one-bits complements any w-bit number |
| Message.MagicInvolution | adb-rs/src/protocol/message.rs:65-67 | applying the magic twice gives the command back, and the magic never equals the command |
| Message.Header | adb-rs/src/protocol/message.rs:39-42 | the header is 24 bytes |
| Message.ParseHeaderInverse | adb-rs/src/protocol/message.rs:39-68 | reading the six little-endian words back from a header's bytes gives the header |
| Message.HeaderOfParse | adb-rs/src/protocol/message.rs:39-68 | any 24 bytes are the header of the words read from them |
| Message.WellFormedCheck | adb-rs/src/protocol/message.rs:59-67 | a header is well formed exactly when its magic, complemented, is its command and its length field is the payload's length; encoding and reading back keeps this |
| Message.HeaderStartsWithName | adb-rs/src/protocol/message.rs:4-10 | a header's first four bytes are its command's name |
| PhoneAdb.NewDevice | src/resource/phone/adb.rs:17-29 | a device is found exactly when the line has a space or carriage return; the serial is the text before the first, and the state runs from there to the next separator or the end |
| PhoneAdb.NewDeviceTab | src/resource/phone/adb.rs:17-19 | a line separated by a tab gives no device |
| PhoneAdb.NewDeviceFields | src/resource/phone/adb.rs:17-29 | a serial, one separator, a state, and then nothing or a further separator, gives that serial and that state |
| PhoneAdb.NewDeviceDoubleSpace | src/resource/phone/adb.rs:22-24 | two spaces in a row give an empty state |
| PhoneAdb.NewDeviceOneSpace | src/resource/phone/adb.rs:21-29 | "ab device" gives serial "ab" and state "device" |
| PhoneAdb.ParseLines | src/resource/phone/adb.rs:50-52 | one element per line after the first, each the parse of that line, in order |
| PhoneAdb.Devices | src/resource/phone/adb.rs:48-54 | the tool's error is passed on; otherwise there are max(0, lines - 1) elements, element i being the parse of line i + 1 |
| PhoneAdb.FirstMatch | src/resource/phone/adb.rs:81-85 | finds a device exactly when some parsed device has the serial, and then it is the first such |
| PhoneAdb.FindDevice | src/resource/phone/adb.rs:79-87 | Ok only with a device of the requested serial, the first listed; with no match the error is "adb no output"; never Ok(None) |
| PhoneAdb.FirstBlank | src/resource/phone/adb.rs:62-65 | the first line that is empty after `trim` (every earlier line is not), and none exactly when no line is |
| PhoneAdb.IsSpace | src/resource/phone/adb.rs:17-19 | the two field separators are ASCII whitespace and never a line feed |
| PhoneAdb.SilentTool | src/resource/phone/adb.rs:40-87 | when the tool's collected text is empty, as `command` makes it, `devices` is Ok([]), and `find_device` and `forward_random_port` fail with "adb no output" |
| PhoneAdb.DevicesFinalCr | src/resource/phone/adb.rs:48-54 | a listing whose last line is a serial ended by a bare '\r' gives one `None`, as `lines` drops that '\r' |
| PhoneAdb.BlankNeverParses | src/resource/phone/adb.rs:63-64 | a blank line parses as i32 to Empty when it is empty and to InvalidDigit otherwise |
| PhoneAdb.ForwardRandomPort | src/resource/phone/adb.rs:60-67 | never returns Ok, and passes on the tool's error |
| PhoneAdb.ForwardRandomPortError | src/resource/phone/adb.rs:60-67 | with no blank line the error is "adb no output", with an empty first blank line ParseIntError(Empty), and otherwise ParseIntError(InvalidDigit) |
| PhoneAdb.ForwardIpc | src/resource/phone/adb.rs:56-58 | a random-port forward to "localabstuct:" + name, so it fails too |
| PhoneAdb.Forward | src/resource/phone/adb.rs:69-72 | succeeds exactly when the tool run with ["-s", serial, "forward", local, remote] does, and passes on its error |
| PhoneAdb.RemoveForward | src/resource/phone/adb.rs:74-77 | succeeds exactly when the tool run with ["-s", serial, "forward", "tcp:" + local] does, and passes on its error |
| IntParse.ParseU32Spec | adb-rs/src/adb/base_type.rs:14 | `u32::from_str` succeeds exactly on a u32 literal: an optional '+', then digits whose value fits; the value is those digits' value |
| IntParse.ParseDecimal | adb-rs/src/adb/server.rs:106-107 | the decimal text of a u32 parses back to it |
| IntParse.DecimalValue | adb-rs/src/adb/server.rs:119 | the digits `format!("{}", n)` writes have value n |
| IntParse.ParseBadStart | src/resource/phone/adb.rs:64 | a word starting with neither a digit nor a sign fails with InvalidDigit |
| IntParse.ParseInt | adb-rs/src/client.rs:147 | a parsed value lies within the integer type's range |
| IntParse.ParseLoneSign | src/resource/phone/adb.rs:64 | a lone '+' is an Empty error; a lone '-' is Empty for a signed type and InvalidDigit for an unsigned one |
| IntParse.AccumulateDigits | adb-rs/src/client.rs:147 | accumulating digits succeeds exactly when the running value stays within range, and its value is positional |
| IntParse.AccumulateNonDigit | adb-rs/src/client.rs:147 | a non-digit anywhere makes the parse fail |
| Utf8.DecodeEncode | adb-rs/src/adb/server.rs:111 | strict decoding of a text's bytes gives the text back |
| Utf8.EncodeDecode | adb-rs/src/client.rs:136 | bytes that decode are the encoding of their text |
| Utf8.LossyOfValid | adb-rs/src/client.rs:146 | lossy decoding agrees with strict decoding on valid UTF-8 |
| Utf8.LossyAscii | adb-rs/src/client.rs:75-76 | when the lossy text is ASCII, the bytes were that ASCII text, one byte per character |
| Utf8.LossyOfAscii | adb-rs/src/client.rs:75 | ASCII bytes decode lossily to the same characters |
| Utf8.EncodeAscii | adb-rs/src/adb/server.rs:51 | an ASCII text is encoded one byte per character |
| Text.SplitPieces | adb-rs/src/adb/server.rs:56 | a split has one more piece than separators, and no piece holds a separator |
| Text.JoinSplit | adb-rs/src/adb/server.rs:78 | joining the pieces of a split on one character with that character rebuilds the text |
| Text.SplitAppend | adb-rs/src/adb/server.rs:56 | splitting "a, separator, b" gives a followed by the pieces of b |
| Text.SplitHead | src/resource/phone/adb.rs:22-24 | the first piece is the text before the first separator; a second piece exists exactly when there is a separator, and runs to the next one |
| Text.LinesNoNewline | src/resource/phone/adb.rs:50 | no line holds a line feed |
| Text.LinesCount | src/resource/phone/adb.rs:50 | there is one line per line feed, plus one for an unterminated final piece |
| Text.StripCr | src/resource/phone/adb.rs:50 | the stripped line is the line or the line without its last character, and it is shorter exactly when the line ends in '\r' |
| Text.LinesCons | src/resource/phone/adb.rs:50 | a line ended by a line feed is the first line, without its trailing '\r' |
| Text.LinesLast | src/resource/phone/adb.rs:50 | text with no line feed is one line, without its trailing '\r' |
| Text.LinesFinalCr | src/resource/phone/adb.rs:50 | the '\r' at the end of an unterminated last line is dropped too |
| Text.FindAfter | src/resource/phone/adb.rs:50 | the first match after a prefix without one is found at the prefix's length plus its place in the rest |
| Text.TokensShape | adb-rs/src/adb/server.rs:79 | tokens are non-empty and hold no ASCII whitespace |
| Text.TokensCover | adb-rs/src/adb/server.rs:79 | the tokens, concatenated, are the line with its ASCII whitespace removed |
| Text.TrimEmpty | adb-rs/src/adb/server.rs:57 | trimming leaves nothing exactly when every character is trimmed |
| Text.Find | src/resource/phone/adb.rs:22 | the index found is the first match, or the length when there is none |
| AdbErrors.FromFmtError | adb-rs/src/errors.rs:29-35 | a formatter error becomes WriteMsgErr with a non-empty cause |
| AdbErrors.FromIo | adb-rs/src/errors.rs:37-43 | an I/O error becomes IoError carrying it |
| AdbErrors.FromParseInt | adb-rs/src/errors.rs:45-51 | a parse error becomes ProtocolParseError with its description |
| AdbErrors.FromParseIntInjective | adb-rs/src/errors.rs:45-51 | the description kept still tells every parse error kind apart |
| ExecErrors.FromToml | src/errors/error.rs:34-40 | a TOML error becomes TomlConfigError carrying its text |
| ExecErrors.FromNone | src/errors/error.rs:42-48 | an empty `Option` becomes AdbExecuteError "adb no output" |
| ExecErrors.FromParseInt | src/errors/error.rs:50-56 | a parse error becomes ParseIntError carrying its kind |
| ExecErrors.FromUtf8 | src/errors/error.rs:58-64 | a UTF-8 error becomes Utf8Error carrying its text |
| ExecErrors.FromNix | src/errors/error.rs:66-72 | a `nix` error becomes TaskError with its text |
| ExecErrors.FromIo | src/errors/error.rs:74-80 | an I/O error becomes IoError carrying it |
| Bytes.FromLeToLe | adb-rs/src/client.rs:155 | `from_le_bytes` inverts `to_le_bytes` |
| Bytes.ToLeFromLe | adb-rs/src/client.rs:155 | `to_le_bytes` inverts `from_le_bytes` on 4 bytes |
| Bytes.ToBe | adb-rs/src/client.rs:216 | the big-endian bytes are the little-endian bytes reversed |

## Left out

- I/O failures on write: `send`'s single `write` is modelled as writing the whole buffer and never failing. Partial writes and write errors are not modelled.
- Read errors other than end of stream (timeouts, resets): the server's bytes are a fixed sequence.
- `AdbClient::new`, `set_timeout`, `Clone` and `AdbConfig` with its platform defaults: these open sockets and depend on the OS. A client starts from the bytes the server will send.
- Server.AndroidDebugBridge.Devices: returns the serials only. Each `AdbDevice` in the source also gets a cloned client, which opens a fresh TCP connection; that is not modelled.
- `check_adb_is_fine`: a stub that always returns Ok.
- `push_file` and `AdbClient::command`: spawning the tool is the `run` parameter. `push_file`'s path-to-string conversion is not modelled.
- The `Display` texts of the error enums, except `ParseIntError`'s description that `AdbError` keeps. `nix`, `toml` and `FromUtf8Error` values are carried as their texts.
- The CRC32 of a payload (`data_crc32`) is carried as a number; no CRC is computed, and the code computes none either.
- Message sending and receiving: the source defines only the message types and header fields, with no read or write of them.
- `MappingDevice`, `DeviceStatus`, `DeviceEvent`, `ShellResult` and `AdbCommand` are re-exported by `adb-rs/src/adb/mod.rs` and `adb-rs/src/lib.rs`, but they are not part of this model.
- Process control, HTTP glue, configuration loading, Python bindings and the filesystem resources of the launcher are not part of this model.
- The `adb_version` test (`adb-rs/src/adb/mod.rs:14-20`) needs a running server; only the reply it expects is modelled (`Server.AdbVersionExample`).
