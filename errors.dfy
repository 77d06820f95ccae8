/** `std::io::Error` reduced to what the core observes: its kind and message. */
module Io {

  datatype ErrorKind = UnexpectedEof | ConnectionRefused | InvalidData | Other

  datatype Error = Error(kind: ErrorKind, message: string)

  /** What `Read::read_exact` reports when the stream ends first. */
  const FillWholeBuffer: Error := Error(UnexpectedEof, "failed to fill whole buffer")

  /** What `Read::read_to_string` reports for bytes that are not UTF-8. */
  const NotUtf8: Error := Error(InvalidData, "stream did not contain valid UTF-8")
}

/** `AdbError` of the protocol crate and its `From` conversions. */
module AdbErrors {
  import Io
  import opened IntParse

  datatype AdbError =
    | ProtocolParseError(why: string)
    | IoError(io: Io.Error)
    | FilePathErr(path: string)
    | WriteMsgErr(cause: string)
    | FileTransferErr(filename: string, cause: string)

  /** `From<std::fmt::Error>`: the cause is the formatter error's text. */
  function FromFmtError(): (r: AdbError)
    ensures r.WriteMsgErr? && |r.cause| > 0
  {
    WriteMsgErr("an error occurred when formatting an argument")
  }

  /** `From<io::Error>` */
  function FromIo(e: Io.Error): (r: AdbError)
    ensures r.IoError? && r.io == e
  {
    IoError(e)
  }

  /** `From<ParseIntError>`: the reason is the parse error's text. */
  function FromParseInt(k: IntErrorKind): (r: AdbError)
    ensures r.ProtocolParseError? && r.why == Description(k)
  {
    ProtocolParseError(Description(k))
  }

  /** Only the text of a parse error is kept, and it still tells the four
      kinds apart. */
  lemma FromParseIntInjective(a: IntErrorKind, b: IntErrorKind)
    ensures FromParseInt(a) == FromParseInt(b) <==> a == b
  {
    if a != b {
      DescriptionKey(a);
      DescriptionKey(b);
    }
  }
}

/** `ExecuteError` of the launcher and its `From` conversions. */
module ExecErrors {
  import Io
  import opened IntParse

  datatype ExecuteError =
    | AdbExecuteError(why: string)
    | TaskError(why: string)
    | IoError(e: Io.Error)
    | Utf8Error(utf8: string)
    | ParseIntError(kind: IntErrorKind)
    | TomlConfigError(toml: string)

  /** `From<NoneError>`: what `?` on an empty `Option` turns into. */
  function FromNone(): (r: ExecuteError)
    ensures r.AdbExecuteError? && r.why == "adb no output"
  {
    AdbExecuteError("adb no output")
  }

  /** `From<ParseIntError>` */
  function FromParseInt(k: IntErrorKind): (r: ExecuteError)
    ensures r.ParseIntError? && r.kind == k
  {
    ParseIntError(k)
  }

  /** `From<io::Error>` */
  function FromIo(e: Io.Error): (r: ExecuteError)
    ensures r.IoError? && r.e == e
  {
    IoError(e)
  }

  /** `From<FromUtf8Error>`, carrying the error's text. */
  function FromUtf8(text: string): (r: ExecuteError)
    ensures r.Utf8Error? && r.utf8 == text
  {
    Utf8Error(text)
  }

  /** `From<nix::Error>`: the reason is the error's text. */
  function FromNix(text: string): (r: ExecuteError)
    ensures r.TaskError? && r.why == text
  {
    TaskError(text)
  }

  /** `From<toml::de::Error>`, carrying the error's text. */
  function FromToml(text: string): (r: ExecuteError)
    ensures r.TomlConfigError? && r.toml == text
  {
    TomlConfigError(text)
  }
}
