/** Forward endpoints: `MappingType` and its `FromStr`, and `ForwardDevice`. */
module BaseType {
  import opened Results
  import opened Bytes
  import opened IntParse
  import opened AdbErrors

  /** A forward endpoint: a named local socket or a TCP port. */
  datatype MappingType = Ipc(name: string) | Port(port: u32)

  /** `MappingType::from_str`: a u32 literal is a port, anything else is
      kept verbatim as a socket name; it never fails. */
  function FromStr(s: string): (r: Result<MappingType, AdbError>)
    ensures r.Ok?
  {
    match ParseU32(s)
    case Ok(port) => Ok(Port(port))
    case Err(_) => Ok(Ipc(s))
  }

  /** One entry of a forward listing. */
  datatype ForwardDevice = ForwardDevice(serial: string, local: u32, remote: MappingType)

  /** `ForwardDevice::new`: the `unwrap` of `from_str` cannot fail. */
  function NewForwardDevice(serial: string, local: u32, remote: string): (d: ForwardDevice)
    ensures d.serial == serial && d.local == local
    ensures d.remote.Port? <==> IsU32Literal(remote)
    ensures d.remote.Port? ==> d.remote.port == Value(Unsigned(remote))
    ensures d.remote.Ipc? ==> d.remote.name == remote
  {
    ParseU32Spec(remote);
    ForwardDevice(serial, local, FromStr(remote).value)
  }

  /** `from_str` yields a port exactly for the u32 literals (the value they
      spell) and the unchanged text for everything else. */
  lemma FromStrSpec(s: string)
    ensures FromStr(s).value.Port? <==> IsU32Literal(s)
    ensures FromStr(s).value.Port? ==> FromStr(s).value.port == Value(Unsigned(s))
    ensures FromStr(s).value.Ipc? ==> FromStr(s).value.name == s
  {
    ParseU32Spec(s);
  }

  /** The decimal text of any u32 is read as that port, never as a socket name. */
  lemma FromStrDecimal(n: u32)
    ensures FromStr(Decimal(n)) == Ok(Port(n))
  {
    ParseDecimal(n);
  }
}
