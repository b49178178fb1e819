/** The control messages of src/proto.rs that the session and the data paths use. */
module Proto {
  import opened Bytes

  const PROTOCOL_VERSION: u16 := 1

  datatype Mode = Tcp | Udp | File

  datatype Negotiate = Negotiate(
    mode: Mode,
    durationSecs: u64,
    warmupSecs: u64,
    parallel: nat,
    bufferBytes: nat,
    bidir: bool,
    bitrateBps: Option<u64>,
    packetBytes: Option<nat>,
    fileLen: Option<u64>,
    nullSource: Option<bool>)

  function UnwrapOr<T>(o: Option<T>, d: T): T {
    if o.Some? then o.value else d
  }

  function Max(a: nat, b: nat): nat {
    if a >= b then a else b
  }

  function Min(a: nat, b: nat): nat {
    if a <= b then a else b
  }
}
