/** Captured events, as the kernel programs lay them out and the Go side reads them. */
module Events {
  import opened Bytes

  const TWO_32: int := 0x1_0000_0000
  const TWO_31: int := 0x8000_0000

  type uint16 = x: int | 0 <= x < 0x1_0000
  type uint32 = x: int | 0 <= x < 0x1_0000_0000
  type uint64 = x: int | 0 <= x < 0x1_0000_0000_0000_0000
  type int32 = x: int | -0x8000_0000 <= x < 0x8000_0000

  const OP_CONNECT: uint32 := 0
  const OP_READ: uint32 := 1
  const OP_WRITE: uint32 := 2
  const OP_CLOSE: uint32 := 3
  const OP_SSL_WRITE: uint32 := 4
  const OP_SSL_READ: uint32 := 5

  const DATA_CAP: nat := 4096

  datatype EventRecord = EventRecord(
    pid: uint32,
    tid: uint32,
    timestamp: uint64,
    fd: int32,
    op: uint32,
    ret: int32,
    sslPtr: uint64,
    remoteAddr: uint32,
    remotePort: uint16,
    totalLen: uint32,
    dataLen: uint32,
    data: bytes)

  function BlankData(): (d: bytes)
    ensures |d| == DATA_CAP
  {
    seq(DATA_CAP, _ => '\0')
  }

  /** An event with its fixed-size data array, whose captured length stays inside it: beyond that
      the Go slice expression in `Payload` would panic. */
  type Event = e: EventRecord | |e.data| == DATA_CAP && e.dataLen <= DATA_CAP
    witness EventRecord(0, 0, 0, 0, 0, 0, 0, 0, 0, 0, 0, BlankData())

  function Payload(e: Event): bytes {
    e.data[..e.dataLen]
  }

  predicate Truncated(e: Event) {
    e.totalLen > e.dataLen
  }

  /** `uint32(x)` of any integer. */
  function ToUint32(x: int): uint32 {
    x % TWO_32
  }

  /** `int32(x)` of any integer. */
  function ToInt32(x: int): int32 {
    var low := x % TWO_32;
    if low < TWO_31 then low else low - TWO_32
  }

  /** Both conversions keep the value up to a multiple of 2 to the 32. */
  lemma ConversionsWrap(x: int)
    ensures exists q :: x == q * TWO_32 + ToUint32(x)
    ensures exists q :: x == q * TWO_32 + ToInt32(x)
  {
    var q := x / TWO_32;
    assert x == q * TWO_32 + ToUint32(x);
    assert x == q * TWO_32 + ToInt32(x) || x == (q + 1) * TWO_32 + ToInt32(x);
  }

  /** A descriptor survives being widened to 64 bits and back. */
  lemma FdSurvivesWidening(fd: int32)
    ensures ToInt32(ToUint32(fd)) == fd
  {
  }

  lemma WideningIsInjective(a: int32, b: int32)
    ensures ToUint32(a) == ToUint32(b) <==> a == b
  {
  }
}
