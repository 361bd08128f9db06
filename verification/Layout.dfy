/** The ring record: the C structure the kernel writes and the field by field decoding on the Go
    side agree, padding included. */
module Layout {
  import opened Bytes
  import opened Events

  /** 256 to the power of the width. */
  function Limit(width: nat): nat {
    if width == 0 then 1 else 256 * Limit(width - 1)
  }

  function LittleEndian(n: nat, width: nat): (s: bytes)
    ensures |s| == width
  {
    if width == 0 then [] else [(n % 256) as char] + LittleEndian(n / 256, width - 1)
  }

  function FromLittleEndian(s: bytes): nat {
    if s == [] then 0 else s[0] as int + 256 * FromLittleEndian(s[1..])
  }

  lemma {:induction false} LittleEndianReadsBack(n: nat, width: nat)
    requires n < Limit(width)
    ensures FromLittleEndian(LittleEndian(n, width)) == n
  {
    if width > 0 {
      LittleEndianReadsBack(n / 256, width - 1);
      assert LittleEndian(n, width)[1..] == LittleEndian(n / 256, width - 1);
    }
  }

  lemma ProductsOrdered(d: nat, p: nat, q: nat)
    requires p <= q
    ensures d * p <= d * q
  {
  }

  lemma QuotientIs(n: nat, d: nat, q: nat, rest: nat)
    requires d > 0 && n == d * q + rest && rest < d
    ensures n / d == q
  {
    var p := n / d;
    assert n == d * p + n % d;
    if p < q {
      ProductsOrdered(d, p + 1, q);
    } else if p > q {
      ProductsOrdered(d, q + 1, p);
    }
  }

  lemma DivideTwice(n: nat, b: nat)
    requires b > 0
    ensures n / 256 / b == n / (256 * b)
  {
    var m := n / 256;
    var q, rest := m / b, m % b;
    assert m == b * q + rest;
    assert n == 256 * (b * q) + (256 * rest + n % 256);
    assert 256 * (b * q) == (256 * b) * q;
    QuotientIs(n, 256 * b, q, 256 * rest + n % 256);
  }

  lemma LimitPositive(i: nat)
    ensures Limit(i) > 0
  {
  }

  /** Byte `i` of a field is its `i`th digit in base 256, the lowest first. */
  lemma {:induction false} ByteOfField(n: nat, width: nat, i: nat)
    requires i < width
    ensures Limit(i) > 0 && LittleEndian(n, width)[i] as int == n / Limit(i) % 256
  {
    LimitPositive(i);
    if i > 0 {
      LimitPositive(i - 1);
      ByteOfField(n / 256, width - 1, i - 1);
      DivideTwice(n, Limit(i - 1));
    }
  }

  lemma Limits()
    ensures Limit(2) == 0x1_0000 && Limit(4) == TWO_32 && Limit(8) == 0x1_0000_0000_0000_0000
  {
    assert Limit(3) == 0x100_0000;
    assert Limit(5) == 0x100_0000_0000 && Limit(7) == 0x100_0000_0000_0000;
  }

  const RECORD_SIZE: nat := 56 + DATA_CAP

  /** The bytes of the C structure, followed by `tail`; `pad1` and `pad2` are the holes that its
      alignment leaves, and that the Go structure names. */
  function RecordBytes(e: EventRecord, pad1: bytes, pad2: bytes, tail: bytes): bytes {
    LittleEndian(e.pid, 4) + (LittleEndian(e.tid, 4) + (LittleEndian(e.timestamp, 8)
    + (LittleEndian(ToUint32(e.fd), 4) + (LittleEndian(e.op, 4) + (LittleEndian(ToUint32(e.ret), 4)
    + (pad1 + SecondHalf(e, pad2, tail)))))))
  }

  function SecondHalf(e: EventRecord, pad2: bytes, tail: bytes): bytes {
    LittleEndian(e.sslPtr, 8) + (LittleEndian(e.remoteAddr, 4) + (LittleEndian(e.remotePort, 2)
    + (pad2 + (LittleEndian(e.totalLen, 4) + (LittleEndian(e.dataLen, 4) + (e.data + tail))))))
  }

  /** `decodeEvent`: the fields in order, the named padding skipped; a short record is an error and
      anything after the structure is ignored. */
  function DecodeEvent(raw: bytes): Option<EventRecord> {
    if |raw| < RECORD_SIZE then None
    else
      Some(EventRecord(
        Field(raw, 0, 4) % TWO_32,
        Field(raw, 4, 4) % TWO_32,
        Field(raw, 8, 8) % 0x1_0000_0000_0000_0000,
        ToInt32(Field(raw, 16, 4)),
        Field(raw, 20, 4) % TWO_32,
        ToInt32(Field(raw, 24, 4)),
        Field(raw, 32, 8) % 0x1_0000_0000_0000_0000,
        Field(raw, 40, 4) % TWO_32,
        Field(raw, 44, 2) % 0x1_0000,
        Field(raw, 48, 4) % TWO_32,
        Field(raw, 52, 4) % TWO_32,
        raw[56..RECORD_SIZE]))
  }

  function Field(raw: bytes, offset: nat, width: nat): nat
    requires offset + width <= |raw|
  {
    FromLittleEndian(raw[offset..offset + width])
  }

  /** A field written at `offset` reads back, and the rest of the record starts after it. */
  lemma FieldAt(raw: bytes, offset: nat, n: nat, width: nat, rest: bytes)
    requires offset <= |raw| && raw[offset..] == LittleEndian(n, width) + rest && n < Limit(width)
    ensures offset + width <= |raw|
    ensures Field(raw, offset, width) == n && raw[offset + width..] == rest
  {
    LittleEndianReadsBack(n, width);
    assert raw[offset..offset + width] == raw[offset..][..width];
    assert raw[offset + width..] == raw[offset..][width..];
  }

  lemma SkipAt(raw: bytes, offset: nat, pad: bytes, rest: bytes)
    requires offset <= |raw| && raw[offset..] == pad + rest
    ensures offset + |pad| <= |raw| && raw[offset + |pad|..] == rest
  {
    assert raw[offset + |pad|..] == raw[offset..][|pad|..];
  }

  lemma FirstHalfReads(raw: bytes, e: EventRecord, pad1: bytes, pad2: bytes, tail: bytes)
    requires raw == RecordBytes(e, pad1, pad2, tail) && |pad1| == 4
    ensures 32 <= |raw|
    ensures Field(raw, 0, 4) == e.pid && Field(raw, 4, 4) == e.tid && Field(raw, 8, 8) == e.timestamp
    ensures Field(raw, 16, 4) == ToUint32(e.fd) && Field(raw, 20, 4) == e.op && Field(raw, 24, 4) == ToUint32(e.ret)
    ensures raw[32..] == SecondHalf(e, pad2, tail)
  {
    hide LittleEndian;
    hide Field;
    hide SecondHalf;
    Limits();
    hide Limit;
    var r6 := pad1 + SecondHalf(e, pad2, tail);
    var r5 := LittleEndian(ToUint32(e.ret), 4) + r6;
    var r4 := LittleEndian(e.op, 4) + r5;
    var r3 := LittleEndian(ToUint32(e.fd), 4) + r4;
    var r2 := LittleEndian(e.timestamp, 8) + r3;
    var r1 := LittleEndian(e.tid, 4) + r2;
    assert raw[0..] == raw;
    FieldAt(raw, 0, e.pid, 4, r1);
    FieldAt(raw, 4, e.tid, 4, r2);
    FieldAt(raw, 8, e.timestamp, 8, r3);
    FieldAt(raw, 16, ToUint32(e.fd), 4, r4);
    FieldAt(raw, 20, e.op, 4, r5);
    FieldAt(raw, 24, ToUint32(e.ret), 4, r6);
    SkipAt(raw, 28, pad1, SecondHalf(e, pad2, tail));
  }

  lemma SecondHalfReads(raw: bytes, e: EventRecord, pad2: bytes, tail: bytes)
    requires 32 <= |raw| && raw[32..] == SecondHalf(e, pad2, tail)
    requires |pad2| == 2 && |e.data| == DATA_CAP
    ensures |raw| == RECORD_SIZE + |tail|
    ensures Field(raw, 32, 8) == e.sslPtr && Field(raw, 40, 4) == e.remoteAddr && Field(raw, 44, 2) == e.remotePort
    ensures Field(raw, 48, 4) == e.totalLen && Field(raw, 52, 4) == e.dataLen
    ensures raw[56..RECORD_SIZE] == e.data
  {
    hide LittleEndian;
    hide Field;
    Limits();
    hide Limit;
    var r13 := e.data + tail;
    var r12 := LittleEndian(e.dataLen, 4) + r13;
    var r11 := LittleEndian(e.totalLen, 4) + r12;
    var r10 := pad2 + r11;
    var r9 := LittleEndian(e.remotePort, 2) + r10;
    var r8 := LittleEndian(e.remoteAddr, 4) + r9;
    FieldAt(raw, 32, e.sslPtr, 8, r8);
    FieldAt(raw, 40, e.remoteAddr, 4, r9);
    FieldAt(raw, 44, e.remotePort, 2, r10);
    SkipAt(raw, 46, pad2, r11);
    FieldAt(raw, 48, e.totalLen, 4, r12);
    FieldAt(raw, 52, e.dataLen, 4, r13);
    assert raw[56..RECORD_SIZE] == raw[56..][..DATA_CAP];
  }

  /** What the kernel wrote is what the collector decodes, whatever the holes and whatever follows
      the record; a record cut short anywhere is an error. */
  lemma RecordReadsBack(e: EventRecord, pad1: bytes, pad2: bytes, tail: bytes, cut: nat)
    requires |e.data| == DATA_CAP && |pad1| == 4 && |pad2| == 2
    ensures |RecordBytes(e, pad1, pad2, tail)| == RECORD_SIZE + |tail|
    ensures DecodeEvent(RecordBytes(e, pad1, pad2, tail)) == Some(e)
    ensures cut < RECORD_SIZE ==> DecodeEvent(RecordBytes(e, pad1, pad2, tail)[..cut]) == None
  {
    hide RecordBytes;
    hide SecondHalf;
    hide Field;
    var raw := RecordBytes(e, pad1, pad2, tail);
    FirstHalfReads(raw, e, pad1, pad2, tail);
    SecondHalfReads(raw, e, pad2, tail);
    FdSurvivesWidening(e.fd);
    FdSurvivesWidening(e.ret);
  }
}
