/** The vendor command packet: a packed 21-byte record
      offset 0  magic   (2 bytes, little-endian)
      offset 2  opcode  (2 bytes, little-endian)
      offset 4  reqres  (1 byte)
      offset 5  data    (16 bytes)
    and how a request is encoded into it and a response decoded from it. */
module Codec {
  import opened Bytes
  import opened Acpi

  const MAGIC: uint16 := 0x5843
  const MAX_PAYLOAD: nat := 16
  const DATA_OFFSET: nat := 5
  const PACKET_SIZE: nat := DATA_OFFSET + MAX_PAYLOAD

  /** The response-length threshold the driver compares against: it is
      `sizeof(outpkt)` where `outpkt` is a pointer to the packet, so it is the
      size of a pointer on a 64-bit kernel, not the size of the packet. */
  const POINTER_SIZE: nat := 8

  datatype Packet = Packet(magic: uint16, opcode: uint16, reqres: uint8, data: seq<uint8>)
  {
    ghost predicate WellFormed() { |data| == MAX_PAYLOAD }
  }

  /** The request packet for `opcode` carrying `payload`: the magic tag, the
      opcode, a zero reqres byte, and the payload left-aligned in a zeroed
      data field. */
  function Encode(opcode: uint16, payload: seq<uint8>): (p: Packet)
    requires |payload| <= MAX_PAYLOAD
    ensures p.WellFormed()
    ensures p.magic == MAGIC && p.opcode == opcode && p.reqres == 0
    ensures p.data[..|payload|] == payload
    ensures forall i :: |payload| <= i < MAX_PAYLOAD ==> p.data[i] == 0
  {
    Packet(MAGIC, opcode, 0, payload + Zeros(MAX_PAYLOAD - |payload|))
  }

  /** The packed in-memory image of a packet. */
  function Serialize(p: Packet): (b: seq<uint8>)
    requires p.WellFormed()
    ensures |b| == PACKET_SIZE
    ensures FromLe16(b[0..2]) == p.magic && FromLe16(b[2..4]) == p.opcode
    ensures b[4] == p.reqres && b[DATA_OFFSET..] == p.data
  {
    var b := Le16(p.magic) + Le16(p.opcode) + [p.reqres] + p.data;
    assert b[0..2] == Le16(p.magic) && b[2..4] == Le16(p.opcode);
    b
  }

  /** The packet a byte image of at least packet size holds. */
  function Parse(b: seq<uint8>): (p: Packet)
    requires |b| >= PACKET_SIZE
    ensures p.WellFormed() && Serialize(p) == b[..PACKET_SIZE]
    ensures p.data == b[DATA_OFFSET..PACKET_SIZE]
  {
    var p := Packet(FromLe16(b[0..2]), FromLe16(b[2..4]), b[4], b[DATA_OFFSET..PACKET_SIZE]);
    assert Serialize(p) == b[0..2] + b[2..4] + [b[4]] + b[DATA_OFFSET..PACKET_SIZE];
    p
  }

  lemma {:induction false} ParseSerialize(p: Packet)
    requires p.WellFormed()
    ensures Parse(Serialize(p)) == p
  {
    var b := Serialize(p);
    assert b[..PACKET_SIZE] == b;
    Le16RoundTrip(p.magic);
    Le16RoundTrip(p.opcode);
  }

  /** Byte by byte, an encoded request is 0x43 0x58, the opcode low byte
      first, a zero, the payload, and zeros up to the packet size. */
  lemma EncodedLayout(opcode: uint16, payload: seq<uint8>)
    requires |payload| <= MAX_PAYLOAD
    ensures var b := Serialize(Encode(opcode, payload));
      b[0] == 0x43 && b[1] == 0x58 && b[2] == opcode % 0x100 && b[3] == opcode / 0x100 && b[4] == 0
      && b[DATA_OFFSET..DATA_OFFSET + |payload|] == payload
      && forall i :: DATA_OFFSET + |payload| <= i < PACKET_SIZE ==> b[i] == 0
  {
    var p := Encode(opcode, payload);
    var b := Serialize(p);
    assert b[0..2] == Le16(MAGIC) && b[2..4] == Le16(opcode);
    assert b[DATA_OFFSET..DATA_OFFSET + |payload|] == p.data[..|payload|];
    forall i | DATA_OFFSET + |payload| <= i < PACKET_SIZE
      ensures b[i] == 0
    {
      assert b[i] == b[DATA_OFFSET..][i - DATA_OFFSET];
    }
  }

  /** The driver's own check on a response, as written: the result must be
      a buffer of at least pointer size. It does not ensure that the
      `len` bytes at the data offset lie inside the buffer: every full
      packet passes, but so does a buffer with room for only three payload
      bytes. */
  predicate AcceptedAsWritten(obj: AcpiObject): (r: bool)
    ensures obj.AcpiBuffer? && |obj.bytes| >= PACKET_SIZE ==> r
    ensures r ==> obj.AcpiBuffer? && |obj.bytes| >= DATA_OFFSET + 3
    ensures r <== obj.AcpiBuffer? && |obj.bytes| == DATA_OFFSET + 3
  {
    obj.AcpiBuffer? && |obj.bytes| >= POINTER_SIZE
  }

  /** An 8-byte buffer passes the check as written, yet copying a 4-byte
      payload from offset 5 would read byte 8, one past its end. */
  lemma PointerSizedCheckAdmitsShortBuffer()
    ensures var obj := AcpiBuffer(Zeros(POINTER_SIZE));
      AcceptedAsWritten(obj) && |obj.bytes| < DATA_OFFSET + 4 && Decode(obj, 4).None?
  {
  }

  /** The `len` payload bytes of a response, or None when the response is
      not one the driver may copy from: not a buffer, shorter than the
      pointer-sized threshold, or too short to hold `len` bytes at the
      data offset. The last guard is not in the driver; it keeps the copy
      inside the buffer. */
  function Decode(obj: AcpiObject, len: nat): (r: Option<seq<uint8>>)
    ensures r.Some? <==> AcceptedAsWritten(obj) && DATA_OFFSET + len <= |obj.bytes|
    ensures r.Some? ==>
      (|r.value| == len && forall i :: 0 <= i < len ==> r.value[i] == obj.bytes[DATA_OFFSET + i])
    ensures obj.AcpiBuffer? && |obj.bytes| >= PACKET_SIZE && len <= MAX_PAYLOAD ==>
      r == Some(Parse(obj.bytes).data[..len])
  {
    if !obj.AcpiBuffer? then None
    else if |obj.bytes| < POINTER_SIZE then None
    else if |obj.bytes| < DATA_OFFSET + len then None
    else
      assert |obj.bytes| >= PACKET_SIZE && len <= MAX_PAYLOAD ==>
        obj.bytes[DATA_OFFSET..DATA_OFFSET + len] == obj.bytes[DATA_OFFSET..PACKET_SIZE][..len];
      Some(obj.bytes[DATA_OFFSET..DATA_OFFSET + len])
  }

  /** A firmware that echoes the request packet back hands the caller its
      own payload again: decoding undoes encoding. */
  lemma DecodeEncode(opcode: uint16, payload: seq<uint8>)
    requires |payload| <= MAX_PAYLOAD
    ensures Decode(AcpiBuffer(Serialize(Encode(opcode, payload))), |payload|) == Some(payload)
  {
    var b := Serialize(Encode(opcode, payload));
    assert b[DATA_OFFSET..DATA_OFFSET + |payload|] == Encode(opcode, payload).data[..|payload|];
  }

  /** The input buffer the one-shot probe in samsung-fan.c builds by hand:
      32 bytes, of which the first 21 are a fan-mode "off" request. */
  const FAN_PROBE_INBUF: seq<uint8> :=
    [0x43, 0x58, 0x32, 0, 0, 0x01, 0, 0x80] + Zeros(24)

  /** The hand-built probe and the encoder agree on the layout: opcode 0x32
      with the 4-byte little-endian payload 0x800001. */
  lemma FanProbeMatchesEncoding()
    ensures Serialize(Encode(0x32, Le32(0x80_0001))) == FAN_PROBE_INBUF[..PACKET_SIZE]
  {
  }

  datatype Option<+T> = None | Some(value: T)
}
