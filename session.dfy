/** One command exchange with the firmware, and the unlock-then-call
    protocol that guards the privileged opcodes. Each operation is specified
    by a function from the transport's script and the caller's buffer to an
    `Exchange` (what the operation returns, which requests it sent, the
    script it leaves, and the caller's buffer afterwards); the driver's
    procedures are methods proved to have exactly that effect on a
    `Transport` and on the caller's buffer. */
module Session {
  import opened Bytes
  import opened Acpi
  import opened Codec

  const EIO: int := 5
  const EINVAL: int := 22

  /** The value sent on the unlock opcode, and the one the firmware must
      echo for the unlock to count. Both travel as a 4-byte `unsigned int`. */
  const UNLOCK_REQUEST: uint32 := 0xAABB
  const UNLOCK_RESPONSE: uint32 := 0xCCDD
  const UNLOCK_LEN: nat := 4

  datatype Exchange = Exchange(ret: int, sent: seq<WmiRequest>, rest: seq<Reply>, buf: seq<uint8>)

  /** The request one exchange on `opcode` with `payload` puts on the wire. */
  function Request(opcode: uint16, payload: seq<uint8>): (req: WmiRequest)
    requires |payload| <= MAX_PAYLOAD
    ensures req.guid == WMI_GUID && req.instance == WMI_INSTANCE && req.methodId == WMI_METHOD_ID
    ensures |req.input| == PACKET_SIZE && Parse(req.input) == Encode(opcode, payload)
  {
    ParseSerialize(Encode(opcode, payload));
    WmiRequest(WMI_GUID, WMI_INSTANCE, WMI_METHOD_ID, Serialize(Encode(opcode, payload)))
  }

  /** One exchange: send `len` bytes of `buf` on `opcode` and, on success,
      overwrite those bytes with the response's payload. */
  function Call(script: seq<Reply>, opcode: uint16, buf: seq<uint8>, len: nat): (e: Exchange)
    requires len <= MAX_PAYLOAD ==> len <= |buf|
    ensures e.ret == 0 || e.ret == -EIO || e.ret == -EINVAL
    // an oversized payload is refused before anything is sent
    ensures e.ret == -EINVAL <==> len > MAX_PAYLOAD
    ensures len > MAX_PAYLOAD ==> e.sent == [] && e.rest == script
    // otherwise exactly one request is sent, and one reply consumed
    ensures len <= MAX_PAYLOAD ==> e.sent == [Request(opcode, buf[..len])] && e.rest == RestOf(script)
    // a transport failure or a response of the wrong shape is -EIO
    ensures len <= MAX_PAYLOAD && NextReply(script).Failed? ==> e.ret == -EIO
    ensures len <= MAX_PAYLOAD && NextReply(script).Evaluated? && !AcceptedAsWritten(NextReply(script).obj) ==>
      e.ret == -EIO
    // a failed exchange leaves the caller's buffer as it was
    ensures |e.buf| == |buf|
    ensures e.ret != 0 ==> e.buf == buf
    // a successful one fills the first len bytes from the response's data field
    ensures e.ret == 0 ==>
      NextReply(script).Evaluated? && AcceptedAsWritten(NextReply(script).obj)
      && len <= MAX_PAYLOAD && DATA_OFFSET + len <= |NextReply(script).obj.bytes|
      && e.buf[..len] == NextReply(script).obj.bytes[DATA_OFFSET..DATA_OFFSET + len]
      && e.buf[len..] == buf[len..]
    // and every reply the driver accepts, long enough for the copy, succeeds
    ensures len <= MAX_PAYLOAD ==>
      (e.ret == 0 <==> NextReply(script).Evaluated? && Decode(NextReply(script).obj, len).Some?)
  {
    if len > MAX_PAYLOAD then Exchange(-EINVAL, [], script, buf)
    else
      var req := Request(opcode, buf[..len]);
      var reply := NextReply(script);
      if reply.Failed? then Exchange(-EIO, [req], RestOf(script), buf)
      else match Decode(reply.obj, len)
        case None => Exchange(-EIO, [req], RestOf(script), buf)
        case Some(payload) => Exchange(0, [req], RestOf(script), payload + buf[len..])
  }

  /** The unlock request's payload: UNLOCK_REQUEST as 4 little-endian bytes. */
  function UnlockPayload(): (b: seq<uint8>)
    ensures |b| == UNLOCK_LEN && FromLe32(b) == UNLOCK_REQUEST
  {
    Le32RoundTrip(UNLOCK_REQUEST);
    Le32(UNLOCK_REQUEST)
  }

  /** A reply to the unlock request grants the unlock: it is a buffer the
      driver accepts and the 4 bytes at the data offset read UNLOCK_RESPONSE. */
  predicate Grants(reply: Reply)
  {
    reply.Evaluated? && var d := Decode(reply.obj, UNLOCK_LEN); d.Some? && FromLe32(d.value) == UNLOCK_RESPONSE
  }

  /** The unlock exchange succeeds and leaves UNLOCK_RESPONSE in the unlock
      buffer exactly when the firmware's reply grants the unlock. */
  lemma UnlockAnswer(script: seq<Reply>, unlockOpcode: uint16)
    ensures var u := Call(script, unlockOpcode, UnlockPayload(), UNLOCK_LEN);
      |u.buf| == UNLOCK_LEN && (Grants(NextReply(script)) <==> u.ret == 0 && FromLe32(u.buf) == UNLOCK_RESPONSE)
  {
    var u := Call(script, unlockOpcode, UnlockPayload(), UNLOCK_LEN);
    if u.ret == 0 {
      assert u.buf == u.buf[..UNLOCK_LEN];
    }
  }

  /** Unlock, then the command: the command is sent only after the unlock
      exchange succeeded and left UNLOCK_RESPONSE in the unlock buffer, and
      then its outcome is the operation's outcome. */
  function CallWithUnlock(script: seq<Reply>, unlockOpcode: uint16, opcode: uint16, buf: seq<uint8>, len: nat)
    : (e: Exchange)
    requires len <= MAX_PAYLOAD ==> len <= |buf|
    // the unlock request always goes first, and at most one more follows
    ensures 1 <= |e.sent| <= 2 && e.sent[0] == Request(unlockOpcode, UnlockPayload())
    ensures |e.buf| == |buf|
  {
    var u := Call(script, unlockOpcode, UnlockPayload(), UNLOCK_LEN);
    if u.ret != 0 then
      Exchange(u.ret, u.sent, u.rest, buf)
    else if FromLe32(u.buf) != UNLOCK_RESPONSE then
      Exchange(-EIO, u.sent, u.rest, buf)
    else
      var c := Call(u.rest, opcode, buf, len);
      Exchange(c.ret, u.sent + c.sent, c.rest, c.buf)
  }

  /** A failed or refused unlock ends the operation: -EIO, nothing sent
      after the unlock request, the caller's buffer untouched. */
  lemma UnlockRefused(script: seq<Reply>, unlockOpcode: uint16, opcode: uint16, buf: seq<uint8>, len: nat)
    requires len <= MAX_PAYLOAD ==> len <= |buf|
    requires !Grants(NextReply(script))
    ensures var e := CallWithUnlock(script, unlockOpcode, opcode, buf, len);
      e.ret == -EIO && e.sent == [Request(unlockOpcode, UnlockPayload())] && e.rest == RestOf(script) && e.buf == buf
  {
  }

  /** A granted unlock is followed by exactly the command's own exchange,
      on the replies that remain. */
  lemma UnlockGranted(script: seq<Reply>, unlockOpcode: uint16, opcode: uint16, buf: seq<uint8>, len: nat)
    requires len <= MAX_PAYLOAD ==> len <= |buf|
    requires Grants(NextReply(script))
    ensures var e := CallWithUnlock(script, unlockOpcode, opcode, buf, len);
      var c := Call(RestOf(script), opcode, buf, len);
      e.ret == c.ret && e.sent == [Request(unlockOpcode, UnlockPayload())] + c.sent && e.rest == c.rest && e.buf == c.buf
  {
  }

  /** A second request is made only after a granted unlock, and it is the
      command with the caller's payload. */
  lemma CommandOnlyAfterGrant(script: seq<Reply>, unlockOpcode: uint16, opcode: uint16, buf: seq<uint8>, len: nat)
    requires len <= MAX_PAYLOAD ==> len <= |buf|
    ensures var e := CallWithUnlock(script, unlockOpcode, opcode, buf, len);
      |e.sent| == 2 ==> Grants(NextReply(script)) && len <= MAX_PAYLOAD && e.sent[1] == Request(opcode, buf[..len])
  {
  }

  /** A failure of the unlock exchange itself is passed on unchanged. */
  lemma UnlockErrorPassedOn(script: seq<Reply>, unlockOpcode: uint16, opcode: uint16, buf: seq<uint8>, len: nat)
    requires len <= MAX_PAYLOAD ==> len <= |buf|
    requires Call(script, unlockOpcode, UnlockPayload(), UNLOCK_LEN).ret != 0
    ensures CallWithUnlock(script, unlockOpcode, opcode, buf, len).ret
         == Call(script, unlockOpcode, UnlockPayload(), UNLOCK_LEN).ret
    ensures |CallWithUnlock(script, unlockOpcode, opcode, buf, len).sent| == 1
  {
  }

  /** `samsung_wmi_method_call`: the packet is built on the stack, `len`
      bytes of the caller's buffer are copied into it, and on success the
      response's payload is copied back into the caller's buffer in place. */
  method MethodCall(t: Transport, opcode: uint16, data: array<uint8>, len: nat) returns (ret: int)
    requires len <= MAX_PAYLOAD ==> len <= data.Length
    modifies t, data
    ensures var e := Call(old(t.script), opcode, old(data[..]), len);
      ret == e.ret && t.log == old(t.log) + e.sent && t.script == e.rest && data[..] == e.buf
  {
    var inpkt := Packet(MAGIC, opcode, 0, Zeros(MAX_PAYLOAD));
    if len > MAX_PAYLOAD {
      return -EINVAL;
    }
    inpkt := inpkt.(data := data[..len] + inpkt.data[len..]);
    assert inpkt == Encode(opcode, data[..len]);
    var reply := t.Evaluate(WMI_GUID, WMI_INSTANCE, WMI_METHOD_ID, Serialize(inpkt));
    if reply.Failed? {
      return -EIO;
    }
    var outobj := reply.obj;
    if !outobj.AcpiBuffer? || |outobj.bytes| < POINTER_SIZE {
      return -EIO;
    }
    if |outobj.bytes| < DATA_OFFSET + len {
      return -EIO;
    }
    forall i | 0 <= i < len {
      data[i] := outobj.bytes[DATA_OFFSET + i];
    }
    ret := 0;
  }

  /** `samsung_wmi_method_call_with_unlock`: the unlock value lives in a
      4-byte local that the unlock exchange overwrites with the firmware's
      answer; the command is issued only when that answer is UNLOCK_RESPONSE. */
  method MethodCallWithUnlock(t: Transport, unlockOpcode: uint16, opcode: uint16, data: array<uint8>, len: nat)
    returns (ret: int)
    requires len <= MAX_PAYLOAD ==> len <= data.Length
    modifies t, data
    ensures var e := CallWithUnlock(old(t.script), unlockOpcode, opcode, old(data[..]), len);
      ret == e.ret && t.log == old(t.log) + e.sent && t.script == e.rest && data[..] == e.buf
  {
    var unlock := UnlockPayload();
    var unlockData := new uint8[UNLOCK_LEN](i requires 0 <= i < UNLOCK_LEN => unlock[i]);
    assert unlockData[..] == unlock;
    ret := MethodCall(t, unlockOpcode, unlockData, UNLOCK_LEN);
    if ret != 0 {
      return;
    }
    if FromLe32(unlockData[..]) != UNLOCK_RESPONSE {
      ret := -EIO;
      return;
    }
    ret := MethodCall(t, opcode, data, len);
  }
}
