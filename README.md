# samsung-wmi command protocol, modelled in Dafny

A model of the vendor command protocol of the `samsung-wmi` Linux driver,
which reads and sets the fan mode and the keyboard backlight of some Samsung
laptops through a WMI method of the firmware. The model covers:

- the packed 21-byte command packet (magic 0x5843, opcode, reqres byte,
  16 data bytes, little-endian) and how a request is encoded into it and a
  response's payload read back out of it (module `Codec`, `codec.dfy`);
- one command exchange, `samsung_wmi_method_call`, and the unlock-then-call
  protocol, `samsung_wmi_method_call_with_unlock`, which sends 0xAABB on the
  unlock opcode, requires the answer 0xCCDD and only then sends the command
  (module `Session`, `session.dfy`);
- the `fan_mode` attribute's `show` and `store` procedures with the keyword
  matcher `string_matches` (module `FanMode`, `fan_mode.dfy`);
- the keyboard backlight's brightness setter (module `KbdBacklight`,
  `kbd_backlight.dfy`);
- fixed-width integers and their little-endian bytes (module `Bytes`,
  `bytes.dfy`), and the firmware transport (module `Acpi`, `acpi.dfy`).

`wmi_evaluate_method` is replaced by a `Transport` object that records every
request in `log` and answers from a `script` of replies, each a failure
status or an ACPI object; a transport whose script has run out answers with
a failure status. Each exchange procedure is specified by a pure function
from the script and the caller's buffer to an `Exchange` (return value,
requests sent, replies left, caller's buffer afterwards): `Session.Call` and
`Session.CallWithUnlock`. The driver procedures are methods that build the
packet, copy the caller's bytes and copy the response back into the
caller's array in place. Each is proved to have exactly the effect its
function describes. The protocol properties are stated about those
functions.

Facts of the code the model keeps:
- the packet is 21 bytes (2 + 2 + 1 + 16, packed);
- the only errors are the kernel's `-EINVAL` and `-EIO`. An unrecognised
  fan keyword and an oversized payload are `-EINVAL`. Transport failure, a
  malformed response and a refused unlock are all `-EIO`;
- reading the fan mode renders register value 0 as `auto off [on]` and any
  other value as `[auto off] on`;
- the backlight setter drops the exchange's result;
- there is no lock around the unlock-then-call pair.

## Model

| member | source | states |
|---|---|---|
| `Bytes.Le16` | samsung-wmi.c:11-12 | a 16-bit field is two bytes whose little-endian value is the field |
| `Bytes.FromLe16` | samsung-wmi.c:11-12 | reading two little-endian bytes is the inverse of writing them |
| `Bytes.Le32` | samsung-wmi.c:68 | a 4-byte `unsigned int` buffer holds its value least significant byte first |
| `Bytes.FromLe32` | samsung-wmi.c:74 | reading the 4-byte unlock buffer back as an integer gives the value whose bytes they are |
| `Bytes.Le32RoundTrip` | samsung-wmi.c:68-74 | writing a 32-bit value into 4 bytes and reading it back gives the value |
| `Acpi.Transport.Evaluate` | samsung-wmi.c:43 | one firmware exchange appends exactly its request to the log and consumes one scripted reply |
| `Codec.Encode` | samsung-wmi.c:27-42 | the request packet has magic 0x5843, the opcode verbatim, reqres 0, and the payload followed by zeros in the 16-byte data field |
| `Codec.Serialize` | samsung-wmi.c:10-15 | the packed image is 21 bytes: magic at offset 0, opcode at 2 (both little-endian), reqres at 4, data from 5 |
| `Codec.Parse` | samsung-wmi.c:10-15 | reading a packet from at least 21 bytes gives the packet whose image those bytes are, with data = bytes 5..21 |
| `Codec.ParseSerialize` | samsung-wmi.c:10-15 | parsing a packet's image gives the packet back |
| `Codec.EncodedLayout` | samsung-wmi.c:27-42 | an encoded request is byte for byte 0x43 0x58, opcode low then high byte, 0, the payload, zeros to byte 21 |
| `Codec.FanProbeMatchesEncoding` | samsung-fan.c:12-16 | the hand-built probe packet equals the encoding of opcode 0x32 with payload 0x800001 |
| `Codec.AcceptedAsWritten` | samsung-wmi.c:50-53 | the driver's response check passes every full-size buffer, but it guarantees room for only three payload bytes at offset 5, and a buffer with exactly that room passes |
| `Codec.PointerSizedCheckAdmitsShortBuffer` | samsung-wmi.c:53-57 | the driver's pointer-sized length check admits an 8-byte buffer from which a 4-byte copy at offset 5 would overrun |
| `Codec.Decode` | samsung-wmi.c:49-57 | a response is accepted iff it is an ACPI buffer passing the driver's length check and long enough for the copy; then the payload is the `len` bytes at offset 5, and for a full packet the first `len` bytes of its data field |
| `Codec.DecodeEncode` | samsung-wmi.c:42-57 | a firmware that echoes the request gives the caller back its own payload |
| `Session.Request` | samsung-wmi.c:27-43 | each exchange sends the serialized encoded packet to the driver's GUID, instance 1, method 0 |
| `Session.Call` | samsung-wmi.c:26-63 | len > 16 is -EINVAL with nothing sent; otherwise one request; transport failure, a non-buffer or a short response is -EIO; any failure leaves the buffer unchanged; success is 0 with the first len bytes taken from the response's data field and the rest unchanged; for len <= 16 the result is 0 iff the reply is an accepted buffer long enough for the copy |
| `Session.MethodCall` | samsung-wmi.c:26-63 | the procedure's return value, transport log, remaining replies and caller's array are exactly those `Session.Call` gives |
| `Session.UnlockPayload` | samsung-wmi.c:68 | the unlock request carries 0xAABB as 4 bytes |
| `Session.UnlockAnswer` | samsung-wmi.c:71-74 | the unlock exchange succeeds with 0xCCDD in the unlock buffer exactly when the reply grants the unlock |
| `Session.CallWithUnlock` | samsung-wmi.c:65-82 | the unlock request on the unlock opcode is always sent first, and at most one request follows |
| `Session.UnlockRefused` | samsung-wmi.c:71-78 | a failed unlock exchange or an answer other than 0xCCDD gives -EIO, only the unlock request sent, the buffer unchanged |
| `Session.UnlockErrorPassedOn` | samsung-wmi.c:71-73 | a failure of the unlock exchange is returned unchanged and no second request is made |
| `Session.UnlockGranted` | samsung-wmi.c:79 | after a granted unlock the outcome is exactly that of the command's own exchange on the remaining replies |
| `Session.CommandOnlyAfterGrant` | samsung-wmi.c:71-79 | a second request is only ever sent after a granted unlock, and it is the command with the caller's payload |
| `Session.MethodCallWithUnlock` | samsung-wmi.c:65-82 | the procedure's return value, transport log, remaining replies and caller's array are exactly those `Session.CallWithUnlock` gives |
| `FanMode.Strncmp` | samsung-wmi.c:21 | `strncmp` is zero iff the two strings agree at every position up to and including the first string's terminator, within the first n |
| `FanMode.StrncmpKeyword` | samsung-wmi.c:20-22 | against a NUL-free keyword, `strncmp` over the keyword's length is zero iff the keyword is a prefix of the text |
| `FanMode.StringMatches` | samsung-wmi.c:19-24 | the text matches iff it starts with the keyword followed by the end of the string, a NUL or a newline |
| `FanMode.StorePayload` | samsung-wmi.c:99-106 | auto gives 0x810001, on gives 0, off gives 0x800001, each iff the text holds that keyword as its token; nothing else is accepted |
| `FanMode.StoreAcceptsExamples` | samsung-wmi.c:99-104 | "auto\n", "on", "off\n" and "auto\nrest" are accepted with their values, and 0x810001 goes out as 01 00 81 00 |
| `FanMode.StoreRejectsExamples` | samsung-wmi.c:99-106 | "bogus", " on", "onward" and "of" are refused |
| `FanMode.ShowText` | samsung-wmi.c:89-92 | the rendered line is 14 characters ending in a newline with no NUL: "auto off [on]\n" for 0, "[auto off] on\n" otherwise |
| `FanMode.Strlen` | samsung-wmi.c:93 | `strlen` is the position of the first NUL: no NUL before it, and a NUL (or the end) at it |
| `FanMode.StrlenTerminated` | samsung-wmi.c:93 | `strlen` of a NUL-free text followed by a terminator is the text's length |
| `FanMode.Strcpy` | samsung-wmi.c:90-92 | `strcpy` puts the text and a NUL at the start of the buffer and leaves the rest |
| `FanMode.Render` | samsung-wmi.c:89-93 | the page buffer starts with the rendered line and its NUL, and the return value is the line's length |
| `FanMode.Show` | samsung-wmi.c:84-94 | the read is an unlock on 0x31 then opcode 0x31 on a zeroed 4-byte buffer; failure is -EIO with the page buffer unchanged; success renders the register read back |
| `FanMode.Store` | samsung-wmi.c:96-111 | an unrecognised text is -EINVAL with nothing sent; otherwise the keyword's value goes out by unlock 0x31 then opcode 0x32, and the result is -EIO on failure or `count` on success |
| `FanMode.ShowAfterStore` | samsung-wmi.c:89-104 | a register holding the value "on" wrote renders "auto off [on]"; the values of "auto" and "off" both render "[auto off] on" |
| `FanMode.StoreAutoExchange` | samsung-wmi.c:99-107 | writing "auto" to a firmware that grants the unlock sends exactly the unlock on 0x31 and then opcode 0x32 with bytes 01 00 81 00, and succeeds |
| `FanMode.ShowExchange` | samsung-wmi.c:86-92 | reading from a firmware that grants the unlock and reports register value v renders "auto off [on]" iff v is 0 |
| `KbdBacklight.Level` | samsung-wmi.c:115-117 | the level sent is the brightness, saturated at 4 |
| `KbdBacklight.Pack` | samsung-wmi.c:118 | `(data << 8) \| 0x82` on 32 bits has low byte 0x82 and above it the low 24 bits of data |
| `KbdBacklight.PackLevels` | samsung-wmi.c:118 | for levels 0..4, `(level << 8) \| 0x82` on 32 bits is level * 256 + 0x82 |
| `KbdBacklight.Payload` | samsung-wmi.c:115-118 | the payload's low byte is always 0x82 and the byte above it is the saturated level |
| `KbdBacklight.PayloadBytes` | samsung-wmi.c:115-120 | the payload goes out as bytes 0x82, level, 0, 0 |
| `KbdBacklight.Saturates` | samsung-wmi.c:116-118 | every brightness of 4 or more sends payload 0x482 |
| `KbdBacklight.BrightnessSet` | samsung-wmi.c:113-121 | the payload goes out through the unlock protocol with unlock and command opcode 0x78, and the exchange's result is dropped |

## Findings

| source | as written | input that shows it | evidently intended | confidence | as-written member | corrected member |
|---|---|---|---|---|---|---|
| samsung-wmi.c:53 | `outobj->buffer.length < sizeof(outpkt)` compares with the size of a pointer (8 bytes on a 64-bit kernel), so a response too short to hold the data field passes, and the copy at line 57 then reads past the end of the buffer | an ACPI buffer of 8 bytes answering a 4-byte request: bytes 5..8 are copied, and byte 8 is one past the end | accept a response only if it can hold `len` bytes at offset 5 (the author's `sizeof(*outpkt)`, 21 bytes, would do so for every `len` up to 16) | not executed; high | `Codec.PointerSizedCheckAdmitsShortBuffer` (on the predicate `Codec.AcceptedAsWritten`) | `Codec.Decode` |

`Codec.Decode` keeps the driver's pointer-sized check and adds the bound
`5 + len <= length`. It accepts every response the driver accepts and can
copy from safely, and every full 21-byte packet. It rejects only the
responses for which the driver's copy would overrun. `Session.Call` and
everything above it use `Codec.Decode`.

## Left out

- Module initialisation and exit, platform driver and device registration, the sysfs attribute and LED class device registration, and the `kb_default_brightness` parameter (samsung-wmi.c:123-201): driver-framework lifecycle with no protocol logic.
- `wmi_evaluate_method`, `wmi_has_guid`, the ACPI output buffer allocation and `kfree`: foreign kernel calls, replaced by the scripted `Acpi.Transport`. The case of a successful status with no result object, where the driver would dereference a null pointer, is not represented: a successful reply always carries an object.
- `dev_err` logging and `acpi_format_exception`: output only.
- samsung-fan.c is not part of this model except as a layout test vector (`Codec.FanProbeMatchesEncoding`); its probe and hex dump are I/O.
- Concurrency: the code takes no lock, and two concurrent unlock-then-call pairs could interleave at the firmware. The model is sequential and does not state anything about interleavings.
- `POINTER_SIZE` is fixed at 8, the pointer size of a 64-bit kernel; on a 32-bit kernel the driver's threshold would be 4.
- C characters are modelled as Dafny characters and a C string as the characters before its terminator; byte encodings of text are not modelled.
