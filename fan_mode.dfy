/** The `fan_mode` text attribute: writing one of the keywords "auto", "on"
    or "off" sets the fan mode through the unlock-then-call protocol, and
    reading renders the fan register as a three-token line with the active
    choice in brackets. C strings are modelled as the characters before the
    terminator; reading past the end of the sequence yields NUL. */
module FanMode {
  import opened Bytes
  import opened Acpi
  import opened Codec
  import opened Session

  const NUL: char := '\0'

  /** Both attribute procedures unlock with opcode 0x31; reading uses
      opcode 0x31 and writing opcode 0x32. */
  const FAN_UNLOCK_OPCODE: uint16 := 0x31
  const FAN_READ_OPCODE: uint16 := 0x31
  const FAN_WRITE_OPCODE: uint16 := 0x32
  const FAN_REG_LEN: nat := 4

  /** The register values written for each keyword. */
  const FAN_AUTO: uint32 := 0x81_0001
  const FAN_ON: uint32 := 0
  const FAN_OFF: uint32 := 0x80_0001

  /** The two lines `show` can render. */
  const SHOW_ON: string := "auto off [on]\n"
  const SHOW_OFF: string := "[auto off] on\n"
  const SHOW_LEN: nat := 14

  /** The character at position i of a NUL-terminated string. */
  function CharAt(s: string, i: nat): char
  {
    if i < |s| then s[i] else NUL
  }

  /** C's `strncmp`: compares at most n characters, stopping at the first
      difference or at a terminator common to both; zero means equal. */
  function Strncmp(s: string, t: string, n: nat): (r: int)
    ensures r == 0 <==> forall i :: 0 <= i < n && i <= Strlen(s) ==> CharAt(s, i) == CharAt(t, i)
    decreases n
  {
    if n == 0 then 0
    else if CharAt(s, 0) != CharAt(t, 0) then CharAt(s, 0) as int - CharAt(t, 0) as int
    else if CharAt(s, 0) == NUL then 0
    else
      StrncmpStep(s, t, n);
      Strncmp(s[1..], t[1..], n - 1)
  }

  /** After a common non-NUL first character, agreement up to the first
      string's terminator is agreement of the tails. */
  lemma StrncmpStep(s: string, t: string, n: nat)
    requires n > 0 && CharAt(s, 0) == CharAt(t, 0) != NUL
    ensures (forall i :: 0 <= i < n && i <= Strlen(s) ==> CharAt(s, i) == CharAt(t, i))
        <==> (forall i :: 0 <= i < n - 1 && i <= Strlen(s[1..]) ==> CharAt(s[1..], i) == CharAt(t[1..], i))
  {
    assert Strlen(s) == 1 + Strlen(s[1..]);
    if forall i :: 0 <= i < n && i <= Strlen(s) ==> CharAt(s, i) == CharAt(t, i) {
      forall i | 0 <= i < n - 1 && i <= Strlen(s[1..])
        ensures CharAt(s[1..], i) == CharAt(t[1..], i)
      {
        assert CharAt(s[1..], i) == CharAt(s, i + 1) && CharAt(t[1..], i) == CharAt(t, i + 1);
      }
    }
    if forall i :: 0 <= i < n - 1 && i <= Strlen(s[1..]) ==> CharAt(s[1..], i) == CharAt(t[1..], i) {
      forall i | 0 <= i < n && i <= Strlen(s)
        ensures CharAt(s, i) == CharAt(t, i)
      {
        if i > 0 {
          assert CharAt(s[1..], i - 1) == CharAt(s, i) && CharAt(t[1..], i - 1) == CharAt(t, i);
        }
      }
    }
  }

  /** Against a keyword with no NUL in it, `strncmp` over the keyword's
      length reports equality exactly when the keyword is a prefix. */
  lemma {:induction false} StrncmpKeyword(s: string, kwd: string)
    ensures NUL !in kwd ==> (Strncmp(s, kwd, |kwd|) == 0 <==> kwd <= s)
    decreases |kwd|
  {
    if kwd != [] && NUL !in kwd {
      assert CharAt(kwd, 0) == kwd[0];
      if CharAt(s, 0) == kwd[0] {
        assert |s| > 0;
        assert NUL !in kwd[1..] by {
          forall i | 0 <= i < |kwd[1..]| ensures kwd[1..][i] != NUL {
            assert kwd[1..][i] == kwd[i + 1];
          }
        }
        StrncmpKeyword(s[1..], kwd[1..]);
        assert kwd <= s <==> kwd[1..] <= s[1..];
      }
    }
  }

  /** The text holds the keyword as its whole first token: the keyword,
      then the end of the string or a newline. */
  ghost predicate Token(s: string, kwd: string)
  {
    kwd <= s && (|s| == |kwd| || s[|kwd|] == NUL || s[|kwd|] == '\n')
  }

  /** `string_matches`: the text starts with the keyword, followed by the
      terminator or a newline. */
  function StringMatches(str: string, kwd: string): (r: bool)
    ensures NUL !in kwd ==> (r <==> Token(str, kwd))
  {
    StrncmpKeyword(str, kwd);
    var len := |kwd|;
    Strncmp(str, kwd, len) == 0 && (CharAt(str, len) == NUL || CharAt(str, len) == '\n')
  }

  /** The register value `store` writes for a text, or None when the text
      is not a keyword. */
  function StorePayload(buf: string): (r: Option<uint32>)
    ensures r == Some(FAN_AUTO) <==> Token(buf, "auto")
    ensures r == Some(FAN_ON) <==> Token(buf, "on")
    ensures r == Some(FAN_OFF) <==> Token(buf, "off")
    ensures r.None? <==> !Token(buf, "auto") && !Token(buf, "on") && !Token(buf, "off")
  {
    if StringMatches(buf, "auto") then Some(FAN_AUTO)
    else if StringMatches(buf, "on") then Some(FAN_ON)
    else if StringMatches(buf, "off") then Some(FAN_OFF)
    else None
  }

  /** The line `show` renders for a register value. */
  function ShowText(register: uint32): (r: string)
    ensures |r| == SHOW_LEN && r[SHOW_LEN - 1] == '\n' && NUL !in r
    ensures register == 0 ==> r == SHOW_ON
    ensures register != 0 ==> r == SHOW_OFF
  {
    if register != 0 then SHOW_OFF else SHOW_ON
  }

  /** C's `strlen`: the number of characters before the first NUL. */
  function Strlen(s: string): (r: nat)
    ensures r <= |s| && CharAt(s, r) == NUL
    ensures forall i :: 0 <= i < r ==> s[i] != NUL
  {
    if s == [] || s[0] == NUL then 0 else 1 + Strlen(s[1..])
  }

  lemma {:induction false} StrlenTerminated(text: string, tail: string)
    requires NUL !in text
    ensures Strlen(text + [NUL] + tail) == |text|
  {
    if text != [] {
      assert (text + [NUL] + tail)[1..] == text[1..] + [NUL] + tail;
      StrlenTerminated(text[1..], tail);
    }
  }

  /** Reading back a register that holds what a keyword wrote: "on" shows
      as the bracketed "on"; "auto" and "off" both show as "[auto off]". */
  lemma ShowAfterStore(buf: string)
    requires StorePayload(buf).Some?
    ensures ShowText(StorePayload(buf).value) == if Token(buf, "on") then SHOW_ON else SHOW_OFF
  {
  }

  /** `samsung_wmi_fan_mode_show`: read the fan register through the unlock
      protocol from a zeroed 4-byte buffer, then copy the rendered line with
      its terminator into the page buffer and return its length. */
  method Show(t: Transport, buf: array<char>) returns (ret: int)
    requires buf.Length > SHOW_LEN
    modifies t, buf
    ensures var e := CallWithUnlock(old(t.script), FAN_UNLOCK_OPCODE, FAN_READ_OPCODE, Le32(0), FAN_REG_LEN);
      t.log == old(t.log) + e.sent && t.script == e.rest
      && (e.ret != 0 ==> ret == -EIO && buf[..] == old(buf[..]))
      && (e.ret == 0 ==>
            var text := ShowText(FromLe32(e.buf));
            ret == |text| && buf[..|text|] == text && buf[|text|] == NUL
            && buf[|text| + 1..] == old(buf[|text| + 1..]))
  {
    var data := new uint8[FAN_REG_LEN](_ => 0);
    assert data[..] == Le32(0);
    var r := MethodCallWithUnlock(t, FAN_UNLOCK_OPCODE, FAN_READ_OPCODE, data, FAN_REG_LEN);
    if r != 0 {
      return -EIO;
    }
    ret := Render(buf, FromLe32(data[..]));
  }

  /** The tail of `show`: write the line for the register into the page
      buffer and return `strlen` of the buffer. */
  method Render(buf: array<char>, register: uint32) returns (ret: int)
    requires buf.Length > SHOW_LEN
    modifies buf
    ensures var text := ShowText(register);
      ret == |text| && buf[..|text|] == text && buf[|text|] == NUL
      && buf[|text| + 1..] == old(buf[|text| + 1..])
  {
    var text := ShowText(register);
    Strcpy(buf, text);
    StrlenTerminated(text, buf[|text| + 1..]);
    ret := Strlen(buf[..]);
  }

  /** C's `strcpy` of a NUL-free text: the text and its terminator replace
      the start of the buffer; the rest is left alone. */
  method Strcpy(buf: array<char>, text: string)
    requires NUL !in text && buf.Length > |text|
    modifies buf
    ensures buf[..] == text + [NUL] + old(buf[|text| + 1..])
  {
    forall i | 0 <= i < |text| {
      buf[i] := text[i];
    }
    buf[|text|] := NUL;
  }

  /** `samsung_wmi_fan_mode_store`: map the keyword to its register value
      and write it through the unlock protocol; an unknown keyword is
      -EINVAL with nothing sent, a failed write -EIO, success the byte
      count of the input. */
  method Store(t: Transport, buf: string, count: nat) returns (ret: int)
    modifies t
    ensures StorePayload(buf).None? ==> ret == -EINVAL && t.log == old(t.log) && t.script == old(t.script)
    ensures StorePayload(buf).Some? ==>
      var e := CallWithUnlock(old(t.script), FAN_UNLOCK_OPCODE, FAN_WRITE_OPCODE, Le32(StorePayload(buf).value), FAN_REG_LEN);
      t.log == old(t.log) + e.sent && t.script == e.rest
      && ret == (if e.ret != 0 then -EIO else count)
  {
    var value: uint32;
    if StringMatches(buf, "auto") {
      value := FAN_AUTO;
    } else if StringMatches(buf, "on") {
      value := FAN_ON;
    } else if StringMatches(buf, "off") {
      value := FAN_OFF;
    } else {
      return -EINVAL;
    }
    var bytes := Le32(value);
    var data := new uint8[FAN_REG_LEN](i requires 0 <= i < FAN_REG_LEN => bytes[i]);
    assert data[..] == bytes;
    var r := MethodCallWithUnlock(t, FAN_UNLOCK_OPCODE, FAN_WRITE_OPCODE, data, FAN_REG_LEN);
    if r != 0 {
      ret := -EIO;
    } else {
      ret := count;
    }
  }

  /** Worked cases of the keyword table: a trailing newline and anything
      after it are accepted. */
  lemma StoreAcceptsExamples()
    ensures StorePayload("auto\n") == Some(FAN_AUTO) && Le32(FAN_AUTO) == [0x01, 0x00, 0x81, 0x00]
    ensures StorePayload("on") == Some(FAN_ON)
    ensures StorePayload("off\n") == Some(FAN_OFF)
    ensures StorePayload("auto\nrest") == Some(FAN_AUTO)
  {
  }

  /** Worked cases of the keyword table: text around or inside a keyword
      is refused. */
  lemma StoreRejectsExamples()
    ensures StorePayload("bogus").None?
    ensures StorePayload(" on").None?
    ensures StorePayload("onward").None?
    ensures StorePayload("of").None?
  {
    assert "of"[1] != "on"[1];
    assert !("off" <= "of") && !("on" <= "of") && !("auto" <= "of");
  }

  /** A firmware reply whose data field holds `value` as 4 little-endian bytes. */
  function ReplyWith(value: uint32): (r: Reply)
    ensures r.Evaluated? && Decode(r.obj, FAN_REG_LEN) == Some(Le32(value))
  {
    DecodeEncode(0, Le32(value));
    Evaluated(AcpiBuffer(Serialize(Encode(0, Le32(value)))))
  }

  /** Writing "auto" to a firmware that grants the unlock and then answers
      the command: two requests, the unlock on 0x31 and the fan-mode write
      on 0x32 with payload bytes 01 00 81 00, and success. */
  lemma StoreAutoExchange(answer: uint32)
    ensures var e := CallWithUnlock([ReplyWith(UNLOCK_RESPONSE), ReplyWith(answer)],
                                    FAN_UNLOCK_OPCODE, FAN_WRITE_OPCODE, Le32(FAN_AUTO), FAN_REG_LEN);
      e.ret == 0 && e.rest == []
      && e.sent == [Request(FAN_UNLOCK_OPCODE, UnlockPayload()), Request(FAN_WRITE_OPCODE, [0x01, 0x00, 0x81, 0x00])]
  {
    var script := [ReplyWith(UNLOCK_RESPONSE), ReplyWith(answer)];
    Le32RoundTrip(UNLOCK_RESPONSE);
    assert Grants(NextReply(script));
    UnlockGranted(script, FAN_UNLOCK_OPCODE, FAN_WRITE_OPCODE, Le32(FAN_AUTO), FAN_REG_LEN);
    assert RestOf(script) == [ReplyWith(answer)];
    assert Le32(FAN_AUTO)[..FAN_REG_LEN] == [0x01, 0x00, 0x81, 0x00];
  }

  /** Reading from a firmware that grants the unlock and reports register
      value zero renders "auto off [on]"; any other value "[auto off] on". */
  lemma ShowExchange(register: uint32)
    ensures var e := CallWithUnlock([ReplyWith(UNLOCK_RESPONSE), ReplyWith(register)],
                                    FAN_UNLOCK_OPCODE, FAN_READ_OPCODE, Le32(0), FAN_REG_LEN);
      e.ret == 0 && |e.sent| == 2
      && ShowText(FromLe32(e.buf)) == if register == 0 then SHOW_ON else SHOW_OFF
  {
    var script := [ReplyWith(UNLOCK_RESPONSE), ReplyWith(register)];
    Le32RoundTrip(UNLOCK_RESPONSE);
    Le32RoundTrip(register);
    assert Grants(NextReply(script));
    UnlockGranted(script, FAN_UNLOCK_OPCODE, FAN_READ_OPCODE, Le32(0), FAN_REG_LEN);
    assert RestOf(script) == [ReplyWith(register)];
    var c := Call(RestOf(script), FAN_READ_OPCODE, Le32(0), FAN_REG_LEN);
    assert c.buf == c.buf[..FAN_REG_LEN] == Le32(register);
  }
}
