/** The keyboard backlight LED: setting a brightness sends a 4-byte payload
    holding the level, saturated at 4, in its second byte and the constant
    0x82 in its first, through the unlock-then-call protocol with unlock
    and command opcode 0x78. The exchange's result is not reported. */
module KbdBacklight {
  import opened Bytes
  import opened Acpi
  import opened Session

  const BACKLIGHT_OPCODE: uint16 := 0x78
  const MAX_BRIGHTNESS: nat := 4
  const BACKLIGHT_TAG: uint32 := 0x82
  const BACKLIGHT_LEN: nat := 4

  /** The level actually sent: brightness values above 4 are saturated. */
  function Level(brightness: uint32): (level: nat)
    ensures level <= MAX_BRIGHTNESS
    ensures brightness <= MAX_BRIGHTNESS ==> level == brightness
    ensures brightness > MAX_BRIGHTNESS ==> level == MAX_BRIGHTNESS
  {
    if brightness > MAX_BRIGHTNESS then MAX_BRIGHTNESS else brightness
  }

  /** The 32-bit payload for a requested brightness. */
  function Payload(brightness: uint32): (r: uint32)
    ensures r % 0x100 == BACKLIGHT_TAG && r / 0x100 == Level(brightness)
  {
    var level := Level(brightness);
    PackLevels(level);
    Pack(level as bv32) as int
  }

  /** The driver's `(data << 8) | 0x82` on a 32-bit unsigned int. */
  function Pack(data: bv32): (r: bv32)
    ensures r & 0xFF == 0x82 && r >> 8 == data & 0xFF_FFFF
  {
    (data << 8) | 0x82
  }

  /** For the levels that can occur, shifting into the second byte and
      or-ing in the tag is plain arithmetic. */
  lemma PackLevels(level: nat)
    requires level <= MAX_BRIGHTNESS
    ensures Pack(level as bv32) as int == level * 0x100 + BACKLIGHT_TAG
  {
    if level == 0 {
      assert Pack(0) == 0x82;
    } else if level == 1 {
      assert Pack(1) == 0x182;
    } else if level == 2 {
      assert Pack(2) == 0x282;
    } else if level == 3 {
      assert Pack(3) == 0x382;
    } else {
      assert Pack(4) == 0x482;
    }
  }

  /** The payload on the wire: 0x82, the level, then two zero bytes. */
  lemma PayloadBytes(brightness: uint32)
    ensures Le32(Payload(brightness)) == [0x82, Level(brightness), 0, 0]
  {
    var v := Payload(brightness);
    assert v % 0x1_0000 == v && v / 0x1_0000 == 0;
    assert Le16(v) == [0x82, Level(brightness)];
  }

  /** Every brightness from 4 upwards sends the same payload, 0x482. */
  lemma Saturates(brightness: uint32)
    requires brightness >= MAX_BRIGHTNESS
    ensures Payload(brightness) == Payload(MAX_BRIGHTNESS) == 0x482
  {
  }

  /** `samsung_wmi_kbd_backlight_led_brightness_set`: the payload is sent
      through the unlock protocol and the outcome is dropped. */
  method BrightnessSet(t: Transport, brightness: uint32)
    modifies t
    ensures var e := CallWithUnlock(old(t.script), BACKLIGHT_OPCODE, BACKLIGHT_OPCODE,
                                    Le32(Payload(brightness)), BACKLIGHT_LEN);
      t.log == old(t.log) + e.sent && t.script == e.rest
  {
    var bytes := Le32(Payload(brightness));
    var data := new uint8[BACKLIGHT_LEN](i requires 0 <= i < BACKLIGHT_LEN => bytes[i]);
    assert data[..] == bytes;
    var _ := MethodCallWithUnlock(t, BACKLIGHT_OPCODE, BACKLIGHT_OPCODE, data, BACKLIGHT_LEN);
  }
}
