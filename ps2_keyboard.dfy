/**
 * The PS/2 keyboard driver of kernel/devices/keyboard/ps2_keyboard.c.
 *
 * The driver keeps one static keyboard: the state of a scancode-set-1
 * decoding machine, and a 32-entry ring buffer of command bytes still
 * waiting for the keyboard's ACK.  `send_cmd` and `keyboard_send_key` are
 * callbacks into the port driver and the input manager; here the bytes
 * handed to `send_cmd` are recorded in `sent` and the keycodes reported to
 * the input manager in `events`.
 */
module Ps2Keyboard {
  import opened CTypes
  import opened RingBuffers

  const KBD_CMD_BUFF_SIZE: int := 32

  const PS2_CMD_SET_LEDS: byte := 0xED
  const PS2_RESPONSE_RESEND: byte := 0xFE
  const PS2_RESPONSE_ACK: byte := 0xFA

  /** `KEYCODE_RKEY(KEY_PRTSC)` and `KEYCODE_RKEY(KEY_PAUSE)`. */
  const KEY_PRTSC: int := 0x46
  const KEY_PAUSE: int := 0x48

  /** Lock-key bit positions of the `leds` argument: `KEYCODE_NUM_LOCK`, `KEYCODE_CAPS_LOCK`, `KEYCODE_SCROLL_LOCK`. */
  const KEYCODE_NUM_LOCK: int := 1
  const KEYCODE_CAPS_LOCK: int := 2
  const KEYCODE_SCROLL_LOCK: int := 3

  /** A keycode without the release bit: 15 bits of type, modifier or lock, and key. */
  type Keycode = k: int | 0 <= k < 0x8000

  /**
   * `set1_to_keycode`: the keycode of each set-1 scancode from 0x00 to 0x58.
   * Regular keys are their USB HID usage, modifiers `0x4000 | mod << 9` and
   * lock keys `0x2000 | lock << 9`.
   */
  const SET1: seq<Keycode> := [
    0x0000, 0x0029, 0x001E, 0x001F, 0x0020, 0x0021, 0x0022, 0x0023,
    0x0024, 0x0025, 0x0026, 0x0027, 0x002D, 0x002E, 0x002A, 0x002B,
    0x0014, 0x001A, 0x0008, 0x0015, 0x0017, 0x001C, 0x0018, 0x000C,
    0x0012, 0x0013, 0x002F, 0x0030, 0x0028, 0x4000, 0x0004, 0x0016,
    0x0007, 0x0009, 0x000A, 0x000B, 0x000D, 0x000E, 0x000F, 0x0033,
    0x0034, 0x0035, 0x4400, 0x0031, 0x001D, 0x001B, 0x0006, 0x0019,
    0x0005, 0x0011, 0x0010, 0x0036, 0x0037, 0x0038, 0x4600, 0x0055,
    0x4800, 0x002C, 0x2400, 0x003A, 0x003B, 0x003C, 0x003D, 0x003E,
    0x003F, 0x0040, 0x0041, 0x0042, 0x0043, 0x2200, 0x2600, 0x005F,
    0x0060, 0x0061, 0x0056, 0x005C, 0x005D, 0x005E, 0x0057, 0x0059,
    0x005A, 0x005B, 0x0062, 0x0063, 0x0000, 0x0000, 0x0087, 0x0044,
    0x0045]

  /** `set1_extended_to_keycode`: the keycode of each scancode 0x10 to 0x6D after an 0xE0 prefix. */
  const SET1_EXTENDED: seq<Keycode> := [
    0x00EB, 0x0000, 0x0000, 0x0000, 0x0000, 0x0000, 0x0000, 0x0000,
    0x0000, 0x00EA, 0x0000, 0x0000, 0x0058, 0x4200, 0x0000, 0x0000,
    0x007F, 0x00EE, 0x00E8, 0x0000, 0x0078, 0x0000, 0x0000, 0x0000,
    0x0000, 0x0000, 0x0000, 0x0000, 0x0000, 0x0000, 0x0081, 0x0000,
    0x0080, 0x0000, 0x004A, 0x0000, 0x0000, 0x0054, 0x0000, 0x0000,
    0x4A00, 0x0000, 0x0000, 0x0000, 0x0000, 0x0000, 0x0000, 0x0000,
    0x0000, 0x0000, 0x0000, 0x0000, 0x0000, 0x0000, 0x0000, 0x004A,
    0x0052, 0x004B, 0x0000, 0x0050, 0x0000, 0x004F, 0x0000, 0x004D,
    0x0051, 0x004E, 0x0049, 0x004C, 0x0000, 0x0000, 0x0000, 0x0000,
    0x0000, 0x0000, 0x0000, 0x4C00, 0x4E00, 0x0065, 0x0066, 0x00F4,
    0x0000, 0x0000, 0x0000, 0x00F5, 0x0000, 0x00F0, 0x00F3, 0x00EF,
    0x00E9, 0x00EC, 0x00ED, 0x00F1, 0x00F2, 0x0077]

  /** `keyboard_send_key`: the keycode with bit 15 set for a release. */
  function KeyEvent(keycode: Keycode, released: bool): (e: int)
    ensures 0 <= e < 0x1_0000 && e % 0x8000 == keycode && (e >= 0x8000 <==> released)
  {
    (if released then 0x8000 else 0) + keycode
  }

  /** One step of the decoding machine: the next state and the key event reported, if any. */
  datatype Decoded = Decoded(next: int, event: Option<int>)

  /**
   * The `switch (kbd.state)` of `ps2_keyboard_send`, apart from the ACK and
   * RESEND bytes of state 0, which the command queue consumes.  `None` is the
   * `kpanic` of the default case: a state without a case.
   */
  function Decode(state: int, scancode: byte): (r: Option<Decoded>)
  {
    if state == 0 then
      if scancode == 0xE0 then Some(Decoded(1, None))
      else if scancode == 0xE1 then Some(Decoded(4, None))
      else if scancode == PS2_RESPONSE_ACK || scancode == PS2_RESPONSE_RESEND then Some(Decoded(0, None))
      else if scancode <= 0x58 then Some(Decoded(0, Some(KeyEvent(SET1[scancode], false))))
      else if 0x80 <= scancode <= 0xD7 then Some(Decoded(0, Some(KeyEvent(SET1[scancode - 0x80], true))))
      else Some(Decoded(0, None))
    else if state == 1 then
      if scancode == 0x2A || scancode == 0xB7 then Some(Decoded(2, None))
      else if 0x10 <= scancode <= 0x6D then Some(Decoded(0, Some(KeyEvent(SET1_EXTENDED[scancode - 0x10], false))))
      else if 0x90 <= scancode <= 0xED then Some(Decoded(0, Some(KeyEvent(SET1_EXTENDED[scancode - 0x90], true))))
      else Some(Decoded(0, None))
    else if state == 2 then Some(Decoded(if scancode == 0xE0 then 3 else 0, None))
    else if state == 3 then
      Some(Decoded(0, if scancode == 0x37 || scancode == 0xAA then Some(KeyEvent(KEY_PRTSC, scancode == 0xAA)) else None))
    else if state == 4 then Some(Decoded(if scancode == 0x1D then 5 else 0, None))
    else if state == 5 then Some(Decoded(if scancode == 0x45 then 6 else 0, None))
    else if state == 6 then Some(Decoded(if scancode == 0xE1 then 7 else 0, None))
    else if state == 7 then Some(Decoded(if scancode == 0x9D then 8 else 0, None))
    else if state == 9 then
      Some(Decoded(0, if scancode == 0xC5 then Some(KeyEvent(KEY_PAUSE, true)) else None))
    else None
  }

  /**
   * The regular keys: scancode `s` up to 0x58 reports `SET1[s]` pressed, and
   * `s + 0x80` up to 0xD7 reports the same keycode released; the machine
   * stays in state 0.
   */
  lemma RegularKeys(s: byte)
    requires s <= 0x58
    ensures Decode(0, s) == Some(Decoded(0, Some(SET1[s] as int)))
    ensures s <= 0x57 ==> Decode(0, s + 0x80) == Some(Decoded(0, Some(SET1[s] as int + 0x8000)))
  {
  }

  /** The extended keys: 0xE0 then `s` in 0x10..0x6D presses, 0xE0 then `s + 0x80` releases the same key. */
  lemma ExtendedKeys(s: byte)
    requires 0x10 <= s <= 0x6D && s != 0x2A
    ensures Run(AsWritten, 0, [0xE0, s]) == Some((0, [SET1_EXTENDED[s - 0x10]]))
    ensures s + 0x80 != 0xB7 ==> Run(AsWritten, 0, [0xE0, s + 0x80]) == Some((0, [SET1_EXTENDED[s - 0x10] as int + 0x8000]))
  {
    var pressed: seq<int> := [SET1_EXTENDED[s - 0x10]];
    assert pressed + [] == pressed && [] + pressed == pressed;
    assert Run(AsWritten, 1, [s]) == Some((0, pressed));
    assert [0xE0, s][1..] == [s];
    if s + 0x80 != 0xB7 {
      var released: seq<int> := [SET1_EXTENDED[s - 0x10] as int + 0x8000];
      assert released + [] == released && [] + released == released;
      assert Run(AsWritten, 1, [s + 0x80]) == Some((0, released));
      assert [0xE0, s + 0x80][1..] == [s + 0x80];
    }
  }

  /** Print screen: E0 2A E0 37 reports it pressed, E0 B7 E0 AA released. */
  lemma PrintScreen()
    ensures Run(AsWritten, 0, [0xE0, 0x2A, 0xE0, 0x37]) == Some((0, [KEY_PRTSC]))
    ensures Run(AsWritten, 0, [0xE0, 0xB7, 0xE0, 0xAA]) == Some((0, [KEY_PRTSC + 0x8000]))
  {
    var pressed: seq<byte> := [0xE0, 0x2A, 0xE0, 0x37];
    var e: seq<int> := [KEY_PRTSC];
    assert e + [] == e && [] + e == e;
    assert Run(AsWritten, 3, pressed[3..]) == Some((0, [KEY_PRTSC]));
    assert Run(AsWritten, 2, pressed[2..]) == Some((0, [KEY_PRTSC]));
    assert Run(AsWritten, 1, pressed[1..]) == Some((0, [KEY_PRTSC]));
    var released: seq<byte> := [0xE0, 0xB7, 0xE0, 0xAA];
    var r: seq<int> := [KEY_PRTSC + 0x8000];
    assert r + [] == r && [] + r == r;
    assert Run(AsWritten, 3, released[3..]) == Some((0, [KEY_PRTSC + 0x8000]));
    assert Run(AsWritten, 2, released[2..]) == Some((0, [KEY_PRTSC + 0x8000]));
    assert Run(AsWritten, 1, released[1..]) == Some((0, [KEY_PRTSC + 0x8000]));
  }

  /** An interrupted print-screen prefix goes back to state 0 and reports nothing. */
  lemma PrintScreenInterrupted(s: byte)
    requires s != 0xE0
    ensures Run(AsWritten, 0, [0xE0, 0x2A, s]) == Some((0, []))
  {
    var bytes: seq<byte> := [0xE0, 0x2A, s];
    var none: seq<int> := [];
    assert none + [] == none;
    assert Run(AsWritten, 2, bytes[2..]) == Some((0, []));
    assert Run(AsWritten, 1, bytes[1..]) == Some((0, []));
  }

  /**
   * As written, the pause sequence E1 1D 45 E1 9D leaves the machine in
   * state 8, which has no case, so its last byte C5 ends in `kpanic`; the
   * case that reports the release is labelled 9, a state nothing reaches.
   */
  lemma PauseSequencePanics()
    ensures Run(AsWritten, 0, [0xE1, 0x1D, 0x45, 0xE1, 0x9D]) == Some((8, []))
    ensures Run(AsWritten, 0, [0xE1, 0x1D, 0x45, 0xE1, 0x9D, 0xC5]).None?
  {
    var bytes: seq<byte> := [0xE1, 0x1D, 0x45, 0xE1, 0x9D, 0xC5];
    var none: seq<int> := [];
    assert none + [] == none;
    assert Run(AsWritten, 8, bytes[5..]).None?;
    assert Run(AsWritten, 7, bytes[4..5]) == Some((8, [])) && Run(AsWritten, 7, bytes[4..]).None?;
    assert Run(AsWritten, 6, bytes[3..5]) == Some((8, [])) && Run(AsWritten, 6, bytes[3..]).None?;
    assert Run(AsWritten, 5, bytes[2..5]) == Some((8, [])) && Run(AsWritten, 5, bytes[2..]).None?;
    assert Run(AsWritten, 4, bytes[1..5]) == Some((8, [])) && Run(AsWritten, 4, bytes[1..]).None?;
    assert bytes[..5] == [0xE1, 0x1D, 0x45, 0xE1, 0x9D];
    assert bytes[..5][1..] == bytes[1..5];
  }

  /** No byte takes the machine to state 9 from a state it can reach. */
  lemma StateNineUnreachable(state: int, s: byte)
    requires 0 <= state <= 8 && Decode(state, s).Some?
    ensures Decode(state, s).value.next != 9
  {
  }

  /** As written, the F12 release code 0xD8 is dropped though F12's press, 0x58, is reported. */
  lemma F12ReleaseDropped()
    ensures Decode(0, 0x58) == Some(Decoded(0, Some(0x45)))
    ensures Decode(0, 0xD8) == Some(Decoded(0, None))
  {
  }

  /**
   * The decoding the code evidently intends: releases run up to 0xD8, the
   * release code of the last table entry, and the final pause state is 8.
   */
  function DecodeIntended(state: int, scancode: byte): (r: Option<Decoded>)
  {
    if state == 0 && 0x80 <= scancode <= 0xD8 then Some(Decoded(0, Some(KeyEvent(SET1[scancode - 0x80], true))))
    else if state == 8 then Some(Decoded(0, if scancode == 0xC5 then Some(KeyEvent(KEY_PAUSE, true)) else None))
    else if state == 9 then None
    else Decode(state, scancode)
  }

  /** Which decoding a run follows: the code as written, or as evidently intended. */
  datatype Machine = AsWritten | Intended

  function Step(m: Machine, state: int, scancode: byte): Option<Decoded>
  {
    if m == AsWritten then Decode(state, scancode) else DecodeIntended(state, scancode)
  }

  /** Feeds `bytes` to a machine from `state`: the final state and the events, or `None` at a `kpanic`. */
  function Run(m: Machine, state: int, bytes: seq<byte>): (r: Option<(int, seq<int>)>)
    decreases |bytes|
  {
    if bytes == [] then Some((state, []))
    else
      var d := Step(m, state, bytes[0]);
      if d.None? then None
      else
        var rest := Run(m, d.value.next, bytes[1..]);
        if rest.None? then None
        else Some((rest.value.0, (if d.value.event.Some? then [d.value.event.value] else []) + rest.value.1))
  }

  /** The intended machine never panics: from every state 0 to 8 each byte leads to a state 0 to 8. */
  lemma IntendedTotal(state: int, s: byte)
    requires 0 <= state <= 8
    ensures DecodeIntended(state, s).Some? && 0 <= DecodeIntended(state, s).value.next <= 8
  {
  }

  /** With the intended machine the pause sequence reports a pause release, and every regular key's release is reported. */
  lemma IntendedPauseAndRelease(s: byte)
    requires s <= 0x58
    ensures Run(Intended, 0, [0xE1, 0x1D, 0x45, 0xE1, 0x9D, 0xC5]) == Some((0, [KEY_PAUSE + 0x8000]))
    ensures DecodeIntended(0, s + 0x80) == Some(Decoded(0, Some(SET1[s] as int + 0x8000)))
  {
    var bytes: seq<byte> := [0xE1, 0x1D, 0x45, 0xE1, 0x9D, 0xC5];
    var e: seq<int> := [KEY_PAUSE + 0x8000];
    assert e + [] == e && [] + e == e;
    var done := Some((0, e));
    assert Run(Intended, 8, bytes[5..]) == done;
    assert Run(Intended, 7, bytes[4..]) == done;
    assert Run(Intended, 6, bytes[3..]) == done;
    assert Run(Intended, 5, bytes[2..]) == done;
    assert Run(Intended, 4, bytes[1..]) == done;
  }

  /** A run of the intended machine from a state 0 to 8 never panics and ends in a state 0 to 8. */
  lemma {:induction false} IntendedRunTotal(state: int, bytes: seq<byte>)
    requires 0 <= state <= 8
    ensures Run(Intended, state, bytes).Some? && 0 <= Run(Intended, state, bytes).value.0 <= 8
    decreases |bytes|
  {
    if bytes != [] {
      IntendedTotal(state, bytes[0]);
      IntendedRunTotal(DecodeIntended(state, bytes[0]).value.next, bytes[1..]);
    }
  }

  /**
   * `ps2_keyboard_set_leds`: caps-lock (bit 2 of `leds`) lights LED bit 2,
   * num-lock (bit 1) LED bit 1 and scroll-lock (bit 3) LED bit 0.
   */
  function LedBits(leds: bv8): (bits: bv8)
    ensures bits & 0xF8 == 0
    ensures (bits & 4 != 0) <==> (leds & (1 << KEYCODE_CAPS_LOCK) != 0)
    ensures (bits & 2 != 0) <==> (leds & (1 << KEYCODE_NUM_LOCK) != 0)
    ensures (bits & 1 != 0) <==> (leds & (1 << KEYCODE_SCROLL_LOCK) != 0)
  {
    var bits: bv8 := 0;
    var bits := if leds & 4 != 0 then bits | 4 else bits;
    var bits := if leds & 2 != 0 then bits | 2 else bits;
    if leds & 8 != 0 then bits | 1 else bits
  }

  /** The static `struct ps2_keyboard`. */
  class Keyboard {
    var state: int
    var registered: bool
    const commands: RingBuffer<byte>
    /** Every byte handed to `send_cmd`, in order. */
    var sent: seq<byte>
    /** Every keycode handed to the input manager, in order. */
    var events: seq<int>

    ghost predicate Valid()
      reads this, commands
    {
      commands.buf.Length == KBD_CMD_BUFF_SIZE && (commands.Valid() || commands.Unset())
    }

    /**
     * The zero-initialised static object, before registration: the command
     * buffer has not been through `ring_buff_init`, so its capacity is 0.
     */
    constructor ()
      ensures Valid() && state == 0 && !registered && sent == [] && events == []
      ensures commands.Unset() && commands.cap == 0
      ensures fresh(commands) && fresh(commands.buf)
    {
      state := 0;
      registered := false;
      commands := new RingBuffer<byte>.Zeroed(KBD_CMD_BUFF_SIZE);
      sent := [];
      events := [];
    }

    /**
     * `ps2_keyboard_register`: panics when a keyboard is already registered,
     * otherwise empties the command buffer and records the registration.
     */
    method Register() returns (panicked: bool)
      requires Valid()
      modifies this, commands
      ensures Valid()
      ensures panicked <==> old(registered)
      ensures registered && state == old(state) && sent == old(sent) && events == old(events)
      ensures !panicked ==> commands.Consistent() && commands.Contents() == [] && commands.cap == KBD_CMD_BUFF_SIZE
    {
      if registered {
        return true;
      }
      commands.Init();
      registered := true;
      panicked := false;
    }

    /**
     * `ps2_send_command`: a full buffer drops the byte; otherwise it is
     * queued, and transmitted at once only when it is the only byte queued
     * (the others go out as ACKs arrive).
     */
    method SendCommand(data: byte)
      requires Valid() && (commands.Consistent() || commands.Unset())
      modifies this, commands, commands.buf
      ensures Valid() && commands.cap == old(commands.cap)
      ensures state == old(state) && registered == old(registered) && events == old(events)
      ensures old(commands.Unset()) ==> commands.Unset() && sent == old(sent)
      ensures old(commands.Consistent()) ==> commands.Consistent()
      ensures old(commands.Consistent()) && old(|commands.Contents()|) == commands.cap ==>
        commands.Contents() == old(commands.Contents()) && sent == old(sent)
      ensures old(commands.Consistent()) && old(|commands.Contents()|) < commands.cap ==>
        commands.Contents() == old(commands.Contents()) + [data] &&
        sent == old(sent) + (if old(commands.Contents()) == [] then [data] else [])
    {
      var full := commands.Full();
      if full {
        return;
      }
      commands.Push(data);
      if commands.size == 1 {
        sent := sent + [data];
      }
    }

    /** `ps2_keyboard_set_leds`: queues the set-LEDs command and then the LED bits. */
    method SetLeds(leds: bv8)
      requires Valid() && commands.Consistent()
      modifies this, commands, commands.buf
      ensures Valid() && commands.Consistent()
      ensures state == old(state) && events == old(events)
      ensures old(|commands.Contents()|) + 2 <= commands.cap ==>
        commands.Contents() == old(commands.Contents()) + [PS2_CMD_SET_LEDS, LedBits(leds) as byte] &&
        sent == old(sent) + (if old(commands.Contents()) == [] then [PS2_CMD_SET_LEDS] else [])
    {
      var bits := LedBits(leds);
      SendCommand(PS2_CMD_SET_LEDS);
      SendCommand(bits as byte);
    }

    /**
     * `ps2_keyboard_send` on ACK in state 0: the acknowledged command leaves
     * the buffer, unchecked, and the next one, if any, is transmitted.
     * Before registration the capacity is 0, and the remainder by it in
     * `ring_buffer_pop` is a divide fault, where the model stops.
     */
    method Acknowledge() returns (faulted: bool)
      requires Valid()
      modifies this, commands
      ensures Valid() && state == old(state) && events == old(events)
      ensures faulted <==> old(commands.cap) == 0
      ensures faulted ==> unchanged(this) && unchanged(commands)
      ensures !faulted ==> commands.size == (old(commands.size) - 1) % UINT32_MOD
      ensures old(commands.Consistent()) && old(commands.size) > 0 ==>
        commands.Consistent() && commands.Contents() == old(commands.Contents())[1..] &&
        sent == old(sent) + (if commands.Contents() == [] then [] else [commands.Contents()[0]])
    {
      if commands.cap == 0 {
        return true;
      }
      faulted := false;
      var _ := commands.Pop();
      var empty := commands.Empty();
      if !empty {
        var cmd := commands.First();
        sent := sent + [cmd];
      }
    }

    /** `ps2_keyboard_send` on RESEND in state 0: the command at the front goes out again. */
    method Resend()
      requires Valid()
      ensures Valid()
      modifies this
      ensures state == old(state) && events == old(events)
      ensures commands.Consistent() ==>
        sent == old(sent) + (if commands.Contents() == [] then [] else [commands.Contents()[0]])
    {
      var empty := commands.Empty();
      if !empty {
        var cmd := commands.First();
        sent := sent + [cmd];
      }
    }

    /**
     * `ps2_keyboard_send`: a byte from the keyboard.  In state 0, ACK and
     * RESEND drive the command buffer; every other byte goes through the
     * decoding machine, which reports at most one key and panics in a state
     * without a case.  `panicked` also covers the divide fault of an ACK
     * that arrives before registration.
     */
    method Send(scancode: byte) returns (panicked: bool)
      requires Valid()
      modifies this, commands
      ensures Valid()
      ensures old(state) == 0 && (scancode == PS2_RESPONSE_ACK || scancode == PS2_RESPONSE_RESEND) ==>
        state == 0 && events == old(events)
      ensures old(state) == 0 && (scancode == PS2_RESPONSE_ACK || scancode == PS2_RESPONSE_RESEND) ==>
        (panicked <==> scancode == PS2_RESPONSE_ACK && old(commands.cap) == 0)
      ensures old(state) == 0 && scancode == PS2_RESPONSE_ACK && !panicked ==>
        commands.size == (old(commands.size) - 1) % UINT32_MOD
      ensures old(state) == 0 && scancode == PS2_RESPONSE_ACK && old(commands.Consistent()) && old(commands.size) > 0 ==>
        commands.Consistent() && commands.Contents() == old(commands.Contents())[1..] &&
        sent == old(sent) + (if commands.Contents() == [] then [] else [commands.Contents()[0]])
      ensures old(state) == 0 && scancode == PS2_RESPONSE_RESEND ==>
        commands.size == old(commands.size) && commands.readIdx == old(commands.readIdx) &&
        (commands.Consistent() ==> sent == old(sent) + (if commands.Contents() == [] then [] else [commands.Contents()[0]]))
      ensures !(old(state) == 0 && (scancode == PS2_RESPONSE_ACK || scancode == PS2_RESPONSE_RESEND)) ==>
        (panicked <==> Decode(old(state), scancode).None?) &&
        sent == old(sent) && commands.size == old(commands.size) && commands.readIdx == old(commands.readIdx)
      ensures !(old(state) == 0 && (scancode == PS2_RESPONSE_ACK || scancode == PS2_RESPONSE_RESEND)) && !panicked ==>
        var d := Decode(old(state), scancode).value;
        state == d.next && events == old(events) + (if d.event.Some? then [d.event.value] else [])
    {
      if state == 0 && scancode == PS2_RESPONSE_ACK {
        panicked := Acknowledge();
        return;
      }
      if state == 0 && scancode == PS2_RESPONSE_RESEND {
        Resend();
        return false;
      }
      var d := Decode(state, scancode);
      if d.None? {
        return true;
      }
      state := d.value.next;
      if d.value.event.Some? {
        events := events + [d.value.event.value];
      }
      panicked := false;
    }
  }

  /**
   * A command sent before `ps2_keyboard_register` meets the zero capacity
   * of the static buffer, which `ring_buff_full` reports as full: it is
   * dropped and nothing is transmitted.  After registration it goes out.
   */
  method CommandBeforeRegistrationDropped(data: byte) returns (kbd: Keyboard)
    ensures kbd.Valid() && kbd.registered
    ensures kbd.sent == [data] && kbd.commands.Consistent() && kbd.commands.Contents() == [data]
  {
    kbd := new Keyboard();
    kbd.SendCommand(data);
    assert kbd.sent == [];
    var panicked := kbd.Register();
    kbd.SendCommand(data);
  }

  /**
   * Commands go out one at a time: two commands queued on an idle keyboard
   * transmit the first at once and the second on the first's ACK.
   */
  method CommandsInOrder(kbd: Keyboard, first: byte, second: byte)
    requires kbd.Valid() && kbd.commands.Consistent() && kbd.commands.Contents() == [] && kbd.commands.cap == KBD_CMD_BUFF_SIZE
    requires kbd.state == 0
    modifies kbd, kbd.commands, kbd.commands.buf
    ensures kbd.sent == old(kbd.sent) + [first, second]
    ensures kbd.commands.Consistent() && kbd.commands.Contents() == [second]
  {
    kbd.SendCommand(first);
    assert kbd.sent == old(kbd.sent) + [first];
    kbd.SendCommand(second);
    assert kbd.commands.Contents() == [first, second];
    var panicked := kbd.Send(PS2_RESPONSE_ACK);
  }
}
