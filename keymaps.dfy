/**
 * Keycode to character translation of kernel/devices/keyboard/keymaps.c.
 *
 * A keymap holds, for every key of a US keyboard and for the international
 * keys, four characters: regular, shifted, with Alt and with Ctrl.  The
 * keypad has its own table with one column for num-lock on and one for
 * num-lock off.  The lock and modifier bits of the keycode's status byte
 * choose the column.
 */
module Keymaps {

  /** `UCS2_NOCHAR`: no character for this key. */
  const NOCHAR: int := 0xFFFF

  const KEY_A: int := 0x04
  const KEY_Z: int := 0x1D
  const KEY_FSLASH: int := 0x38
  const KEYPAD_FSLASH: int := 0x54
  const KEYPAD_DOT: int := 0x63
  const KEY_INT1: int := 0x87
  const KEY_LANG9: int := 0x98

  /** The status bits `keymap_get_key` tests. */
  datatype Status = Status(numLock: bool, capsLock: bool, shift: bool, alt: bool, ctrl: bool)

  /** A UCS-2 character. */
  predicate IsUcs2(c: int)
  {
    0 <= c <= 0xFFFF
  }

  /** `struct keymap`: 53 regular keys and 18 international keys, each with four columns. */
  datatype Keymap = Keymap(regularKeys: seq<seq<int>>, intKeys: seq<seq<int>>)
  {
    ghost predicate Valid()
    {
      |regularKeys| == 53 && |intKeys| == 18 &&
      (forall k :: 0 <= k < 53 ==> |regularKeys[k]| == 4 && forall c :: 0 <= c < 4 ==> IsUcs2(regularKeys[k][c])) &&
      (forall k :: 0 <= k < 18 ==> |intKeys[k]| == 4 && forall c :: 0 <= c < 4 ==> IsUcs2(intKeys[k][c]))
    }
  }

  /** `keypad_map`: num-lock on, num-lock off, for the keypad keys from `/` to `.`. */
  const KEYPAD_MAP: seq<seq<int>> := [
    [0x002F, 0x002F], [0x002A, 0x002A], [0x002D, 0x002D], [0x002B, 0x002B], [0x000A, 0x000A],
    [0x0031, NOCHAR], [0x0032, NOCHAR], [0x0033, NOCHAR], [0x0034, NOCHAR], [0x0035, NOCHAR],
    [0x0036, NOCHAR], [0x0037, NOCHAR], [0x0038, NOCHAR], [0x0039, NOCHAR], [0x0030, NOCHAR],
    [0x002E, NOCHAR]]

  /** `KEYCODE_GET_KEY` stored in a `uint8_t`: the 9-bit key field loses its top bit. */
  function KeyOf(keycode: int): (key: int)
    requires 0 <= keycode < 0x1_0000
    ensures 0 <= key < 256 && key == keycode % 256
  {
    (keycode % 0x200) % 256
  }

  /** Keys translated through a keymap: the letters up to `/`, and the international keys. */
  predicate MappedKey(key: int)
  {
    KEY_A <= key <= KEY_FSLASH || KEY_INT1 <= key <= KEY_LANG9
  }

  /** Keys caps-lock acts on: letters and international keys. */
  predicate CapsKey(key: int)
  {
    KEY_A <= key <= KEY_Z || KEY_INT1 <= key <= KEY_LANG9
  }

  /**
   * The column `keymap_get_key` picks for a mapped key: 1 with caps-lock on
   * a letter or international key, flipped by shift, then 2 with Alt and 3
   * with Ctrl.
   */
  function Column(status: Status, key: int): (c: int)
    requires MappedKey(key)
    ensures 0 <= c < 4
    ensures status.ctrl ==> c == 3
    ensures !status.ctrl && status.alt ==> c == 2
    ensures !status.ctrl && !status.alt ==> (c == 1 <==> (status.capsLock && CapsKey(key)) != status.shift)
  {
    var index := if (key <= KEY_Z || key >= KEY_INT1) && status.capsLock then 1 else 0;
    var index := if status.shift then 1 - index else index;
    var index := if status.alt then 2 else index;
    if status.ctrl then 3 else index
  }

  /** `keymap_get_key`: the keypad table, the keymap's tables, or `UCS2_NOCHAR`. */
  function GetKey(keymap: Keymap, status: Status, keycode: int): (r: int)
    requires keymap.Valid() && 0 <= keycode < 0x1_0000
    ensures IsUcs2(r)
    ensures KEYPAD_FSLASH <= KeyOf(keycode) <= KEYPAD_DOT ==>
      r == KEYPAD_MAP[KeyOf(keycode) - KEYPAD_FSLASH][if status.numLock then 0 else 1]
    ensures KEY_A <= KeyOf(keycode) <= KEY_FSLASH ==>
      r == keymap.regularKeys[KeyOf(keycode) - KEY_A][Column(status, KeyOf(keycode))]
    ensures KEY_INT1 <= KeyOf(keycode) <= KEY_LANG9 ==>
      r == keymap.intKeys[KeyOf(keycode) - KEY_INT1][Column(status, KeyOf(keycode))]
    ensures !MappedKey(KeyOf(keycode)) && !(KEYPAD_FSLASH <= KeyOf(keycode) <= KEYPAD_DOT) ==> r == NOCHAR
  {
    var key := KeyOf(keycode);
    if KEYPAD_FSLASH <= key <= KEYPAD_DOT then
      KEYPAD_MAP[key - KEYPAD_FSLASH][if status.numLock then 0 else 1]
    else if MappedKey(key) then
      var index := Column(status, key);
      if key >= KEY_INT1 then keymap.intKeys[key - KEY_INT1][index] else keymap.regularKeys[key - KEY_A][index]
    else NOCHAR
  }

  /** Caps-lock and shift together cancel on a letter: the regular column. */
  lemma CapsShiftCancel(keymap: Keymap, status: Status, keycode: int)
    requires keymap.Valid() && 0 <= keycode < 0x1_0000 && KEY_A <= KeyOf(keycode) <= KEY_Z
    requires status.capsLock && status.shift && !status.alt && !status.ctrl
    ensures GetKey(keymap, status, keycode) == keymap.regularKeys[KeyOf(keycode) - KEY_A][0]
  {
  }

  /** Caps-lock does not act on digits and punctuation: with it the key gives what it gives without. */
  lemma CapsIgnoredOffLetters(keymap: Keymap, status: Status, keycode: int)
    requires keymap.Valid() && 0 <= keycode < 0x1_0000 && KEY_Z < KeyOf(keycode) <= KEY_FSLASH
    ensures GetKey(keymap, status, keycode) == GetKey(keymap, status.(capsLock := !status.capsLock), keycode)
  {
  }

  /** Ctrl wins over Alt, shift and caps-lock: every mapped key gives its Ctrl column. */
  lemma CtrlOverrides(keymap: Keymap, status: Status, keycode: int)
    requires keymap.Valid() && 0 <= keycode < 0x1_0000 && KEY_A <= KeyOf(keycode) <= KEY_FSLASH && status.ctrl
    ensures GetKey(keymap, status, keycode) == keymap.regularKeys[KeyOf(keycode) - KEY_A][3]
  {
  }

  /** A keycode whose 9-bit key field is above 255 reads as the key in its low 8 bits: 0x104 reads as `KEY_A`. */
  lemma KeyFieldTruncated(keymap: Keymap, status: Status)
    requires keymap.Valid()
    ensures GetKey(keymap, status, 0x104) == GetKey(keymap, status, KEY_A)
  {
  }
}
