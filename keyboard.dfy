/** The PS/2 keyboard driver (kernel/src/dev/keyboard.rs): scancode set 1
    translated through the 0x3A-entry US table, with shift and caps lock
    tracked in `is_upper`. The scancode read from port 0x60, and whether it came
    from the mouse, are parameters; what `print_serial!` would print is
    returned. */
module Keyboard {
  import opened Wrappers

  type Byte = b: int | 0 <= b < 256

  const ENTER: Byte := 0x1C
  const CAPS_LOCK: Byte := 0x3A
  const LEFT_SHIFT_PRESSED: Byte := 0x2A
  const RIGHT_SHIFT_PRESSED: Byte := 0x36
  const LEFT_SHIFT_RELEASED: Byte := 0xAA
  const RIGHT_SHIFT_RELEASED: Byte := 0xB6
  /** The `L` key, which the table leaves blank and the handler prints itself. */
  const KEY_L: Byte := 0x26

  /** `kbd_us`: the character of each make code below 0x3A, sixteen codes a
      row. */
  const KBD_US: seq<char> :=
    ['\0', '\0', '1', '2', '3', '4', '5', '6', '7', '8', '9', '0', '-', '=', '\0', '\t'] +
    ['q', 'w', 'e', 'r', 't', 'y', 'u', 'i', 'o', 'p', '[', ']', '\n', '\0', 'a', 's'] +
    ['d', 'f', 'g', 'h', 'j', 'k', '\0', ';', '\'', '`', '\0', '\\', 'z', 'x', 'c', 'v'] +
    ['b', 'n', 'm', ',', '.', '/', '\0', '*', '\0', ' ']

  lemma TableHas0x3AEntries()
    ensures |KBD_US| == 0x3A
  {
  }

  /** Indexing the 0x3A-entry table with 0x3A is out of bounds. */
  datatype KeyboardError = IndexOutOfBounds

  /** `(c as u8 - 0x20) as char`: the cast keeps the low byte and the
      subtraction wraps below 0x20, as a release build's does. */
  function ShiftDown(c: char): (r: char)
    ensures r as int < 256
    ensures 0x20 <= c as int < 256 ==> r as int == c as int - 0x20
    ensures c as int < 0x20 ==> r as int == c as int + 0xE0
  {
    ((c as int % 256 - 0x20) % 256) as char
  }

  /** `translate`: Enter is passed through as its own code, anything past the
      table is '0', and otherwise the table entry, moved down by 0x20 when
      upper case. */
  function Translate(scancode: Byte, uppercase: bool): (r: Outcome<char, KeyboardError>)
    ensures r.Panic? <==> scancode == CAPS_LOCK
    ensures scancode == ENTER ==> r == Ok(ENTER as char)
    ensures scancode > CAPS_LOCK ==> r == Ok('0')
    ensures scancode < CAPS_LOCK && scancode != ENTER && !uppercase ==> r == Ok(KBD_US[scancode])
    ensures scancode < CAPS_LOCK && scancode != ENTER && uppercase ==> r == Ok(ShiftDown(KBD_US[scancode]))
  {
    assert |KBD_US| == 0x3A;
    if scancode == 0x1C then Ok(scancode as char)
    else if scancode > 0x3A then Ok('0')
    else if scancode >= |KBD_US| then Panic(IndexOutOfBounds)
    else if uppercase then Ok(ShiftDown(KBD_US[scancode]))
    else Ok(KBD_US[scancode])
  }

  /** Shift moves exactly the lower-case letters onto their capitals. */
  lemma UppercaseLetters(scancode: Byte)
    requires scancode < CAPS_LOCK && scancode != ENTER
    requires 'a' <= KBD_US[scancode] <= 'z'
    ensures Translate(scancode, true).Ok? && 'A' <= Translate(scancode, true).value <= 'Z'
    ensures Translate(scancode, true).value as int == Translate(scancode, false).value as int - 32
  {
  }

  /** Every lower-case letter but `l` has a key in the table. */
  lemma EveryLetterButLHasAKey(c: char)
    requires 'a' <= c <= 'z' && c != 'l'
    ensures exists s: Byte :: s < CAPS_LOCK && KBD_US[s] == c
  {
    assert c in KBD_US;
    var i :| 0 <= i < |KBD_US| && KBD_US[i] == c;
    var s: Byte := i;
    assert KBD_US[s] == c;
  }

  /** The table has no `l`: its key's entry is NUL, which is why the handler
      prints "l" itself. */
  lemma TableLacksL()
    ensures KBD_US[KEY_L] == '\0'
    ensures 'l' !in KBD_US
  {
  }

  /** Shifted digits and punctuation are not their US-layout symbols: shift-1
      is the control code 0x11, not '!', and shift-space is NUL. */
  lemma ShiftedDigitsAreControlCodes()
    ensures Translate(0x02, true) == Ok(0x11 as char)
    ensures Translate(0x39, true) == Ok('\0')
  {
  }

  /** `Keyboard`: only `is_upper` changes after start-up. */
  class Keyboard {
    var isUpper: bool

    constructor ()
      ensures !isUpper
    {
      isUpper := false;
    }

    /** `handle_keyboard`: the shift keys set and clear upper case, caps lock
        flips it, `L` prints "l", and any other key prints its translation
        unless that is '0' (and is not Enter). */
    method HandleKeyboard(fromMouse: bool, scancode: Byte) returns (printed: string)
      modifies this
      ensures fromMouse ==> isUpper == old(isUpper) && printed == []
      ensures !fromMouse && (scancode == LEFT_SHIFT_PRESSED || scancode == RIGHT_SHIFT_PRESSED) ==>
                isUpper && printed == []
      ensures !fromMouse && (scancode == LEFT_SHIFT_RELEASED || scancode == RIGHT_SHIFT_RELEASED) ==>
                !isUpper && printed == []
      ensures !fromMouse && scancode == CAPS_LOCK ==> isUpper == !old(isUpper) && printed == []
      ensures !fromMouse && scancode == KEY_L ==> isUpper == old(isUpper) && printed == "l"
      ensures !fromMouse && scancode !in {LEFT_SHIFT_PRESSED, RIGHT_SHIFT_PRESSED, LEFT_SHIFT_RELEASED,
                                          RIGHT_SHIFT_RELEASED, CAPS_LOCK, KEY_L} ==>
                && isUpper == old(isUpper)
                && Translate(scancode, isUpper).Ok?
                && printed == (if scancode == ENTER || Translate(scancode, isUpper).value != '0'
                               then [Translate(scancode, isUpper).value] else [])
    {
      printed := [];
      if !fromMouse {
        match scancode
        case 0x26 => printed := "l";
        case 0x2A => isUpper := true;
        case 0x36 => isUpper := true;
        case 0xAA => isUpper := false;
        case 0xB6 => isUpper := false;
        case 0x3A => isUpper := !isUpper;
        case _ =>
          var letter := Translate(scancode, isUpper);
          if scancode == 0x1C || letter.value != '0' {
            printed := [letter.value];
          }
      }
    }
  }

  /** The `0` key prints nothing: its character is the handler's "no key"
      marker. */
  lemma ZeroKeyIsSilent()
    ensures Translate(0x0B, false) == Ok('0')
  {
  }

  /** Caps lock pressed twice leaves the case as it was. */
  method CapsLockTwice(k: Keyboard)
    modifies k
    ensures k.isUpper == old(k.isUpper)
  {
    var _ := k.HandleKeyboard(false, CAPS_LOCK);
    var _ := k.HandleKeyboard(false, CAPS_LOCK);
  }
}
