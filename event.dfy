/** The input event latch (kernel/src/utils/event.rs): interrupt handlers
    record the latest key and mouse state in one `Event`, and `get_event` hands
    out a copy in a second `Event` and clears the first. */
module Events {
  import opened Bitwise

  type Byte = b: int | 0 <= b < 256

  const USIZE_MODULUS: int := 0x1_0000_0000_0000_0000

  /** The bits of `Event::flags`. */
  const KEY_PRESSED: bv8 := 0x01
  const MOUSE_LEFT_CLICKED: bv8 := 0x02
  const MOUSE_RIGHT_CLICKED: bv8 := 0x04

  /** `character as u8`: the low byte of the code point. */
  function CharByte(c: char): (b: Byte)
    ensures c as int < 256 ==> b == c as int
  {
    c as int % 256
  }

  /** `Event`. */
  class Event {
    var flags: bv8
    var scancode: Byte
    var character: Byte
    var mouseX: int
    var mouseY: int

    /** An event with the given fields; `kmalloc`ed memory holds anything. */
    constructor (flags: bv8, scancode: Byte, character: Byte, mouseX: int, mouseY: int)
      ensures this.flags == flags && this.scancode == scancode && this.character == character
      ensures this.mouseX == mouseX && this.mouseY == mouseY
    {
      this.flags, this.scancode, this.character := flags, scancode, character;
      this.mouseX, this.mouseY := mouseX, mouseY;
    }

    predicate IsClear()
      reads this
    {
      flags == 0 && scancode == 0 && character == 0 && mouseX == 0 && mouseY == 0
    }

    /** `clear`: every field zero. */
    method Clear()
      modifies this
      ensures IsClear()
    {
      flags := 0;
      scancode := 0;
      character := 0;
      mouseX := 0;
      mouseY := 0;
    }
  }

  /** `EventManager`: the event the handlers write and the one `get_event`
      returns. */
  class EventManager {
    var event: Event
    var eventRtn: Event

    ghost predicate Valid()
      reads this
    {
      event != eventRtn
    }

    /** `EventManager::init`: two fresh events, the first cleared. The second
        keeps whatever `kmalloc` returned, here `stale`. */
    constructor (stale: Event)
      ensures Valid() && fresh(event) && eventRtn == stale && event.IsClear()
    {
      var e := new Event(0, 0, 0, 0, 0);
      event := e;
      eventRtn := stale;
    }

    /** `update_key_event`: the scancode and the character's low byte are
        recorded and the key flag is set; the other flags and the mouse fields
        are kept. */
    method UpdateKeyEvent(scancode: Byte, character: char)
      requires Valid()
      modifies event
      ensures event.scancode == scancode && event.character == CharByte(character)
      ensures event.flags & KEY_PRESSED == KEY_PRESSED
      ensures event.flags & !KEY_PRESSED == old(event.flags) & !KEY_PRESSED
      ensures event.mouseX == old(event.mouseX) && event.mouseY == old(event.mouseY)
    {
      event.scancode := scancode;
      event.character := CharByte(character);
      event.flags := SetBit(event.flags, KEY_PRESSED);
    }

    /** `update_mouse_event`: the position is recorded and each click flag is
        set only when its argument is true; nothing is ever cleared. */
    method UpdateMouseEvent(x: int, y: int, isLeftClick: bool, isRightClick: bool)
      requires Valid() && 0 <= x < USIZE_MODULUS && 0 <= y < USIZE_MODULUS
      modifies event
      ensures event.mouseX == x && event.mouseY == y
      ensures event.scancode == old(event.scancode) && event.character == old(event.character)
      ensures event.flags & MOUSE_LEFT_CLICKED == (if isLeftClick then MOUSE_LEFT_CLICKED else old(event.flags) & MOUSE_LEFT_CLICKED)
      ensures event.flags & MOUSE_RIGHT_CLICKED == (if isRightClick then MOUSE_RIGHT_CLICKED else old(event.flags) & MOUSE_RIGHT_CLICKED)
      ensures event.flags & !(MOUSE_LEFT_CLICKED | MOUSE_RIGHT_CLICKED) == old(event.flags) & !(MOUSE_LEFT_CLICKED | MOUSE_RIGHT_CLICKED)
    {
      event.mouseX := x;
      event.mouseY := y;
      if isLeftClick {
        event.flags := SetBit(event.flags, MOUSE_LEFT_CLICKED);
      }
      if isRightClick {
        event.flags := SetBit(event.flags, MOUSE_RIGHT_CLICKED);
      }
    }

    /** `get_event`: the returned event is a copy of the current one, which is
        then cleared. */
    method GetEvent() returns (snapshot: Event)
      requires Valid()
      modifies event, eventRtn
      ensures Valid() && snapshot == eventRtn && event.IsClear()
      ensures snapshot.flags == old(event.flags) && snapshot.scancode == old(event.scancode)
      ensures snapshot.character == old(event.character)
      ensures snapshot.mouseX == old(event.mouseX) && snapshot.mouseY == old(event.mouseY)
    {
      eventRtn.flags, eventRtn.scancode, eventRtn.character := event.flags, event.scancode, event.character;
      eventRtn.mouseX, eventRtn.mouseY := event.mouseX, event.mouseY;
      event.Clear();
      snapshot := eventRtn;
    }
  }

  /** A key press followed by `get_event` reports the key and leaves a clear
      event behind, so a second `get_event` reports nothing. */
  method KeyThenTwoReads(m: EventManager, scancode: Byte, character: char)
    requires m.Valid()
    modifies m.event, m.eventRtn
    ensures m.eventRtn.IsClear() && m.event.IsClear()
  {
    m.UpdateKeyEvent(scancode, character);
    var first := m.GetEvent();
    assert first.flags & KEY_PRESSED == KEY_PRESSED;
    var second := m.GetEvent();
  }
}
