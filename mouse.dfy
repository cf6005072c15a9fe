/** The PS/2 mouse driver (kernel/src/dev/mouse.rs). The byte the interrupt
    reads from port 0x60, and whether it came from the mouse, are parameters.
    Positions are `usize` values, kept below 2^64 with wrapping adds. */
module Mouse {

  const USIZE_MODULUS: int := 0x1_0000_0000_0000_0000
  const PACKET_BYTES: nat := 4

  /** A byte from the PS/2 data port. */
  type Byte = b: int | 0 <= b < 256

  /** The single-bit masks of byte 0 of a packet. */
  const LEFT_BUTTON: nat := 0x01
  const ALWAYS_ONE: nat := 0x08
  const X_SIGN: nat := 0x10
  const Y_SIGN: nat := 0x20
  const X_OVERFLOW: nat := 0x40
  const Y_OVERFLOW: nat := 0x80

  /** `value & bit != 0` for a single-bit mask. */
  predicate HasBit(value: Byte, bit: nat)
    requires bit in {0x01, 0x02, 0x04, 0x08, 0x10, 0x20, 0x40, 0x80}
  {
    (value / bit) % 2 == 1
  }

  datatype MouseState = Up | Down | Immobile

  /** `sign_extend`: `(packet as u16 | 0xFF00) as i16`, the byte as the low
      half of a negative 9-bit value. */
  function SignExtend(packet: Byte): (r: int)
    ensures r == packet - 256
    ensures -256 <= r < 0
  {
    var bits := 0xFF00 + packet;
    if bits >= 0x8000 then bits - 0x1_0000 else bits
  }

  /** The 9-bit two's complement movement a sign bit and a byte encode. */
  function Movement(negative: bool, low: Byte): (d: int)
    ensures -256 <= d < 256
    ensures negative <==> d < 0
  {
    if negative then SignExtend(low) else low
  }

  /** Every movement from -256 to 255 has exactly one encoding, its sign and its
      low eight bits. */
  lemma MovementRoundTrip(d: int)
    requires -256 <= d < 256
    ensures Movement(d < 0, d % 256) == d
  {
  }

  lemma MovementIsInjective(n1: bool, b1: Byte, n2: bool, b2: Byte)
    requires Movement(n1, b1) == Movement(n2, b2)
    ensures n1 == n2 && b1 == b2
  {
  }

  /** `x as usize` for a signed value: two's complement, modulo 2^64. */
  function AsUsize(v: int): (u: int)
    ensures 0 <= u < USIZE_MODULUS
    ensures 0 <= v < USIZE_MODULUS ==> u == v
    ensures -USIZE_MODULUS <= v < 0 ==> u == v + USIZE_MODULUS
  {
    v % USIZE_MODULUS
  }

  /** `usize::wrapping_add`. */
  function WrappingAdd(a: int, b: int): (r: int)
    requires 0 <= a < USIZE_MODULUS && 0 <= b < USIZE_MODULUS
    ensures a + b < USIZE_MODULUS ==> r == a + b
    ensures a + b >= USIZE_MODULUS ==> r == a + b - USIZE_MODULUS
  {
    (a + b) % USIZE_MODULUS
  }

  /** Adding a signed value cast to `usize` is adding it modulo 2^64. */
  lemma WrappingAddOfCast(a: int, v: int)
    requires 0 <= a < USIZE_MODULUS && -USIZE_MODULUS <= v < USIZE_MODULUS
    ensures WrappingAdd(a, AsUsize(v)) == AsUsize(a + v)
  {
  }

  /** A packet whose byte 0 flags an overflow, or lacks the always-one bit, is
      dropped. */
  predicate Discarded(byte0: Byte)
  {
    HasBit(byte0, Y_OVERFLOW) || HasBit(byte0, X_OVERFLOW) || !HasBit(byte0, ALWAYS_ONE)
  }

  /** `Mouse`: the position, the packet being collected and the button state. */
  class Mouse {
    var mouseX: int
    var mouseY: int
    const mousePackets: array<Byte>
    var currentByte: nat
    var mouseState: MouseState

    ghost predicate Valid()
      reads this
    {
      && mousePackets.Length == PACKET_BYTES && currentByte < PACKET_BYTES
      && 0 <= mouseX < USIZE_MODULUS && 0 <= mouseY < USIZE_MODULUS
    }

    /** The initial `MOUSE`: the middle of a 1024x768 screen, no bytes yet. */
    constructor ()
      ensures Valid() && fresh(mousePackets)
      ensures mouseX == 512 && mouseY == 384 && currentByte == 0 && mouseState == Immobile
      ensures mousePackets[..] == [0, 0, 0, 0]
    {
      mouseX := 512;
      mouseY := 384;
      mousePackets := new Byte[PACKET_BYTES](_ => 0);
      currentByte := 0;
      mouseState := Immobile;
    }

    /** `handle_mouse_interrupt`: store the byte, advance the index modulo 4,
        and decode the packet each time the index comes back to 0. */
    method HandleMouseInterrupt(fromMouse: bool, byte: Byte)
      requires Valid()
      modifies this, mousePackets
      ensures Valid()
      ensures !fromMouse ==>
                && mouseX == old(mouseX) && mouseY == old(mouseY) && currentByte == old(currentByte)
                && mouseState == old(mouseState) && mousePackets[..] == old(mousePackets[..])
      ensures fromMouse ==>
                && currentByte == (old(currentByte) + 1) % PACKET_BYTES
                && mousePackets[..] == old(mousePackets[..])[old(currentByte) := byte]
      ensures fromMouse && currentByte != 0 ==>
                mouseX == old(mouseX) && mouseY == old(mouseY) && mouseState == old(mouseState)
      ensures fromMouse && currentByte == 0 ==> Decoded(old(mouseX), old(mouseY), old(mouseState))
    {
      if fromMouse {
        mousePackets[currentByte] := byte;
        currentByte := (currentByte + 1) % PACKET_BYTES;
        if currentByte == 0 {
          HandleMousePackets();
        }
      }
    }

    /** The state after decoding the collected packet from the given one: a
        dropped packet changes nothing; otherwise bit 0 decides the button,
        x moves right by the 9-bit movement in byte 1 and y moves down by the
        movement in byte 2 (the mouse counts up as positive), both wrapping. */
    ghost predicate Decoded(x0: int, y0: int, state0: MouseState)
      requires mousePackets.Length == PACKET_BYTES
      reads this, mousePackets
    {
      var p0, p1, p2 := mousePackets[0], mousePackets[1], mousePackets[2];
      if Discarded(p0) then
        mouseX == x0 && mouseY == y0 && mouseState == state0
      else
        && mouseState == (if HasBit(p0, LEFT_BUTTON) then Down else Up)
        && mouseX == AsUsize(x0 + Movement(HasBit(p0, X_SIGN), p1))
        && mouseY == AsUsize(y0 - Movement(HasBit(p0, Y_SIGN), p2))
    }

    /** `handle_mouse_packets` on the packet collected so far. */
    method HandleMousePackets()
      requires Valid()
      modifies this`mouseX, this`mouseY, this`mouseState
      ensures Valid()
      ensures Decoded(old(mouseX), old(mouseY), old(mouseState))
    {
      var isLeftClicked := false;
      var byte0, byte1, byte2 := mousePackets[0], mousePackets[1], mousePackets[2];
      if HasBit(byte0, Y_OVERFLOW) || HasBit(byte0, X_OVERFLOW) {
        return;
      }
      if !HasBit(byte0, ALWAYS_ONE) {
        return;
      }
      if HasBit(byte0, LEFT_BUTTON) {
        isLeftClicked := true;
        mouseState := Down;
      } else {
        mouseState := Up;
      }
      if HasBit(byte0, X_SIGN) {
        mouseX := WrappingAdd(mouseX, AsUsize(SignExtend(byte1)));
      } else {
        mouseX := WrappingAdd(mouseX, byte1);
      }
      MoveX(old(mouseX), byte0, byte1);
      if HasBit(byte0, Y_SIGN) {
        var adjustedY := SignExtend(byte2) * -1;
        mouseY := WrappingAdd(mouseY, AsUsize(adjustedY));
      } else {
        var adjustedY := (byte2 as int) * -1;
        mouseY := WrappingAdd(mouseY, AsUsize(adjustedY));
      }
      MoveY(old(mouseY), byte0, byte2);
    }
  }

  /** The two ways `handle_mouse_packets` moves x both add the 9-bit movement. */
  lemma MoveX(x: int, byte0: Byte, byte1: Byte)
    requires 0 <= x < USIZE_MODULUS
    ensures (if HasBit(byte0, X_SIGN) then WrappingAdd(x, AsUsize(SignExtend(byte1))) else WrappingAdd(x, byte1))
            == AsUsize(x + Movement(HasBit(byte0, X_SIGN), byte1))
  {
    if HasBit(byte0, X_SIGN) {
      WrappingAddOfCast(x, SignExtend(byte1));
    }
  }

  /** The two ways it moves y both subtract the 9-bit movement. */
  lemma MoveY(y: int, byte0: Byte, byte2: Byte)
    requires 0 <= y < USIZE_MODULUS
    ensures (if HasBit(byte0, Y_SIGN) then WrappingAdd(y, AsUsize(SignExtend(byte2) * -1))
             else WrappingAdd(y, AsUsize((byte2 as int) * -1)))
            == AsUsize(y - Movement(HasBit(byte0, Y_SIGN), byte2))
  {
    if HasBit(byte0, Y_SIGN) {
      WrappingAddOfCast(y, SignExtend(byte2) * -1);
    } else {
      WrappingAddOfCast(y, (byte2 as int) * -1);
    }
  }

  /** Four bytes from a fresh index are one packet: the first three leave the
      position alone and the fourth decodes all four. */
  method FourBytesMakeAPacket(m: Mouse, b0: Byte, b1: Byte, b2: Byte, b3: Byte)
    requires m.Valid() && m.currentByte == 0
    modifies m, m.mousePackets
    ensures m.Valid() && m.currentByte == 0
    ensures m.mousePackets[..] == [b0, b1, b2, b3]
    ensures m.Decoded(old(m.mouseX), old(m.mouseY), old(m.mouseState))
  {
    m.HandleMouseInterrupt(true, b0);
    m.HandleMouseInterrupt(true, b1);
    m.HandleMouseInterrupt(true, b2);
    m.HandleMouseInterrupt(true, b3);
  }
}
