/** The pygame variant (controller_pygame.py): it reads the F310 through pygame
    only when a frame is due, packs buttons and the hat into two bytes and sends
    one frame every 0.1 s. */
module PygameSampler {
  import opened Wrappers
  import opened Wire
  import Schedule

  const Interval: real := 0.1

  /** Hat (x, y) reading to its 4-bit code; (0, 0) is neutral. */
  const HatTable: map<(int, int), Byte> :=
    map[(0, 0) := 8, (0, 1) := 0, (1, 1) := 1, (1, 0) := 2, (1, -1) := 3,
        (0, -1) := 4, (-1, -1) := 5, (-1, 0) := 6, (-1, 1) := 7]

  /** `hat_dict[hat]`, or None where that lookup raises. */
  function HatCode(hat: (int, int)): (r: Option<Byte>)
    ensures r.Some? <==> -1 <= hat.0 <= 1 && -1 <= hat.1 <= 1
    ensures r.Some? ==> r.value <= 8
    ensures r == Some(8) <==> hat == (0, 0)
  {
    if hat in HatTable then Some(HatTable[hat]) else None
  }

  /** No two hat directions share a code, and the codes are exactly 0..8. */
  lemma HatTableBijective()
    ensures forall a, b :: a in HatTable && b in HatTable && HatTable[a] == HatTable[b] ==> a == b
    ensures forall c: int :: 0 <= c <= 8 <==> c in HatTable.Values
  {
    assert HatTable[(0, 1)] == 0 && HatTable[(1, 1)] == 1 && HatTable[(1, 0)] == 2;
    assert HatTable[(1, -1)] == 3 && HatTable[(0, -1)] == 4 && HatTable[(-1, -1)] == 5;
    assert HatTable[(-1, 0)] == 6 && HatTable[(-1, 1)] == 7 && HatTable[(0, 0)] == 8;
  }

  /** Codes go round the compass clockwise from up = 0. */
  lemma HatCompass()
    ensures HatCode((0, 1)) == Some(0)     // up
    ensures HatCode((1, 1)) == Some(1)     // up-right
    ensures HatCode((1, 0)) == Some(2)     // right
    ensures HatCode((1, -1)) == Some(3)    // down-right
    ensures HatCode((0, -1)) == Some(4)    // down
    ensures HatCode((-1, -1)) == Some(5)   // down-left
    ensures HatCode((-1, 0)) == Some(6)    // left
    ensures HatCode((-1, 1)) == Some(7)    // up-left
  {
  }

  /** A 0/1 button reading as a bit. */
  function Bit(b: bool): bv8
  {
    if b then 1 else 0
  }

  /** Bit `i` of `x`. */
  function BitAt(x: bv8, i: nat): bv8
    requires i < 8
  {
    (x >> i) & 1
  }

  /** `buttons1`: buttons 3, 1, 0, 2 in bits 7..4, then the hat code OR-ed in
      when the reading is in the table (the `except: pass` path adds nothing). */
  function Buttons1(buttons: seq<bool>, hat: (int, int)): (r: bv8)
    requires |buttons| >= 10
    ensures BitAt(r, 7) == Bit(buttons[3]) && BitAt(r, 6) == Bit(buttons[1])
    ensures BitAt(r, 5) == Bit(buttons[0]) && BitAt(r, 4) == Bit(buttons[2])
    ensures r & 0x0F == match HatCode(hat) case Some(c) => c as bv8 case None => 0
  {
    var bits := (Bit(buttons[3]) << 7) | (Bit(buttons[1]) << 6) |
                (Bit(buttons[0]) << 5) | (Bit(buttons[2]) << 4);
    match HatCode(hat)
    case Some(c) => bits | (c as bv8)
    case None => bits
  }

  /** `buttons2`: buttons 9, 8, 7, 6 in bits 7..4, bits 3..2 clear, buttons 5, 4
      in bits 1..0. */
  function Buttons2(buttons: seq<bool>): (r: bv8)
    requires |buttons| >= 10
    ensures BitAt(r, 7) == Bit(buttons[9]) && BitAt(r, 6) == Bit(buttons[8])
    ensures BitAt(r, 5) == Bit(buttons[7]) && BitAt(r, 4) == Bit(buttons[6])
    ensures r & 0x0C == 0
    ensures BitAt(r, 1) == Bit(buttons[5]) && BitAt(r, 0) == Bit(buttons[4])
  {
    (Bit(buttons[9]) << 7) | (Bit(buttons[8]) << 6) | (Bit(buttons[7]) << 5) |
    (Bit(buttons[6]) << 4) | (Bit(buttons[5]) << 1) | (Bit(buttons[4]) << 0)
  }

  /** One pygame reading, with the four axes already scaled to bytes. */
  datatype Reading = Reading(leftX: Byte, leftY: Byte, rightX: Byte, rightY: Byte,
                             buttons: seq<bool>, hat: (int, int))

  /** The state list built from one reading. */
  function Sample(rd: Reading): (s: State)
    requires |rd.buttons| >= 10
    ensures Payload(s)[..4] == [rd.leftX, rd.leftY, rd.rightX, rd.rightY]
    ensures s.buttons1 / 16 == 8 * Bit(rd.buttons[3]) as int + 4 * Bit(rd.buttons[1]) as int
                             + 2 * Bit(rd.buttons[0]) as int + Bit(rd.buttons[2]) as int
    ensures s.buttons1 % 16 == match HatCode(rd.hat) case Some(c) => c case None => 0
    ensures s.buttons2 == Buttons2(rd.buttons) as int
  {
    var b1 := Buttons1(rd.buttons, rd.hat);
    NibbleValues(b1);
    State(rd.leftX, rd.leftY, rd.rightX, rd.rightY, b1 as int, Buttons2(rd.buttons) as int)
  }

  /** The integer value of a byte, read nibble by nibble and bit by bit. */
  lemma NibbleValues(x: bv8)
    ensures x as int % 16 == (x & 0x0F) as int
    ensures x as int / 16 == 8 * BitAt(x, 7) as int + 4 * BitAt(x, 6) as int
                           + 2 * BitAt(x, 5) as int + BitAt(x, 4) as int
  {
  }

  /** A controller at rest (no buttons, hat centred) reads as buttons1 = 8, the
      neutral hat code, and buttons2 = 0. */
  lemma IdleSample(rd: Reading)
    requires |rd.buttons| >= 10
    requires forall i :: 0 <= i < |rd.buttons| ==> !rd.buttons[i]
    requires rd.hat == (0, 0)
    ensures Sample(rd).buttons1 == 8 && Sample(rd).buttons2 == 0
  {
  }

  /** With no button pressed, buttons1 is 0 exactly when the hat points up
      (code 0) or its reading is not in the table (nothing is OR-ed in). */
  lemma ZeroButtons1(rd: Reading)
    requires |rd.buttons| >= 10
    requires forall i :: 0 <= i < |rd.buttons| ==> !rd.buttons[i]
    ensures Sample(rd).buttons1 == 0 <==> rd.hat == (0, 1) || rd.hat !in HatTable
  {
  }

  /** The loop's persistent variables: the last state sent and `last_t`. */
  class PygameLoop {
    var state: State
    var lastT: real

    constructor (t0: real)
      ensures state == InitialState && lastT == t0
    {
      state := InitialState;
      lastT := t0;
    }

    /** One iteration at time `t`: if a frame is due, sample `rd`, move `last_t`
        to `t` and return the frame with nonce `randrange(0, 2**32)` = `r`;
        otherwise nothing changes and nothing is sent. */
    method Tick(t: real, rd: Reading, r: nat) returns (frame: Option<seq<Byte>>)
      requires |rd.buttons| >= 10 && r < 0x1_0000_0000
      modifies this
      ensures frame.Some? <==> Schedule.Due(old(lastT), t, Interval)
      ensures lastT == Schedule.NextLastT(old(lastT), t, Interval)
      ensures frame.Some? ==> state == Sample(rd) && frame.value == Encode(NonceBytes(r), state)
      ensures frame.None? ==> state == old(state)
    {
      if t - lastT >= Interval {
        state := Sample(rd);
        lastT := t;
        var packed := PackFrame(NonceBytes(r), state);
        frame := Some(packed);
      } else {
        frame := None;
      }
    }
  }
}
