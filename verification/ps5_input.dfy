/**
  Decoding of a DualSense (PS5) Bluetooth input report into a UniversalGamepad.

  Byte layout read by the decoder (bytes 0 and 1 are two counters and byte 8
  is not read either):
    2, 3   left stick x, y          4, 5   right stick x, y
    6, 7   left, right trigger      9      face buttons (high nibble) and D-pad (low nibble)
    10     one code for L1, R1, create, options, L3, R3
    11     one code for logo and touchpad click

  Alongside the decoder the module defines its inverse on the states a report
  can carry, so that the decoder is pinned down by a round trip rather than by
  restating it.
 */
module Ps5Input {
  import opened Bytes
  import opened UniversalGamepads

  /** The highest byte the decoder reads is 11, so a report must be at least this long. */
  const BYTES_READ: nat := 12

  // Codes of byte 10; the decoder compares the whole byte, not single bits.
  const BUMPER_LEFT: u8 := 1
  const BUMPER_RIGHT: u8 := 2
  const SPECIAL_LEFT: u8 := 16
  const SPECIAL_RIGHT: u8 := 32
  const STICK_LEFT_PRESSED: u8 := 64
  const STICK_RIGHT_PRESSED: u8 := 128

  // Codes of byte 11.
  const LOGO: u8 := 1
  const TOUCHPAD: u8 := 2

  /** Value of the D-pad nibble that stands for "no direction pressed". */
  const DPAD_RELEASED: u8 := 8

  /** Compass reading of a hat switch. */
  datatype Hat = North | NorthEast | East | SouthEast | South | SouthWest | West | NorthWest | Centered

  /**
    The usual HID hat-switch encoding: a value n below 8 points n * 45 degrees
    clockwise from north; every other value is the centered (null) state.
   */
  function HatOf(n: u8): Hat
  {
    if n == 0 then North
    else if n == 1 then NorthEast
    else if n == 2 then East
    else if n == 3 then SouthEast
    else if n == 4 then South
    else if n == 5 then SouthWest
    else if n == 6 then West
    else if n == 7 then NorthWest
    else Centered
  }

  /** Which rocker directions a compass reading holds down. */
  function HatDirections(h: Hat): DPad
  {
    match h
    case North => DPad(right := false, down := false, left := false, up := true)
    case NorthEast => DPad(right := true, down := false, left := false, up := true)
    case East => DPad(right := true, down := false, left := false, up := false)
    case SouthEast => DPad(right := true, down := true, left := false, up := false)
    case South => DPad(right := false, down := true, left := false, up := false)
    case SouthWest => DPad(right := false, down := true, left := true, up := false)
    case West => DPad(right := false, down := false, left := true, up := false)
    case NorthWest => DPad(right := false, down := false, left := true, up := true)
    case Centered => Released
  }

  /** The low nibble of byte 9. */
  function DPadNibble(b9: u8): (n: u8)
    ensures n < 16
    ensures n == b9 % 16
    ensures b9 < 16 ==> n == b9
  {
    0x0F & b9
  }

  /** D-pad decoding: each direction is a membership test on the nibble. */
  function DecodeDPad(n: u8): (d: DPad)
    ensures d == HatDirections(HatOf(n))
    ensures PhysicalDPad(d)
    ensures PressedDirections(d) <= 2
    ensures n >= DPAD_RELEASED ==> d == Released
  {
    DPad(
      right := n == 1 || n == 2 || n == 3,
      down := n == 3 || n == 4 || n == 5,
      left := n == 5 || n == 6 || n == 7,
      up := n == 0 || n == 1 || n == 7
    )
  }

  /** Inverse of DecodeDPad: the nibble that reports a physically possible D-pad state. */
  function EncodeDPad(d: DPad): (n: u8)
    requires PhysicalDPad(d)
    ensures n <= DPAD_RELEASED
    ensures DecodeDPad(n) == d
  {
    if d.up && d.right then 1
    else if d.down && d.right then 3
    else if d.down && d.left then 5
    else if d.up && d.left then 7
    else if d.up then 0
    else if d.right then 2
    else if d.down then 4
    else if d.left then 6
    else DPAD_RELEASED
  }

  /** The nine nibble values 0..8 decode to nine different D-pad states. */
  lemma DPadNibbleRoundTrip(n: u8)
    requires n <= DPAD_RELEASED
    ensures EncodeDPad(DecodeDPad(n)) == n
  {
  }

  /** Face buttons are bits 7, 6, 5 and 4 of byte 9. */
  function DecodeMainButtons(b9: u8): (m: MainButtons)
    ensures m.upper <==> 0x80 <= b9
    ensures m.right <==> 0x40 <= b9 % 0x80
    ensures m.lower <==> 0x20 <= b9 % 0x40
    ensures m.left <==> 0x10 <= b9 % 0x20
  {
    MainButtons(
      upper := b9 & 0x80 != 0,
      right := b9 & 0x40 != 0,
      lower := b9 & 0x20 != 0,
      left := b9 & 0x10 != 0
    )
  }

  /** Byte 9 assembled from the face buttons and a D-pad nibble. */
  function EncodeByte9(m: MainButtons, nibble: u8): (b: u8)
    requires nibble < 16
    ensures DecodeMainButtons(b) == m
    ensures DPadNibble(b) == nibble
  {
    (if m.upper then 0x80 else 0) | (if m.right then 0x40 else 0)
    | (if m.lower then 0x20 else 0) | (if m.left then 0x10 else 0) | nibble
  }

  /** Byte 9 carries nothing but the face buttons and the nibble. */
  lemma Byte9RoundTrip(b: u8)
    ensures EncodeByte9(DecodeMainButtons(b), DPadNibble(b)) == b
  {
  }

  /** Changing the D-pad nibble of byte 9 never changes a face button. */
  lemma MainButtonsIgnoreDPadNibble(a: u8, b: u8)
    requires a & 0xF0 == b & 0xF0
    ensures DecodeMainButtons(a) == DecodeMainButtons(b)
  {
  }

  /** How many of the six buttons coded in byte 10 are pressed. */
  function Byte10Pressed(g: UniversalGamepad): nat
  {
    (if g.bumpers.left then 1 else 0) + (if g.bumpers.right then 1 else 0)
    + (if g.specials.left then 1 else 0) + (if g.specials.right then 1 else 0)
    + (if g.sticks.left.pressed then 1 else 0) + (if g.sticks.right.pressed then 1 else 0)
  }

  /**
    The states a PS5 report can express: a physical D-pad, at most one of the
    byte-10 buttons and not both logo and touchpad.
   */
  predicate Representable(g: UniversalGamepad)
  {
    && PhysicalDPad(g.dpad)
    && Byte10Pressed(g) <= 1
    && !(g.specials.touchpad && g.specials.logo)
  }

  /** The PS5 decoder; every field of the result is assigned from the input bytes. */
  function DecodePs5(input: seq<u8>): (g: UniversalGamepad)
    requires |input| >= BYTES_READ
    ensures Representable(g)
    ensures g.sticks.left.x == input[2] && g.sticks.left.y == input[3]
    ensures g.sticks.right.x == input[4] && g.sticks.right.y == input[5]
    ensures g.triggers == Triggers(input[6], input[7])
    ensures g.dpad == HatDirections(HatOf(DPadNibble(input[9])))
    ensures g.buttons == DecodeMainButtons(input[9])
    // byte 10 holding no single button's code, e.g. two of them at once, reads as none pressed
    ensures
      input[10] !in {BUMPER_LEFT, BUMPER_RIGHT, SPECIAL_LEFT, SPECIAL_RIGHT, STICK_LEFT_PRESSED, STICK_RIGHT_PRESSED} ==>
        Byte10Pressed(g) == 0
    ensures input[11] !in {LOGO, TOUCHPAD} ==> !g.specials.touchpad && !g.specials.logo
    ensures input[11] == LOGO ==> g.specials.logo && !g.specials.touchpad
    ensures input[11] == TOUCHPAD ==> g.specials.touchpad && !g.specials.logo
  {
    var dpad := DPadNibble(input[9]);
    UniversalGamepad(
      sticks := Sticks(
        left := Stick(x := input[2], y := input[3], pressed := input[10] == STICK_LEFT_PRESSED),
        right := Stick(x := input[4], y := input[5], pressed := input[10] == STICK_RIGHT_PRESSED)
      ),
      triggers := Triggers(left := input[6], right := input[7]),
      bumpers := Bumpers(left := input[10] == BUMPER_LEFT, right := input[10] == BUMPER_RIGHT),
      buttons := DecodeMainButtons(input[9]),
      dpad := DecodeDPad(dpad),
      specials := SpecialButtons(
        touchpad := input[11] == TOUCHPAD,
        right := input[10] == SPECIAL_RIGHT,
        left := input[10] == SPECIAL_LEFT,
        logo := input[11] == LOGO
      )
    )
  }

  /** The code byte 10 carries for a state with at most one of its buttons pressed. */
  function EncodeByte10(g: UniversalGamepad): u8
  {
    if g.bumpers.left then BUMPER_LEFT
    else if g.bumpers.right then BUMPER_RIGHT
    else if g.specials.left then SPECIAL_LEFT
    else if g.specials.right then SPECIAL_RIGHT
    else if g.sticks.left.pressed then STICK_LEFT_PRESSED
    else if g.sticks.right.pressed then STICK_RIGHT_PRESSED
    else 0
  }

  function EncodeByte11(s: SpecialButtons): u8
  {
    if s.logo then LOGO else if s.touchpad then TOUCHPAD else 0
  }

  /**
    Writes a state into bytes 2..11 of `frame`, leaving every other byte as it
    was: the inverse of DecodePs5 on representable states.
   */
  function EncodePs5(g: UniversalGamepad, frame: seq<u8>): (r: seq<u8>)
    requires Representable(g)
    requires |frame| >= BYTES_READ
    ensures |r| == |frame|
    ensures r[..2] == frame[..2] && r[BYTES_READ..] == frame[BYTES_READ..]
    ensures DecodePs5(r) == g
  {
    frame[2 := g.sticks.left.x][3 := g.sticks.left.y]
         [4 := g.sticks.right.x][5 := g.sticks.right.y]
         [6 := g.triggers.left][7 := g.triggers.right]
         [9 := EncodeByte9(g.buttons, EncodeDPad(g.dpad))]
         [10 := EncodeByte10(g)][11 := EncodeByte11(g.specials)]
  }

  /**
    A report whose bytes 9..11 use only the values the decoder gives a meaning
    to; in any other report some bits are dropped by decoding.
   */
  predicate CanonicalReport(input: seq<u8>)
    requires |input| >= BYTES_READ
  {
    && DPadNibble(input[9]) <= DPAD_RELEASED
    && input[10] in {0, BUMPER_LEFT, BUMPER_RIGHT, SPECIAL_LEFT, SPECIAL_RIGHT, STICK_LEFT_PRESSED, STICK_RIGHT_PRESSED}
    && input[11] in {0, LOGO, TOUCHPAD}
  }

  lemma Byte9ReEncodes(b9: u8)
    ensures EncodeByte9(DecodeMainButtons(b9), EncodeDPad(DecodeDPad(DPadNibble(b9)))) == b9
        <==> DPadNibble(b9) <= DPAD_RELEASED
  {
    if DPadNibble(b9) <= DPAD_RELEASED {
      DPadNibbleRoundTrip(DPadNibble(b9));
      Byte9RoundTrip(b9);
    }
  }

  lemma Byte10ReEncodes(input: seq<u8>)
    requires |input| >= BYTES_READ
    ensures EncodeByte10(DecodePs5(input)) == input[10]
        <==> input[10] in {0, BUMPER_LEFT, BUMPER_RIGHT, SPECIAL_LEFT, SPECIAL_RIGHT, STICK_LEFT_PRESSED, STICK_RIGHT_PRESSED}
  {
  }

  /** Decoding and re-encoding byte 11 gives it back exactly when it is 0 or one of its two codes. */
  lemma Byte11ReEncodes(input: seq<u8>)
    requires |input| >= BYTES_READ
    ensures EncodeByte11(DecodePs5(input).specials) == input[11] <==> input[11] in {0, LOGO, TOUCHPAD}
  {
  }

  /**
    Re-encoding a decoded canonical report gives the report back; byte 8 is
    the one byte in 2..11 the decoder ignores, so it is compared as zero.
   */
  lemma CanonicalReportRoundTrip(input: seq<u8>)
    requires |input| >= BYTES_READ
    requires CanonicalReport(input)
    ensures EncodePs5(DecodePs5(input), input[8 := 0]) == input[8 := 0]
  {
    var frame := input[8 := 0];
    var r := EncodePs5(DecodePs5(input), frame);
    Byte9ReEncodes(input[9]);
    Byte10ReEncodes(input);
    assert forall i :: 0 <= i < |r| ==> r[i] == frame[i];
  }

  /** Conversely, a report that survives decoding and re-encoding is canonical. */
  lemma RoundTripOnlyIfCanonical(input: seq<u8>)
    requires |input| >= BYTES_READ
    requires EncodePs5(DecodePs5(input), input[8 := 0]) == input[8 := 0]
    ensures CanonicalReport(input)
  {
    var r := EncodePs5(DecodePs5(input), input[8 := 0]);
    assert r[9] == input[9] && r[10] == input[10] && r[11] == input[11];
    Byte9ReEncodes(input[9]);
    Byte10ReEncodes(input);
  }

  /** The decoder looks at bytes 2..7 and 9..11 only. */
  lemma DecodeReadsOnlyPayload(a: seq<u8>, b: seq<u8>)
    requires |a| >= BYTES_READ && |b| >= BYTES_READ
    requires a[2..8] == b[2..8] && a[9..BYTES_READ] == b[9..BYTES_READ]
    ensures DecodePs5(a) == DecodePs5(b)
  {
    assert forall i :: 2 <= i < 8 ==> a[i] == a[2..8][i - 2] == b[2..8][i - 2] == b[i];
    assert forall i :: 9 <= i < BYTES_READ ==> a[i] == a[9..BYTES_READ][i - 9] == b[9..BYTES_READ][i - 9] == b[i];
  }

  /**
    Byte 10 is compared for equality, so holding both bumpers, whose bits
    together make the byte 3, decodes as neither being pressed.
   */
  lemma BothBumpersReadAsReleased(input: seq<u8>)
    requires |input| >= BYTES_READ && input[10] == BUMPER_LEFT | BUMPER_RIGHT
    ensures !DecodePs5(input).bumpers.left && !DecodePs5(input).bumpers.right
  {
  }
}
