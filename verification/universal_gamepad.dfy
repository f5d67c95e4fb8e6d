/**
  The controller record `_process_input_ps5` fills in (src/hidapi_fn.rs:150-214):
  sticks, triggers, bumpers, main (face) buttons, D-pad and the special
  buttons.
 */
module UniversalGamepads {
  import opened Bytes

  /** An analog stick: two axes and the click of the stick itself (L3/R3). */
  datatype Stick = Stick(x: u8, y: u8, pressed: bool)

  datatype Sticks = Sticks(left: Stick, right: Stick)

  /** Analog trigger travel (L2/R2). */
  datatype Triggers = Triggers(left: u8, right: u8)

  /** Shoulder buttons (L1/R1). */
  datatype Bumpers = Bumpers(left: bool, right: bool)

  /** Face buttons by position: triangle, circle, cross, square on a PlayStation pad. */
  datatype MainButtons = MainButtons(upper: bool, right: bool, lower: bool, left: bool)

  datatype DPad = DPad(right: bool, down: bool, left: bool, up: bool)

  /** Touchpad click, options (right), create (left) and the logo button. */
  datatype SpecialButtons = SpecialButtons(touchpad: bool, right: bool, left: bool, logo: bool)

  datatype UniversalGamepad = UniversalGamepad(
    sticks: Sticks,
    triggers: Triggers,
    bumpers: Bumpers,
    buttons: MainButtons,
    dpad: DPad,
    specials: SpecialButtons
  )

  const Released := DPad(false, false, false, false)

  /** Number of pressed D-pad directions. */
  function PressedDirections(d: DPad): nat
  {
    (if d.right then 1 else 0) + (if d.down then 1 else 0)
    + (if d.left then 1 else 0) + (if d.up then 1 else 0)
  }

  /** A D-pad state a physical rocker can produce: no two opposite directions. */
  predicate PhysicalDPad(d: DPad)
  {
    !(d.up && d.down) && !(d.left && d.right)
  }
}
