/**
 * Digital input levels of the three push buttons and the debounce decision.
 *
 * The buttons are wired active-low with pull-ups: a pressed button reads
 * `Low` (pigpio's PI_LOW) and a released one `High` (PI_HIGH), which is
 * therefore the inactive level.
 */
module GpioInput {

  datatype Level = Low | High

  /** The inactive level: what an ambiguous (bouncing) read is taken to be. */
  const Inactive: Level := High

  /**
   * Debounce decision over the two samples of one pin taken a debounce
   * interval apart: agreeing samples are believed, disagreeing ones are
   * treated as "not pressed".
   */
  function Debounce(first: Level, second: Level): (r: Level)
    ensures first == second ==> r == first
    ensures first != second ==> r == Inactive
    ensures r == first || r == Inactive
    // a press is reported only when both samples saw the button pressed
    ensures r == Low <==> first == Low && second == Low
  {
    if first == second then first else Inactive
  }

  /**
   * A press event: the button is active now and was inactive at the
   * previous cycle (a falling edge of the active-low line).
   */
  predicate Pressed(current: Level, previous: Level)
    // a press is a change of level, into the active one
    ensures Pressed(current, previous) ==> current != previous && current == Low
    // a level held from one cycle to the next is never a press
    ensures current == previous ==> !Pressed(current, previous)
  {
    current == Low && previous == High
  }

  /** The debounced levels of the start, increase and decrease buttons. */
  datatype Buttons = Buttons(start: Level, increase: Level, decrease: Level)

  /** The three buttons all released: the levels the edge trackers start from. */
  const Released: Buttons := Buttons(High, High, High)
}
