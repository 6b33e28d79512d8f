/** The rotary-encoder knob of knob_code.py, the earlier rule: an update that
    moves the (negated) position reports an add when it moved forward onto a
    multiple of `RESOLUTION`, and a remove when it moved backward onto one. */
module EncoderDraft {
  import opened KnobEvents

  /** Events fire on positions that are multiples of this. */
  const RESOLUTION: int := 20

  /** Python's `position % RESOLUTION` for the positive divisor: the unique
      remainder `r` with `0 <= r < RESOLUTION` and `position - r` a multiple of
      `RESOLUTION`. Python floors the quotient, so the remainder is never
      negative, also for negative positions. */
  ghost predicate FloorRemainder(position: int, r: int) {
    0 <= r < RESOLUTION && exists q: int {:trigger q * RESOLUTION} :: position == q * RESOLUTION + r
  }

  /** Dafny's `%` is that remainder. */
  lemma ModIsFloorRemainder(position: int, q: int, r: int)
    requires position == q * RESOLUTION + r && 0 <= r < RESOLUTION
    ensures position % RESOLUTION == r
    ensures FloorRemainder(position, position % RESOLUTION)
  {
  }

  /** The event of one update from `lastPosition` to `position`. */
  function Detect(lastPosition: int, position: int): (e: Event)
    ensures e == Add <==> position > lastPosition && position % RESOLUTION == 0
    ensures e == Remove <==> position < lastPosition && position % RESOLUTION == 0
  {
    if position > lastPosition then
      if position % RESOLUTION == 0 then Add else NoEvent
    else if position < lastPosition then
      if position % RESOLUTION == 0 then Remove else NoEvent
    else
      NoEvent
  }

  /** Negative positions fire on multiples of `RESOLUTION` too: backing up from
      -19 to -20 removes, from 0 to -5 does nothing. */
  lemma NegativeExamples()
    ensures Detect(-19, -20) == Remove
    ensures Detect(0, -5) == NoEvent
    ensures Detect(-21, -20) == Add
  {
  }

  /** The events of updates at the given positions. */
  function Run(lastPosition: int, positions: seq<int>): seq<Event>
    decreases |positions|
  {
    if positions == [] then [] else [Detect(lastPosition, positions[0])] + Run(positions[0], positions[1..])
  }

  function Adds(events: seq<Event>): nat
    decreases |events|
  {
    if events == [] then 0 else (if events[0] == Add then 1 else 0) + Adds(events[1..])
  }

  /** Turning forward one step at a time adds once per multiple of
      `RESOLUTION` passed. */
  lemma {:induction false} RampAddsPerMultiple(a: int, b: int)
    requires a <= b
    ensures Adds(Run(a, Ramp(a, b))) == b / RESOLUTION - a / RESOLUTION
    decreases b - a
  {
    if a < b {
      assert Ramp(a, b) == [a + 1] + Ramp(a + 1, b);
      assert Ramp(a, b)[1..] == Ramp(a + 1, b);
      RampAddsPerMultiple(a + 1, b);
      StepQuotient(a);
    }
  }

  /** One step forward raises the floored quotient exactly when it lands on a multiple. */
  lemma StepQuotient(a: int)
    ensures (a + 1) / RESOLUTION - a / RESOLUTION == if (a + 1) % RESOLUTION == 0 then 1 else 0
  {
  }

  /** A jump that passes a multiple without landing on it fires nothing: 19 to 21. */
  lemma SkippedMultiple()
    ensures Detect(19, 21) == NoEvent
    ensures Run(19, [21]) == [NoEvent]
  {
  }

  /** `Knob(seesaw)` of knob_code.py with the readings passed to `update`. */
  class Knob {
    var lastPosition: int
    var buttonHeld: bool

    constructor ()
      ensures lastPosition == 0 && !buttonHeld
    {
      lastPosition := 0;
      buttonHeld := false;
    }

    /** `update()`: the watermark follows every change of position, the event
        is the one `Detect` gives, and the button flag follows the level. */
    method Update(encoderPosition: int, buttonLevel: bool) returns (event: Event, edge: Edge)
      modifies this
      ensures lastPosition == -encoderPosition
      ensures event == Detect(old(lastPosition), -encoderPosition)
      ensures buttonHeld == !buttonLevel && edge == ButtonEdge(old(buttonHeld), buttonLevel)
    {
      var position := -encoderPosition;
      event := NoEvent;
      if position > lastPosition {
        lastPosition := position;
        if position % RESOLUTION == 0 {
          event := Add;
        }
      } else if position < lastPosition {
        lastPosition := position;
        if position % RESOLUTION == 0 {
          event := Remove;
        }
      }
      edge := NoEdge;
      if !buttonLevel && !buttonHeld {
        buttonHeld := true;
        edge := Pressed;
      }
      if buttonLevel && buttonHeld {
        buttonHeld := false;
        edge := Released;
      }
    }
  }
}
