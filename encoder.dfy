/** The rotary-encoder knob of code.py. Each `update` negates the raw encoder
    count and compares it with two watermarks: `last_position`, the position
    seen by the previous update, and `last_change`, the position at which the
    knob last changed the grid. Turning on by more than `RESOLUTION` past
    `last_change` adds one pixel of the knob's colour to the shared matrix;
    turning back by more than `RESOLUTION` removes one. */
module Encoder {
  import opened Pixels
  import opened GridState
  import opened ColorGrid
  import opened KnobEvents

  /** The hysteresis threshold: an event needs a turn of more than this many
      steps past the position of the last change. */
  const RESOLUTION: int := 20

  datatype Marks = Marks(lastPosition: int, lastChange: int)

  datatype Decoded = Decoded(marks: Marks, event: Event)

  /** The position part of `update` for an already negated `position`. */
  function Decode(w: Marks, position: int): (d: Decoded)
    ensures position > w.lastPosition ==>
              && d.marks.lastPosition == position
              && (d.event == Add <==> position - w.lastChange > RESOLUTION)
              && d.event != Remove
              && d.marks.lastChange == if d.event == Add then position else w.lastChange
    ensures position < w.lastPosition ==>
              && d.marks.lastPosition == position
              && (d.event == Remove <==> w.lastChange - position > RESOLUTION)
              && d.event != Add
              && d.marks.lastChange == if d.event == Remove then position else w.lastChange
    ensures position == w.lastPosition ==> d == Decoded(w, NoEvent)
  {
    if position > w.lastPosition then
      if position - w.lastChange > RESOLUTION then Decoded(Marks(position, position), Add)
      else Decoded(Marks(position, w.lastChange), NoEvent)
    else if position < w.lastPosition then
      if w.lastChange - position > RESOLUTION then Decoded(Marks(position, position), Remove)
      else Decoded(Marks(position, w.lastChange), NoEvent)
    else
      Decoded(w, NoEvent)
  }

  /** The two watermarks never drift more than `RESOLUTION` apart. */
  predicate Close(w: Marks) {
    -RESOLUTION <= w.lastPosition - w.lastChange <= RESOLUTION
  }

  /** `Decode` keeps the watermarks close, and an event brings them together. */
  lemma DecodeKeepsClose(w: Marks, position: int)
    requires Close(w)
    ensures Close(Decode(w, position).marks)
    ensures Decode(w, position).event != NoEvent ==> Decode(w, position).marks == Marks(position, position)
  {
  }

  function Abs(x: int): nat {
    if x < 0 then -x else x
  }

  /** The events of a sequence of updates at the given (negated) positions. */
  function Run(w: Marks, positions: seq<int>): seq<Event>
    decreases |positions|
  {
    if positions == [] then []
    else [Decode(w, positions[0]).event] + Run(Decode(w, positions[0]).marks, positions[1..])
  }

  /** The watermarks after those updates. */
  function Final(w: Marks, positions: seq<int>): Marks
    decreases |positions|
  {
    if positions == [] then w else Final(Decode(w, positions[0]).marks, positions[1..])
  }

  /** How far the knob turns, in total, going through `positions` from `from`. */
  function Travel(from: int, positions: seq<int>): nat
    decreases |positions|
  {
    if positions == [] then 0 else Abs(positions[0] - from) + Travel(positions[0], positions[1..])
  }

  /** How many of the events change the grid. */
  function Fired(events: seq<Event>): nat
    decreases |events|
  {
    if events == [] then 0 else (if events[0] == NoEvent then 0 else 1) + Fired(events[1..])
  }

  /** Every grid change costs more than `RESOLUTION` steps of turning: from
      close watermarks, `k` events need a travel of at least
      `k * (RESOLUTION + 1) - RESOLUTION`. */
  lemma {:induction false} EventsNeedRotation(w: Marks, positions: seq<int>)
    requires Close(w)
    ensures Fired(Run(w, positions)) * (RESOLUTION + 1) + Abs(Final(w, positions).lastPosition - Final(w, positions).lastChange)
            <= Travel(w.lastPosition, positions) + Abs(w.lastPosition - w.lastChange)
    decreases |positions|
  {
    if positions != [] {
      var p := positions[0];
      var d := Decode(w, p);
      DecodeKeepsClose(w, p);
      EventsNeedRotation(d.marks, positions[1..]);
      assert Run(w, positions) == [d.event] + Run(d.marks, positions[1..]);
      assert ([d.event] + Run(d.marks, positions[1..]))[1..] == Run(d.marks, positions[1..]);
    }
  }

  /** No turn of at most `RESOLUTION` steps, in either direction and in any
      number of updates, changes the grid from a knob that has just fired. */
  lemma {:induction false} NoEventWithinResolution(p: int, positions: seq<int>)
    requires forall i :: 0 <= i < |positions| ==> -RESOLUTION <= positions[i] - p <= RESOLUTION
    ensures Fired(Run(Marks(p, p), positions)) == 0
    decreases |positions|
  {
    if positions != [] {
      var d := Decode(Marks(p, p), positions[0]);
      assert d.event == NoEvent && d.marks == Marks(positions[0], p);
      StaysQuiet(positions[0], p, positions[1..]);
      assert Run(Marks(p, p), positions) == [NoEvent] + Run(d.marks, positions[1..]);
    }
  }

  lemma {:induction false} StaysQuiet(q: int, p: int, positions: seq<int>)
    requires -RESOLUTION <= q - p <= RESOLUTION
    requires forall i :: 0 <= i < |positions| ==> -RESOLUTION <= positions[i] - p <= RESOLUTION
    ensures Fired(Run(Marks(q, p), positions)) == 0
    decreases |positions|
  {
    if positions != [] {
      var d := Decode(Marks(q, p), positions[0]);
      assert d.event == NoEvent && d.marks == Marks(positions[0], p);
      StaysQuiet(positions[0], p, positions[1..]);
      assert Run(Marks(q, p), positions) == [NoEvent] + Run(d.marks, positions[1..]);
    }
  }

  /** Turning forward one step at a time fires every `RESOLUTION + 1` steps
      (strictly more than `RESOLUTION` past the last change), and never removes. */
  lemma {:induction false} RampFiresEveryResolutionPlusOne(c: int, a: int, b: int)
    requires 0 <= a - c <= RESOLUTION && a <= b
    ensures Fired(Run(Marks(a, c), Ramp(a, b))) == (b - c) / (RESOLUTION + 1)
    ensures Final(Marks(a, c), Ramp(a, b)).lastChange == c + (RESOLUTION + 1) * ((b - c) / (RESOLUTION + 1))
    decreases b - a
  {
    if a < b {
      var d := Decode(Marks(a, c), a + 1);
      assert Ramp(a, b) == [a + 1] + Ramp(a + 1, b);
      assert (Ramp(a, b))[1..] == Ramp(a + 1, b);
      if a + 1 - c > RESOLUTION {
        assert d == Decoded(Marks(a + 1, a + 1), Add);
        RampFiresEveryResolutionPlusOne(a + 1, a + 1, b);
        assert (b - c) / (RESOLUTION + 1) == (b - (a + 1)) / (RESOLUTION + 1) + 1;
      } else {
        assert d == Decoded(Marks(a + 1, c), NoEvent);
        RampFiresEveryResolutionPlusOne(c, a + 1, b);
      }
    }
  }

  /** A difference of exactly `RESOLUTION` fires nothing; one more step fires. */
  lemma StrictThreshold()
    ensures Decode(Marks(0, 0), 20) == Decoded(Marks(20, 0), NoEvent)
    ensures Decode(Marks(0, 0), 21) == Decoded(Marks(21, 21), Add)
    ensures Decode(Marks(0, 0), -20) == Decoded(Marks(-20, 0), NoEvent)
    ensures Decode(Marks(0, 0), -21) == Decoded(Marks(-21, -21), Remove)
  {
  }

  /** From rest, the positions 5, 15, 21 give one add, at 21. */
  lemma ForwardExample()
    ensures Run(Marks(0, 0), [5, 15, 21]) == [NoEvent, NoEvent, Add]
    ensures Final(Marks(0, 0), [5, 15, 21]) == Marks(21, 21)
  {
  }

  /** Turning just past the threshold and straight back adds one pixel and
      removes it again, and returns to the starting watermarks. */
  lemma Reversal(p: int)
    ensures Run(Marks(p, p), [p + RESOLUTION + 1, p]) == [Add, Remove]
    ensures Final(Marks(p, p), [p + RESOLUTION + 1, p]) == Marks(p, p)
  {
    var positions := [p + RESOLUTION + 1, p];
    var up := Marks(p + RESOLUTION + 1, p + RESOLUTION + 1);
    assert Decode(Marks(p, p), p + RESOLUTION + 1) == Decoded(up, Add);
    assert Decode(up, p) == Decoded(Marks(p, p), Remove);
    assert positions[1..] == [p];
    assert Run(up, [p]) == [Remove] + Run(Marks(p, p), []);
    assert Final(up, [p]) == Final(Marks(p, p), []);
  }

  /** `Knob(seesaw, matrix, color)` of code.py with the encoder and button
      readings passed to `update` instead of read from the hardware. */
  class Knob {
    const matrix: Mtx
    const color: Color
    var lastPosition: int
    var lastChange: int
    var buttonHeld: bool

    ghost predicate Valid()
      reads this, matrix
    {
      matrix.Valid() && Close(Marks(lastPosition, lastChange))
    }

    constructor (matrix: Mtx, color: Color)
      requires matrix.Valid()
      ensures Valid()
      ensures this.matrix == matrix && this.color == color
      ensures lastPosition == 0 && lastChange == 0 && !buttonHeld
    {
      this.matrix := matrix;
      this.color := color;
      lastPosition := 0;
      lastChange := 0;
      buttonHeld := false;
    }

    /** `update()`: `encoderPosition` is the raw encoder count and
        `buttonLevel` the level of the button input. The event is the one the
        watermarks decide, and it is carried out on the matrix as
        `add_pxls(1, color)` or `remove_pxls(1, color)`; `moved` holds the
        cell, if any, that call picked. */
    method Update(encoderPosition: int, buttonLevel: bool) returns (event: Event, edge: Edge, ghost moved: seq<Cell>)
      requires Valid()
      modifies this, matrix
      ensures Valid()
      ensures var d := Decode(old(Marks(lastPosition, lastChange)), -encoderPosition);
              Marks(lastPosition, lastChange) == d.marks && event == d.event
      ensures buttonHeld == !buttonLevel && edge == ButtonEdge(old(buttonHeld), buttonLevel)
      ensures |moved| <= 1
      ensures event == Add ==> forall c <- moved :: c in old(matrix.locations.off)
      ensures event == Remove ==> forall c <- moved :: c in old(matrix.locations.Get(color))
      ensures event == NoEvent ==> moved == [] && matrix.grid == old(matrix.grid) && matrix.locations == old(matrix.locations)
      ensures forall k: Color :: k != Off && k != color ==> matrix.locations.Get(k) == old(matrix.locations.Get(k))
      ensures forall c: Cell :: InBounds(c, matrix.height, matrix.width) ==>
                At(matrix.grid, c) == if c in moved then Value(if event == Add then color else Off) else old(At(matrix.grid, c))
      ensures color == Off ==> multiset(matrix.locations.off) == multiset(old(matrix.locations.off)) && matrix.grid == old(matrix.grid)
      ensures event == Add && color != Off ==>
                && |moved| == Min(1, old(|matrix.locations.off|))
                && matrix.locations.Get(color) == old(matrix.locations.Get(color)) + moved
                && multiset(matrix.locations.off) + multiset(moved) == multiset(old(matrix.locations.off))
                && |matrix.locations.Get(color)| == old(|matrix.locations.Get(color)|) + Min(1, old(|matrix.locations.off|))
                && |matrix.locations.off| == old(|matrix.locations.off|) - Min(1, old(|matrix.locations.off|))
      ensures event == Remove && color != Off ==>
                && |moved| == Min(1, old(|matrix.locations.Get(color)|))
                && matrix.locations.off == old(matrix.locations.off) + moved
                && multiset(matrix.locations.Get(color)) + multiset(moved) == multiset(old(matrix.locations.Get(color)))
                && |matrix.locations.off| == old(|matrix.locations.off|) + Min(1, old(|matrix.locations.Get(color)|))
                && |matrix.locations.Get(color)| == old(|matrix.locations.Get(color)|) - Min(1, old(|matrix.locations.Get(color)|))
    {
      var position := -encoderPosition;
      ghost var before := Marks(lastPosition, lastChange);
      DecodeKeepsClose(before, position);
      event := NoEvent;
      moved := [];
      if position > lastPosition {
        if position - lastChange > RESOLUTION {
          event := Add;
          moved := matrix.AddPixels(1, color);
          lastChange := position;
        }
        lastPosition := position;
      } else if position < lastPosition {
        if lastChange - position > RESOLUTION {
          event := Remove;
          moved := matrix.RemovePixels(1, color);
          lastChange := position;
        }
        lastPosition := position;
      }
      edge := NoEdge;
      if !buttonLevel && !buttonHeld {
        buttonHeld := true;
        edge := Pressed;
      }
      if buttonLevel && buttonHeld {
        buttonHeld := false;
        edge := Released;
      }
    }
  }
}
