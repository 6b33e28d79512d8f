/** What one `Knob.update` call reports, the active-low button edge
    detection that code.py and knob_code.py share, and the steady forward turn
    that the lemmas about both knobs use. */
module KnobEvents {

  /** The grid request of one update: none, one cell added, one cell removed. */
  datatype Event = NoEvent | Add | Remove

  /** The button change one update notices ("Button pressed" / "Button released"). */
  datatype Edge = NoEdge | Pressed | Released

  /** The edge an update reports from the stored `button_held` flag and the
      sampled level of the button input, which reads false while the button is
      pressed. */
  function ButtonEdge(held: bool, level: bool): (e: Edge)
    ensures e == Pressed <==> !held && !level
    ensures e == Released <==> held && level
  {
    if !level && !held then Pressed
    else if level && held then Released
    else NoEdge
  }

  /** The encoder positions `from + 1, ..., to`: turning forward one step at a
      time, one update per step. */
  function Ramp(from: int, to: int): seq<int>
    decreases to - from
  {
    if to <= from then [] else [from + 1] + Ramp(from + 1, to)
  }

  /** The edges reported for a sequence of sampled levels, from `held`. */
  function Edges(held: bool, levels: seq<bool>): seq<Edge>
    decreases |levels|
  {
    if levels == [] then [] else [ButtonEdge(held, levels[0])] + Edges(!levels[0], levels[1..])
  }

  /** The edges that are not `NoEdge`, in order. */
  function Reported(edges: seq<Edge>): seq<Edge>
    decreases |edges|
  {
    if edges == [] then []
    else if edges[0] == NoEdge then Reported(edges[1..])
    else [edges[0]] + Reported(edges[1..])
  }

  /** Reported edges alternate between press and release. */
  predicate Alternating(edges: seq<Edge>, next: Edge) {
    forall i :: 0 <= i < |edges| ==> edges[i] == if i % 2 == 0 then next else Other(next)
  }

  function Other(e: Edge): Edge {
    if e == Pressed then Released else Pressed
  }

  /** Whatever the levels, the reported edges alternate, and the first one is
      a press exactly when the button was not held. */
  lemma {:induction false} EdgesAlternate(held: bool, levels: seq<bool>)
    ensures Alternating(Reported(Edges(held, levels)), if held then Released else Pressed)
    decreases |levels|
  {
    if levels != [] {
      var held' := !levels[0];
      var e := ButtonEdge(held, levels[0]);
      var rest := Edges(held', levels[1..]);
      EdgesAlternate(held', levels[1..]);
      assert Edges(held, levels) == [e] + rest;
      assert ([e] + rest)[1..] == rest;
      if e == NoEdge {
        assert held' == held;
      } else {
        var r := Reported(rest);
        assert Reported([e] + rest) == [e] + r;
        forall i | 0 <= i < |[e] + r|
          ensures ([e] + r)[i] == if i % 2 == 0 then e else Other(e)
        {
          if i > 0 {
            assert ([e] + r)[i] == r[i - 1];
          }
        }
      }
    }
  }
}
