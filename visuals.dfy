/**
 * Looking up a visual type of a screen by its id (`draw_find_visual`,
 * `draw_default_visual`): the screen lists its allowed depths, each depth
 * lists its visual types.
 */
module Visuals {
  import opened Wrappers
  import opened Words

  type VisualId = Word

  datatype Depth = Depth(depth: Byte, visuals: seq<VisualId>)

  /** `allowedDepths` is None when the screen's depth list is absent. */
  datatype Screen = Screen(allowedDepths: Option<seq<Depth>>, rootVisual: VisualId)

  /** Where a visual sits: the index of its depth and its index within that depth. */
  datatype Position = Position(depthIndex: nat, visualIndex: nat)

  ghost predicate At(depths: seq<Depth>, p: Position, id: VisualId) {
    p.depthIndex < |depths| && p.visualIndex < |depths[p.depthIndex].visuals|
    && depths[p.depthIndex].visuals[p.visualIndex] == id
  }

  /** `p` comes before `q` in depth order, then visual order. */
  predicate Before(p: Position, q: Position) {
    p.depthIndex < q.depthIndex || (p.depthIndex == q.depthIndex && p.visualIndex < q.visualIndex)
  }

  ghost predicate Listed(depths: seq<Depth>, id: VisualId) {
    exists d, v :: 0 <= d < |depths| && 0 <= v < |depths[d].visuals| && depths[d].visuals[v] == id
  }

  /**
   * The first position, in depth order then visual order, holding a visual
   * whose id is `id`; None when there is none or the depth list is absent.
   */
  method FindVisual(s: Screen, id: VisualId) returns (found: Option<Position>)
    ensures found.None? <==> s.allowedDepths.None? || !Listed(s.allowedDepths.value, id)
    ensures found.Some? ==>
              && s.allowedDepths.Some?
              && At(s.allowedDepths.value, found.value, id)
              && forall p: Position :: Before(p, found.value) && p.depthIndex < |s.allowedDepths.value|
                   && p.visualIndex < |s.allowedDepths.value[p.depthIndex].visuals|
                   ==> s.allowedDepths.value[p.depthIndex].visuals[p.visualIndex] != id
  {
    if s.allowedDepths.None? {
      return None;
    }
    var depths := s.allowedDepths.value;
    var d := 0;
    while d < |depths|
      invariant d <= |depths|
      invariant forall d', v' :: 0 <= d' < d && 0 <= v' < |depths[d'].visuals| ==> depths[d'].visuals[v'] != id
    {
      var visuals := depths[d].visuals;
      var v := 0;
      while v < |visuals|
        invariant v <= |visuals|
        invariant forall v' :: 0 <= v' < v ==> visuals[v'] != id
      {
        if visuals[v] == id {
          return Some(Position(d, v));
        }
        v := v + 1;
      }
      d := d + 1;
    }
    return None;
  }

  /** `draw_default_visual`: the visual type of the screen's root visual. */
  method DefaultVisual(s: Screen) returns (found: Option<Position>)
    ensures found.None? <==> s.allowedDepths.None? || !Listed(s.allowedDepths.value, s.rootVisual)
    ensures found.Some? ==>
              && s.allowedDepths.Some?
              && At(s.allowedDepths.value, found.value, s.rootVisual)
              && forall p: Position :: Before(p, found.value) && p.depthIndex < |s.allowedDepths.value|
                   && p.visualIndex < |s.allowedDepths.value[p.depthIndex].visuals|
                   ==> s.allowedDepths.value[p.depthIndex].visuals[p.visualIndex] != s.rootVisual
  {
    found := FindVisual(s, s.rootVisual);
  }
}
