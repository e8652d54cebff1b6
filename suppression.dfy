/** The wrapper around non-maximum suppression
    (`aplicar_supressao_nao_maxima` in sistema-contagem-pessoas/main.py).

    The suppression itself is a library call whose result is a list of
    positions into the candidate boxes. It is not modelled: the positions it
    returned for a frame are an input here, and the library's guarantee that
    each one is a valid position is the one precondition. What the wrapper
    does is map those positions back to boxes. */
module Suppression {
  import opened Detections

  /** Positions returned by the suppression call are positions of `boxes`. */
  predicate ValidIndices(boxes: seq<Box>, indices: seq<nat>) {
    forall k :: 0 <= k < |indices| ==> indices[k] < |boxes|
  }

  /** The boxes that survive suppression: one per returned position, in the
      order the positions were returned; none when no position came back. */
  function SuppressNonMaximum(boxes: seq<Box>, indices: seq<nat>): (kept: seq<Box>)
    requires ValidIndices(boxes, indices)
    ensures |indices| == 0 ==> kept == []
    ensures |kept| == |indices|
    ensures forall k :: 0 <= k < |kept| ==> kept[k] == boxes[indices[k]]
  {
    if |indices| > 0 then seq(|indices|, k requires 0 <= k < |indices| => boxes[indices[k]]) else []
  }

  /** Suppression adds no box: every surviving box is one of the candidates. */
  lemma SurvivorsAreCandidates(boxes: seq<Box>, indices: seq<nat>, b: Box)
    requires ValidIndices(boxes, indices)
    requires b in SuppressNonMaximum(boxes, indices)
    ensures b in boxes
  {
    var kept := SuppressNonMaximum(boxes, indices);
    var k :| 0 <= k < |kept| && kept[k] == b;
    assert boxes[indices[k]] == b;
  }

  /** With no candidate box, the library can return no position, so no box
      survives. */
  lemma NoCandidatesNoSurvivors(boxes: seq<Box>, indices: seq<nat>)
    requires ValidIndices(boxes, indices)
    ensures boxes == [] ==> indices == [] && SuppressNonMaximum(boxes, indices) == []
  {
    if indices != [] {
      assert indices[0] < |boxes|;
    }
  }

  /** Every box left after extraction and suppression comes from a detector
      row whose confidence is above the threshold, and drawing it from
      `(x, y)` to `(x + width, y + height)` reproduces that row's corners. */
  lemma {:induction false} SurvivorFromAcceptedRow(rows: seq<Row>, indices: seq<nat>, b: Box)
    requires ValidIndices(ExtractedBoxes(rows), indices)
    requires b in SuppressNonMaximum(ExtractedBoxes(rows), indices)
    ensures exists i :: 0 <= i < |rows| && Accepted(rows[i]) &&
                        b.x == rows[i].startX && b.y == rows[i].startY &&
                        b.x + b.width == rows[i].endX && b.y + b.height == rows[i].endY
  {
    SurvivorsAreCandidates(ExtractedBoxes(rows), indices, b);
    ExtractedBoxFromAcceptedRow(rows, b);
  }
}
