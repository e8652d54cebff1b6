/** Extraction of candidate boxes from the detector's output rows
    (sistema-contagem-pessoas/main.py, the loop inside `main`).

    The detector's output is a sequence of rows. Each row carries a class
    label, a confidence and the box corners, already scaled to frame pixels
    and truncated to integers. A row is kept when its confidence is strictly
    above 0.5; a kept row becomes an `[x, y, width, height]` box, and its
    confidence is appended to a parallel list. */
module Detections {

  /** Confidence a row must exceed (strictly) to be kept. */
  const ConfidenceThreshold: real := 0.5

  /** One row of the detector's output. `classId` is carried but never read. */
  datatype Row = Row(classId: int, confidence: real, startX: int, startY: int, endX: int, endY: int)

  /** A box in the `[x, y, width, height]` form the extraction stores. */
  datatype Box = Box(x: int, y: int, width: int, height: int)

  predicate Accepted(r: Row) {
    r.confidence > ConfidenceThreshold
  }

  /** The box a kept row becomes; the drawing code recovers the far corner
      as `(x + width, y + height)`, which is the row's own end corner. */
  function CornerBox(r: Row): (b: Box)
    ensures b.x == r.startX && b.y == r.startY
    ensures b.x + b.width == r.endX && b.y + b.height == r.endY
  {
    Box(r.startX, r.startY, r.endX - r.startX, r.endY - r.startY)
  }

  /** The positions, among the first `n` rows, of the rows the loop keeps,
      in row order. */
  function KeptIndices(rows: seq<Row>, n: nat): (idx: seq<nat>)
    requires n <= |rows|
    ensures |idx| <= n
    ensures forall k :: 0 <= k < |idx| ==> idx[k] < n && Accepted(rows[idx[k]])
    ensures forall a, b :: 0 <= a < b < |idx| ==> idx[a] < idx[b]
  {
    if n == 0 then []
    else if Accepted(rows[n - 1]) then KeptIndices(rows, n - 1) + [n - 1]
    else KeptIndices(rows, n - 1)
  }

  /** Every row among the first `n` is kept exactly when its confidence is
      strictly above the threshold: a row at exactly 0.5 is dropped. */
  lemma {:induction false} KeptIndicesExactly(rows: seq<Row>, n: nat, i: int)
    requires n <= |rows|
    ensures i in KeptIndices(rows, n) <==> 0 <= i < n && Accepted(rows[i])
  {
    if n > 0 {
      KeptIndicesExactly(rows, n - 1, i);
    }
  }

  /** When no row has confidence above the threshold, no row is kept. */
  lemma {:induction false} NoAcceptedRowKeepsNothing(rows: seq<Row>, n: nat)
    requires n <= |rows|
    requires forall i :: 0 <= i < |rows| ==> !Accepted(rows[i])
    ensures KeptIndices(rows, n) == []
  {
    if n > 0 {
      NoAcceptedRowKeepsNothing(rows, n - 1);
    }
  }

  /** The boxes the extraction produces, one per kept row, in row order. */
  function ExtractedBoxes(rows: seq<Row>): seq<Box> {
    var idx := KeptIndices(rows, |rows|);
    seq(|idx|, k requires 0 <= k < |idx| => CornerBox(rows[idx[k]]))
  }

  /** The confidences the extraction produces, parallel to `ExtractedBoxes`. */
  function ExtractedConfidences(rows: seq<Row>): seq<real> {
    var idx := KeptIndices(rows, |rows|);
    seq(|idx|, k requires 0 <= k < |idx| => rows[idx[k]].confidence)
  }

  /** The extraction loop: walk the rows in order and append a box and a
      confidence for every row whose confidence exceeds the threshold. */
  method Extract(rows: seq<Row>) returns (boxes: seq<Box>, confidences: seq<real>)
    ensures |boxes| == |confidences| == |KeptIndices(rows, |rows|)|
    ensures forall k :: 0 <= k < |boxes| ==>
      var i := KeptIndices(rows, |rows|)[k];
      boxes[k] == CornerBox(rows[i]) && confidences[k] == rows[i].confidence
    ensures boxes == ExtractedBoxes(rows) && confidences == ExtractedConfidences(rows)
  {
    boxes, confidences := [], [];
    var i := 0;
    while i < |rows|
      invariant 0 <= i <= |rows|
      invariant |boxes| == |confidences| == |KeptIndices(rows, i)|
      invariant forall k :: 0 <= k < |boxes| ==>
        var j := KeptIndices(rows, i)[k];
        boxes[k] == CornerBox(rows[j]) && confidences[k] == rows[j].confidence
    {
      var row := rows[i];
      if row.confidence > ConfidenceThreshold {
        boxes := boxes + [CornerBox(row)];
        confidences := confidences + [row.confidence];
      }
      i := i + 1;
    }
  }

  /** Every extracted box comes from a row with confidence above the
      threshold, and its far corner is that row's end corner. */
  lemma ExtractedBoxFromAcceptedRow(rows: seq<Row>, b: Box)
    requires b in ExtractedBoxes(rows)
    ensures exists i :: 0 <= i < |rows| && Accepted(rows[i]) && b == CornerBox(rows[i]) &&
                        b.x + b.width == rows[i].endX && b.y + b.height == rows[i].endY
  {
    var idx := KeptIndices(rows, |rows|);
    var k :| 0 <= k < |idx| && ExtractedBoxes(rows)[k] == b;
    assert Accepted(rows[idx[k]]);
  }

  /** The class label plays no part: rows that agree on everything but the
      label are kept at the same positions. */
  lemma {:induction false} ClassLabelIgnored(rows: seq<Row>, relabelled: seq<Row>, n: nat)
    requires n <= |rows| == |relabelled|
    requires forall i :: 0 <= i < |rows| ==> relabelled[i] == rows[i].(classId := relabelled[i].classId)
    ensures KeptIndices(rows, n) == KeptIndices(relabelled, n)
  {
    if n > 0 {
      ClassLabelIgnored(rows, relabelled, n - 1);
    }
  }
}
