/**
  Recognised words and their page-normalised bounding boxes, as the OCR
  predictor hands them to the resolver. A word's geometry
  `((xmin, ymin), (xmax, ymax))` is flattened into the four fields of `Box`;
  the origin is the top-left corner and y grows downward.
 */
module Geometry {

  datatype Box = Box(xMin: real, yMin: real, xMax: real, yMax: real)

  datatype Word = Word(text: string, box: Box)

  /** Largest vertical-centre distance (2% of page height) that still counts as "the same line". */
  const LineTolerance: real := 0.02

  function Abs(x: real): real {
    if x < 0.0 then -x else x
  }

  /** `(ymin + ymax) / 2`. */
  function VCenter(b: Box): real {
    (b.yMin + b.yMax) / 2.0
  }

  /** `b` is on the same horizontal line as `anchor`. */
  predicate SameLine(b: Box, anchor: Box) {
    Abs(VCenter(b) - VCenter(anchor)) < LineTolerance
  }

  /** `b` starts strictly to the right of where `anchor` ends. */
  predicate RightOf(b: Box, anchor: Box) {
    b.xMin > anchor.xMax
  }

  /** A box whose corners are in the documented order. */
  predicate WellFormed(b: Box) {
    b.xMin <= b.xMax && b.yMin <= b.yMax
  }

  function Texts(ws: seq<Word>): (r: seq<string>)
    ensures |r| == |ws|
    ensures forall i :: 0 <= i < |ws| ==> r[i] == ws[i].text
  {
    if ws == [] then [] else [ws[0].text] + Texts(ws[1..])
  }
}
