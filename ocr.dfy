/**
 * Result assembly of `get_ocr_result`: the recognizer's observations,
 * with corners in normalized image space (origin bottom-left, y up), become
 * a transcript and one pixel-space box (origin top-left, y down) per
 * recognized line.
 */
module Ocr {
  import opened Wrappers
  import opened Joins

  /** A point; coordinates are modelled as reals. */
  datatype Point = Point(x: real, y: real)

  /** One text observation: its best candidate string, if any, and its four normalized corners. */
  datatype Observation = Observation(
    candidate: Option<string>,
    topLeft: Point, topRight: Point, bottomRight: Point, bottomLeft: Point)

  /** `OCRBoxItem`: a line of text and its axis-aligned box in pixels. */
  datatype BoxItem = BoxItem(text: string, x: real, y: real, w: real, h: real)

  /** `OCRResult` */
  datatype OcrResult = OcrResult(text: string, imageWidth: u32, imageHeight: u32, boxes: seq<BoxItem>)

  /** The one way `get_ocr_result` fails: the file cannot be read. */
  datatype IoError = ReadFailed

  /** A normalized corner in pixel space: x scaled by the width, y flipped and scaled by the height. */
  function ToPixels(p: Point, width: u32, height: u32): Point {
    Point(p.x * width as real, (1.0 - p.y) * height as real)
  }

  function Min(a: real, b: real): real { if b < a then b else a }
  function Max(a: real, b: real): real { if b > a then b else a }

  /** The fold of `f64::min` over four values (starting from +infinity, which the first value replaces). */
  function Min4(a: real, b: real, c: real, d: real): (m: real)
    ensures m <= a && m <= b && m <= c && m <= d
    ensures m == a || m == b || m == c || m == d
  {
    Min(Min(Min(a, b), c), d)
  }

  /** The fold of `f64::max` over four values (starting from -infinity). */
  function Max4(a: real, b: real, c: real, d: real): (m: real)
    ensures m >= a && m >= b && m >= c && m >= d
    ensures m == a || m == b || m == c || m == d
  {
    Max(Max(Max(a, b), c), d)
  }

  /** The pixel box enclosing the four transformed corners of `o`. */
  function BoxOf(text: string, o: Observation, width: u32, height: u32): BoxItem {
    var tl, tr, br, bl := ToPixels(o.topLeft, width, height), ToPixels(o.topRight, width, height),
                          ToPixels(o.bottomRight, width, height), ToPixels(o.bottomLeft, width, height);
    var minX, maxX := Min4(tl.x, tr.x, br.x, bl.x), Max4(tl.x, tr.x, br.x, bl.x);
    var minY, maxY := Min4(tl.y, tr.y, br.y, bl.y), Max4(tl.y, tr.y, br.y, bl.y);
    BoxItem(text, minX, minY, maxX - minX, maxY - minY)
  }

  /** What one observation adds to the transcript: its candidate and a newline, or nothing. */
  function LineOf(o: Observation): string {
    match o.candidate
    case Some(t) => t + "\n"
    case None => ""
  }

  /** The transcript of a sequence of observations. */
  function Transcript(obs: seq<Observation>): string {
    Joined(obs, LineOf)
  }

  /** What one observation adds to the boxes: one box, or nothing. */
  function BoxesOf(o: Observation, width: u32, height: u32): seq<BoxItem> {
    match o.candidate
    case Some(t) => [BoxOf(t, o, width, height)]
    case None => []
  }

  /** `BoxesOf` for an image of the given size. */
  function BoxesIn(width: u32, height: u32): Observation -> seq<BoxItem> {
    o => BoxesOf(o, width, height)
  }

  /** The boxes of a sequence of observations. */
  function Boxes(obs: seq<Observation>, width: u32, height: u32): seq<BoxItem> {
    Joined(obs, BoxesIn(width, height))
  }

  /** One observation if it has a top candidate, or nothing. */
  function Kept(o: Observation): seq<Observation> {
    if o.candidate.Some? then [o] else []
  }

  /** The observations that have a top candidate, in their order. */
  function Recognized(obs: seq<Observation>): seq<Observation> {
    Joined(obs, Kept)
  }

  /** The dimensions `image::open` reports, or 0 by 0 when decoding fails. */
  function Dimensions(decoded: Option<(u32, u32)>): (u32, u32) {
    match decoded
    case Some(d) => d
    case None => (0, 0)
  }

  /** The observations of a request whose `results()` may be absent. */
  function Observed(results: Option<seq<Observation>>): seq<Observation> {
    match results
    case Some(obs) => obs
    case None => []
  }

  /**
   * `get_ocr_result` with its collaborators as parameters: `readable` is the
   * outcome of reading the file, `decoded` what decoding its dimensions gave,
   * and `results` the recognizer's observations (the error of performing the
   * request is discarded, so a failed recognition is just no results).
   */
  method GetOcrResult(readable: bool, decoded: Option<(u32, u32)>, results: Option<seq<Observation>>)
    returns (r: Result<OcrResult, IoError>)
    ensures !readable <==> r == Err(ReadFailed)
    ensures r.Ok? ==>
      var (width, height) := Dimensions(decoded);
      r.value == OcrResult(Transcript(Observed(results)), width, height, Boxes(Observed(results), width, height))
  {
    if !readable {
      return Err(ReadFailed);
    }
    var width: u32 := 0;
    var height: u32 := 0;
    if decoded.Some? {
      width, height := decoded.value.0, decoded.value.1;
    }
    var text, items := "", [];
    if results.Some? {
      text, items := Assemble(results.value, width, height);
    }
    r := Ok(OcrResult(text, width, height, items));
  }

  /** The loop of `get_ocr_result` over the observations: the transcript and the boxes of `obs`. */
  method Assemble(obs: seq<Observation>, width: u32, height: u32) returns (text: string, items: seq<BoxItem>)
    ensures text == Transcript(obs) && items == Boxes(obs, width, height)
  {
    text, items := "", [];
    for i := 0 to |obs|
      invariant text == Transcript(obs[..i])
      invariant items == Boxes(obs[..i], width, height)
    {
      assert obs[..i + 1][..i] == obs[..i];
      var observation := obs[i];
      ghost var textBefore, itemsBefore := text, items;
      if observation.candidate.Some? {
        var line := observation.candidate.value;
        var entry := line + "\n";
        text := text + entry;
        items := items + [BoxOf(line, observation, width, height)];
        assert entry == LineOf(observation);
      }
      assert text == textBefore + LineOf(observation);
      assert items == itemsBefore + BoxesOf(observation, width, height);
    }
    assert obs[..|obs|] == obs;
  }

  /** Observations are taken in order: the transcript of two runs is the two transcripts one after the other. */
  lemma TranscriptAppend(a: seq<Observation>, b: seq<Observation>)
    ensures Transcript(a + b) == Transcript(a) + Transcript(b)
  {
    JoinedAppend(a, b, LineOf);
  }

  /** The boxes of two runs are the two lists of boxes one after the other. */
  lemma BoxesAppend(a: seq<Observation>, b: seq<Observation>, width: u32, height: u32)
    ensures Boxes(a + b, width, height) == Boxes(a, width, height) + Boxes(b, width, height)
  {
    JoinedAppend(a, b, BoxesIn(width, height));
  }

  /** An observation without a candidate adds neither text nor a box, wherever it stands. */
  lemma WithoutCandidateContributesNothing(a: seq<Observation>, o: Observation, b: seq<Observation>, width: u32, height: u32)
    requires o.candidate.None?
    ensures Transcript(a + [o] + b) == Transcript(a + b)
    ensures Boxes(a + [o] + b, width, height) == Boxes(a + b, width, height)
  {
    JoinedSkip(a, o, b, LineOf);
    assert BoxesIn(width, height)(o) == [];
    JoinedSkip(a, o, b, BoxesIn(width, height));
  }

  /**
   * Only observations with a top candidate are recognized; the transcript
   * is the recognized lines alone, each followed by "\n"; and there is
   * exactly one box per recognized line, in the same order, built from that
   * observation and carrying its text.
   */
  lemma {:induction false} OneBoxPerRecognizedLine(obs: seq<Observation>, width: u32, height: u32)
    ensures var r := Recognized(obs);
      (forall i :: 0 <= i < |r| ==> r[i].candidate.Some?) &&
      Transcript(obs) == Transcript(r) &&
      |Boxes(obs, width, height)| == |r| &&
      forall i :: 0 <= i < |r| ==> Boxes(obs, width, height)[i] == BoxOf(r[i].candidate.value, r[i], width, height)
    decreases |obs|
  {
    if obs != [] {
      var init, o := obs[..|obs| - 1], obs[|obs| - 1];
      OneBoxPerRecognizedLine(init, width, height);
      var head := Recognized(init);
      assert Recognized(obs) == head + Kept(o);
      assert Boxes(obs, width, height) == Boxes(init, width, height) + BoxesOf(o, width, height);
      if o.candidate.Some? {
        TranscriptAppend(head, [o]);
        JoinedSingle(o, LineOf);
      } else {
        assert Recognized(obs) == head;
      }
    }
  }

  /** Scaling a normalized coordinate keeps it within the scaled range. */
  lemma ScaleWithin(t: real, size: u32)
    requires 0.0 <= t <= 1.0
    ensures 0.0 <= t * size as real <= size as real
  {
  }

  /**
   * The box carries the line's text and spans exactly from the least to the
   * greatest coordinate of the four mapped corners, on each axis.
   */
  lemma BoxEnclosesCorners(text: string, o: Observation, width: u32, height: u32)
    ensures var b := BoxOf(text, o, width, height);
      b.text == text && b.w >= 0.0 && b.h >= 0.0
    ensures var b := BoxOf(text, o, width, height);
      var tl, tr, br, bl := ToPixels(o.topLeft, width, height), ToPixels(o.topRight, width, height),
                            ToPixels(o.bottomRight, width, height), ToPixels(o.bottomLeft, width, height);
      (b.x == tl.x || b.x == tr.x || b.x == br.x || b.x == bl.x) &&
      b.x <= tl.x && b.x <= tr.x && b.x <= br.x && b.x <= bl.x &&
      (b.x + b.w == tl.x || b.x + b.w == tr.x || b.x + b.w == br.x || b.x + b.w == bl.x) &&
      b.x + b.w >= tl.x && b.x + b.w >= tr.x && b.x + b.w >= br.x && b.x + b.w >= bl.x &&
      (b.y == tl.y || b.y == tr.y || b.y == br.y || b.y == bl.y) &&
      b.y <= tl.y && b.y <= tr.y && b.y <= br.y && b.y <= bl.y &&
      (b.y + b.h == tl.y || b.y + b.h == tr.y || b.y + b.h == br.y || b.y + b.h == bl.y) &&
      b.y + b.h >= tl.y && b.y + b.h >= tr.y && b.y + b.h >= br.y && b.y + b.h >= bl.y
  {
  }

  predicate InUnitSquare(p: Point) {
    0.0 <= p.x <= 1.0 && 0.0 <= p.y <= 1.0
  }

  predicate CornersInUnitSquare(o: Observation) {
    InUnitSquare(o.topLeft) && InUnitSquare(o.topRight) && InUnitSquare(o.bottomRight) && InUnitSquare(o.bottomLeft)
  }

  lemma ColumnWithin(p: Point, width: u32, height: u32)
    requires 0.0 <= p.x <= 1.0
    ensures 0.0 <= ToPixels(p, width, height).x <= width as real
  {
    ScaleWithin(p.x, width);
  }

  lemma RowWithin(p: Point, width: u32, height: u32)
    requires 0.0 <= p.y <= 1.0
    ensures 0.0 <= ToPixels(p, width, height).y <= height as real
  {
    ScaleWithin(1.0 - p.y, height);
  }

  lemma PixelWithin(p: Point, width: u32, height: u32)
    requires InUnitSquare(p)
    ensures 0.0 <= ToPixels(p, width, height).x <= width as real
    ensures 0.0 <= ToPixels(p, width, height).y <= height as real
  {
    ColumnWithin(p, width, height);
    RowWithin(p, width, height);
  }

  /** Corners inside the unit square give a box inside the image. */
  lemma BoxWithinImage(text: string, o: Observation, width: u32, height: u32)
    requires CornersInUnitSquare(o)
    ensures var b := BoxOf(text, o, width, height);
      0.0 <= b.x && 0.0 <= b.y && b.x + b.w <= width as real && b.y + b.h <= height as real
  {
    PixelWithin(o.topLeft, width, height);
    PixelWithin(o.topRight, width, height);
    PixelWithin(o.bottomRight, width, height);
    PixelWithin(o.bottomLeft, width, height);
    BoxEnclosesCorners(text, o, width, height);
  }

  /** Every box of a result lies inside the image when every observation's corners lie in the unit square. */
  lemma AllBoxesWithinImage(obs: seq<Observation>, width: u32, height: u32)
    requires forall i :: 0 <= i < |obs| ==> CornersInUnitSquare(obs[i])
    ensures forall b :: b in Boxes(obs, width, height) ==>
      0.0 <= b.x && 0.0 <= b.y && b.x + b.w <= width as real && b.y + b.h <= height as real
  {
    OneBoxPerRecognizedLine(obs, width, height);
    var r := Recognized(obs);
    forall b | b in Boxes(obs, width, height)
      ensures 0.0 <= b.x && 0.0 <= b.y && b.x + b.w <= width as real && b.y + b.h <= height as real
    {
      var i :| 0 <= i < |r| && b == BoxOf(r[i].candidate.value, r[i], width, height);
      RecognizedFrom(obs, i);
      BoxWithinImage(r[i].candidate.value, r[i], width, height);
    }
  }

  /** Every recognized observation is one of the observations. */
  lemma {:induction false} RecognizedFrom(obs: seq<Observation>, i: nat)
    requires i < |Recognized(obs)|
    ensures Recognized(obs)[i] in obs
    decreases |obs|
  {
    var init := obs[..|obs| - 1];
    if i < |Recognized(init)| {
      RecognizedFrom(init, i);
    }
  }

  /** The unit square, corners given in the recognizer's order, is the whole image: the y axis is flipped. */
  lemma UnitSquareIsWholeImage(text: string, width: u32, height: u32)
    ensures var o := Observation(Some(text), Point(0.0, 1.0), Point(1.0, 1.0), Point(1.0, 0.0), Point(0.0, 0.0));
      BoxOf(text, o, width, height) == BoxItem(text, 0.0, 0.0, width as real, height as real)
  {
  }

  /** A 100 by 200 image: the unit square is the box {x: 0, y: 0, w: 100, h: 200}. */
  lemma UnitSquareExample()
    ensures var o := Observation(Some("line"), Point(0.0, 0.0), Point(1.0, 0.0), Point(1.0, 1.0), Point(0.0, 1.0));
      BoxOf("line", o, 100, 200) == BoxItem("line", 0.0, 0.0, 100.0, 200.0)
  {
  }

  /** When the dimensions could not be decoded, every box collapses to the origin and keeps its text. */
  lemma ZeroDimensionsCollapse(obs: seq<Observation>)
    ensures var r := Recognized(obs);
      (forall i :: 0 <= i < |r| ==> r[i].candidate.Some?) &&
      |Boxes(obs, 0, 0)| == |r| &&
      forall i :: 0 <= i < |r| ==> Boxes(obs, 0, 0)[i] == BoxItem(r[i].candidate.value, 0.0, 0.0, 0.0, 0.0)
  {
    OneBoxPerRecognizedLine(obs, 0, 0);
  }
}
