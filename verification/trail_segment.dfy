/** One line of the segment trail: its endpoints on the canvas, its age in
    ticks, and the appearance (opacity, stroke thickness, stroke colour)
    last written to its line. */
module TrailSegments {
  import opened Basics

  /** Identity of a `Line` element placed on the canvas. */
  type LineId = nat

  /** An opaque RGB colour, one byte per channel. */
  datatype Rgb = Rgb(r: int, g: int, b: int)

  /** `Colors.Yellow`. */
  const Yellow: Rgb := Rgb(255, 255, 0)

  /** Stroke thickness of a freshly created segment. */
  const DefaultThickness: real := 10.0

  datatype Segment = Segment(
    line: LineId,
    start: Point,
    end: Point,
    age: nat,
    opacity: real,
    thickness: real,
    stroke: Rgb)

  /** The segment constructor: a fully opaque yellow line of default
      thickness from `start` to `end`, aged zero ticks. */
  function NewSegment(line: LineId, start: Point, end: Point): (s: Segment)
    ensures s.line == line
    ensures s.start == start && s.end == end
    ensures s.age == 0
    ensures s.opacity == 1.0
    ensures s.thickness == DefaultThickness
    ensures s.stroke == Yellow
  {
    Segment(line, start, end, 0, 1.0, DefaultThickness, Yellow)
  }
}
