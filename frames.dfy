/** The draw instructions that the scheduler puts into frames.

    In the source every instruction is a Python list whose first element is a
    one-letter tag: "p" (point), "l" (line), "m" (municipality count),
    "t" (milestone text) and "c" (country state).  Here the tag is the
    constructor of a datatype.  Coordinates are kept as `real`; the
    floating-point marker size and transparency of a point are replaced by the
    number of decay steps already taken. */
module Frames {

  /** A coordinate pair (longitude, latitude). */
  datatype Loc = Loc(lon: real, lat: real)

  /** One sample point of a drawn curve.  The source keeps the x and the y
      samples in two parallel lists that are always sliced at the same
      indices; here they are zipped into one sequence. */
  datatype Sample = Sample(x: real, y: real)

  datatype Colour = Red | Purple | Orange | Blue

  datatype Instr =
    | Point(loc: Loc, step: nat, colour: Colour)          // "p": a decaying marker, `step` decrements taken
    | Line(path: seq<Sample>)                             // "l": a whole or partial transfer curve
    | Muni(name: string, count: int)                      // "m": running case count of a municipality
    | Text(text: string)                                  // "t": a milestone annotation
    | Country(country: string, region: string, colour: Colour)  // "c": a country or region state

  /** Tags "m" and "t": an instruction that carries no point or line activity. */
  predicate IsMuniOrText(ins: Instr)
  {
    ins.Muni? || ins.Text?
  }

  /** The test `frame[-1][0] == "l"` of the world renderer's grouping
      (the source raises on an empty frame; callers exclude that case). */
  predicate EndsWithLine(frame: seq<Instr>)
    requires frame != []
  {
    frame[|frame| - 1].Line?
  }
}
