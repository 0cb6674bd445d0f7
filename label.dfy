/** A non-interactive text label (src/label.rs). */
module Labels {
  import opened Theme
  import opened Geometry

  /** A label: colour, font size, geometry and text. */
  datatype Label = Label(
    colour: Colour,
    fontSize: int,
    dimensions: Dimensions,
    position: Point,
    text: string)

  /** A new label sized to its measured text plus a 10-pixel margin, 50 pixels high, drawn Active. */
  function New(text: string, fontSize: int, position: Point, measure: Measure): (l: Label)
    ensures l.dimensions == (measure(text, fontSize) + 10, 50)
    ensures l.colour == StateGetColour(Active)
    ensures l.text == text && l.fontSize == fontSize && l.position == position
  {
    Label(StateGetColour(Active), fontSize, (measure(text, fontSize) + 10, 50), position, text)
  }

  /** A new label with exactly the given dimensions, drawn Active. */
  function NewWithDimensions(text: string, fontSize: int, position: Point, dimensions: Dimensions): (l: Label)
    ensures l.dimensions == dimensions && l.colour == StateGetColour(Active)
    ensures l.text == text && l.fontSize == fontSize && l.position == position
  {
    Label(StateGetColour(Active), fontSize, dimensions, position, text)
  }

  /** Replaces the dimensions; nothing else changes. */
  function Resize(l: Label, dimensions: Dimensions): (r: Label)
    ensures r.dimensions == dimensions
    ensures r.colour == l.colour && r.fontSize == l.fontSize && r.position == l.position && r.text == l.text
  {
    l.(dimensions := dimensions)
  }

  /** Resizes the width to the measured width of `text` (no margin), keeping the height. The stored
      text is NOT replaced. */
  function SetText(l: Label, text: string, measure: Measure): (r: Label)
    ensures r == l.(dimensions := (measure(text, l.fontSize), l.dimensions.1))
  {
    Resize(l, (measure(text, l.fontSize), l.dimensions.1))
  }

  /** A label never reports being hovered and never changes colour. */
  function IsHovered(l: Label, mouse: Point): (r: (Label, bool))
    ensures r.0 == l && !r.1
  {
    (l, false)
  }

  /** Clicking a label does nothing. */
  function IsClicked(l: Label, mouse: Point, clicked: bool): (r: Label)
    ensures r == l
  {
    l
  }

  /** The state part of drawing a label: its (inert) hover test. */
  function Draw(l: Label, mouse: Point): (r: Label)
    ensures r == l
  {
    IsHovered(l, mouse).0
  }
}
