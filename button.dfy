/** A clickable text button (src/button.rs). */
module Buttons {
  import opened Theme
  import opened Geometry

  /** A button: its label, the action token it emits when clicked, and its geometry and colour. */
  datatype Button = Button(
    text: string,
    action: string,
    fontSize: int,
    position: Point,
    dimensions: Dimensions,
    colour: Colour)

  /** A new button sized to its measured text plus a 10-pixel margin, 50 pixels high, at rest. */
  function New(text: string, action: string, fontSize: int, position: Point, measure: Measure): (b: Button)
    ensures b.dimensions == (measure(text, fontSize) + 10, 50)
    ensures b.colour == StateGetColour(Default)
    ensures b.text == text && b.action == action && b.fontSize == fontSize && b.position == position
  {
    Button(text, action, fontSize, position, (measure(text, fontSize) + 10, 50), StateGetColour(Default))
  }

  /** A new button with exactly the given dimensions, at rest. */
  function NewWithDimensions(text: string, action: string, fontSize: int, position: Point,
                             dimensions: Dimensions): (b: Button)
    ensures b.dimensions == dimensions && b.colour == StateGetColour(Default)
    ensures b.text == text && b.action == action && b.fontSize == fontSize && b.position == position
  {
    Button(text, action, fontSize, position, dimensions, StateGetColour(Default))
  }

  /** Replaces the dimensions; nothing else changes. */
  function Resize(b: Button, dimensions: Dimensions): (r: Button)
    ensures r.dimensions == dimensions
    ensures r.text == b.text && r.action == b.action && r.fontSize == b.fontSize
    ensures r.position == b.position && r.colour == b.colour
  {
    b.(dimensions := dimensions)
  }

  /** Resizes the width to the measured width of `text` at the button's own font size (no margin),
      keeping the height. The stored text is NOT replaced. */
  function SetText(b: Button, text: string, measure: Measure): (r: Button)
    ensures r == b.(dimensions := (measure(text, b.fontSize), b.dimensions.1))
  {
    Resize(b, (measure(text, b.fontSize), b.dimensions.1))
  }

  /** Whether the mouse is over the button; the colour becomes Hovered if so and Default if not. */
  function IsHovered(b: Button, mouse: Point): (r: (Button, bool))
    ensures r.1 == IsInside(b.position, b.dimensions, mouse)
    ensures r.0 == b.(colour := r.0.colour)
    ensures r.0.colour == StateGetColour(Hovered) <==> r.1
    ensures r.0.colour == StateGetColour(Default) <==> !r.1
  {
    if IsInside(b.position, b.dimensions, mouse) then (b.(colour := StateGetColour(Hovered)), true)
    else (b.(colour := StateGetColour(Default)), false)
  }

  /** The state part of drawing a button: its hover colour is recomputed from the mouse. */
  function Draw(b: Button, mouse: Point): (r: Button)
    ensures r == IsHovered(b, mouse).0
  {
    IsHovered(b, mouse).0
  }

  /** The token a button emits in a frame: its action when the mouse is inside and the button was
      just pressed, the empty token otherwise. */
  function IsClicked(b: Button, mouse: Point, pressed: bool): (token: string)
    ensures pressed && IsInside(b.position, b.dimensions, mouse) ==> token == b.action
    ensures !(pressed && IsInside(b.position, b.dimensions, mouse)) ==> token == ""
  {
    if IsInside(b.position, b.dimensions, mouse) && pressed then b.action else ""
  }

  /** A button's colour depends only on the latest hover test. */
  lemma HoverLatestWins(b: Button, m1: Point, m2: Point)
    ensures IsHovered(IsHovered(b, m1).0, m2) == IsHovered(b, m2)
  {
  }

  /** A button with a non-empty action emits it exactly when it is hovered and pressed. */
  lemma ClickedIffHoveredAndPressed(b: Button, mouse: Point, pressed: bool)
    requires b.action != ""
    ensures IsClicked(b, mouse, pressed) == b.action <==> IsHovered(b, mouse).1 && pressed
  {
  }

  /** Drawing (recolouring) a button does not change the token it emits. */
  lemma DrawKeepsToken(b: Button, m: Point, mouse: Point, pressed: bool)
    ensures IsClicked(Draw(b, m), mouse, pressed) == IsClicked(b, mouse, pressed)
  {
  }
}
