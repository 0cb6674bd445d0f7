/** The fixed four-state colour table every widget draws with (src/gui_theme.rs). */
module Theme {

  /** An RGBA colour, as the drawing backend represents it. */
  datatype Colour = Colour(r: int, g: int, b: int, a: int)

  // The named colours of the drawing backend that the widgets use.
  const DARKGRAY := Colour(80, 80, 80, 255)
  const GRAY := Colour(130, 130, 130, 255)
  const LIGHTGRAY := Colour(200, 200, 200, 255)
  const RAYWHITE := Colour(245, 245, 245, 255)
  const WHITE := Colour(255, 255, 255, 255)

  /** The interaction state a widget is drawn in. */
  datatype StateColour = Hovered | Active | Default | Text

  /** The colour a widget in `state` is drawn with. */
  function StateGetColour(state: StateColour): (c: Colour)
    ensures c == DARKGRAY <==> state == Hovered || state == Active
    ensures c == GRAY <==> state == Default
    ensures c == RAYWHITE <==> state == Text
  {
    match state
    case Hovered | Active => DARKGRAY
    case Default => GRAY
    case Text => RAYWHITE
  }

  /** A hovered (or active) widget is drawn differently from a resting one, and neither
      looks like text. */
  lemma StatesDistinguishable()
    ensures StateGetColour(Hovered) == StateGetColour(Active)
    ensures StateGetColour(Default) != StateGetColour(Hovered)
    ensures StateGetColour(Text) != StateGetColour(Hovered)
    ensures StateGetColour(Text) != StateGetColour(Default)
  {
  }
}
