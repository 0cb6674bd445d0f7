/** A horizontal value slider with a draggable box (src/slider.rs). The f32 value is idealised as a
    real number. */
module Sliders {
  import opened Theme
  import opened Geometry

  /** A slider: its range, the whole widget's rectangle, the track rectangle, the draggable box
      rectangle, their colours, and the current value. */
  datatype Slider = Slider(
    backgroundColour: Colour,
    max: int,
    min: int,
    dimensions: Dimensions,
    position: Point,
    trackColour: Colour,
    boxColour: Colour,
    boxDimensions: Dimensions,
    boxPosition: Point,
    trackDimensions: Dimensions,
    trackPosition: Point,
    textColour: Colour,
    value: real)

  /** The width of the draggable box of a new slider. */
  const BoxWidth := 30

  /** The initial value after the constructor's clamp, which compares the truncated value. */
  function ClampInitial(min: int, max: int, v: real): (r: real)
    ensures min > Trunc(v) ==> r == min as real
    ensures min <= Trunc(v) && max < Trunc(v) ==> r == max as real
    ensures min <= Trunc(v) <= max ==> r == v
  {
    if min > Trunc(v) then min as real
    else if max < Trunc(v) then max as real
    else v
  }

  /** Because the clamp compares the truncated value, the clamped value is within one of the range,
      and exactly within it for whole-number inputs. */
  lemma ClampInitialBounds(min: int, max: int, v: real)
    requires min <= max
    ensures (min - 1) as real < ClampInitial(min, max, v) < (max + 1) as real
    ensures v == v.Floor as real ==> min as real <= ClampInitial(min, max, v) <= max as real
  {
    TruncOfInteger(v.Floor);
  }

  /** The clamp at work: 50 in [0, 10] becomes 10, -5 becomes 0, and 10.5 is kept, above the
      maximum, since it truncates to 10. */
  lemma ClampInitialExamples()
    ensures ClampInitial(0, 10, 50.0) == 10.0
    ensures ClampInitial(0, 10, -5.0) == 0.0
    ensures ClampInitial(0, 10, 10.5) == 10.5
  {
    assert Trunc(10.5) == 10;
  }

  /** Places the box horizontally by linear interpolation of the value over the track:
      `min` maps to the track's start and `max` to its end. With `max == min` the division is
      by zero; the model then leaves the box where it is. */
  function SetPositionFromValue(s: Slider): (r: Slider)
    ensures r == s.(boxPosition := (r.boxPosition.0, s.boxPosition.1))
    ensures s.min < s.max && s.min as real <= s.value <= s.max as real && s.trackDimensions.0 >= 0 ==>
              s.trackPosition.0 <= r.boxPosition.0 <= s.trackPosition.0 + s.trackDimensions.0
    ensures s.max != s.min ==>
              r.boxPosition.0 == BoxXFor(s.value, s.min, s.max, s.trackPosition.0, s.trackDimensions.0)
    ensures s.max != s.min && s.value == s.min as real ==> r.boxPosition.0 == s.trackPosition.0
    ensures s.max != s.min && s.value == s.max as real ==>
              r.boxPosition.0 == s.trackPosition.0 + s.trackDimensions.0
    ensures s.max == s.min ==> r == s
  {
    if s.max == s.min then s
    else s.(boxPosition := (BoxXFor(s.value, s.min, s.max, s.trackPosition.0, s.trackDimensions.0), s.boxPosition.1))
  }

  /** The interpolated box x for `value` over a track starting at `trackX`, `trackW` wide. */
  function BoxXFor(value: real, min: int, max: int, trackX: int, trackW: int): (x: int)
    requires min != max
    ensures min < max && min as real <= value <= max as real && trackW >= 0 ==> trackX <= x <= trackX + trackW
    ensures value == min as real ==> x == trackX
    ensures value == max as real ==> x == trackX + trackW
  {
    var t := (value - min as real) / (max - min) as real;
    var y := t * ((trackX + trackW) - trackX) as real + trackX as real;
    BoxXBounds(value, min, max, trackX, trackW);
    Trunc(y)
  }

  lemma BoxXBounds(value: real, min: int, max: int, trackX: int, trackW: int)
    requires min != max
    ensures var y := (value - min as real) / (max - min) as real * ((trackX + trackW) - trackX) as real + trackX as real;
      && (min < max && min as real <= value <= max as real && trackW >= 0 ==> trackX <= Trunc(y) <= trackX + trackW)
      && (value == min as real ==> Trunc(y) == trackX)
      && (value == max as real ==> Trunc(y) == trackX + trackW)
  {
    var t := (value - min as real) / (max - min) as real;
    if min < max && min as real <= value <= max as real && trackW >= 0 {
      FractionInUnit(value - min as real, (max - min) as real);
      InterpolateBetween(t, trackX, trackW);
      TruncBetween(t * ((trackX + trackW) - trackX) as real + trackX as real, trackX, trackX + trackW);
    }
    if value == min as real {
      assert t == 0.0;
      TruncOfInteger(trackX);
    }
    if value == max as real {
      FractionOfItself((max - min) as real);
      assert t == 1.0;
      TruncOfInteger(trackX + trackW);
    }
  }

  /** A non-negative part of a positive whole is a fraction in [0, 1]. */
  lemma FractionInUnit(part: real, whole: real)
    requires whole > 0.0 && 0.0 <= part <= whole
    ensures 0.0 <= part / whole <= 1.0
  {
  }

  lemma FractionOfItself(whole: real)
    requires whole != 0.0
    ensures whole / whole == 1.0
  {
  }

  /** A fraction in [0, 1] of a non-negative length, offset by `start`, lies in [start, start+length];
      and a value in [lo, hi] gives such a fraction. */
  lemma InterpolateBetween(t: real, start: int, length: int)
    requires 0.0 <= t <= 1.0 && length >= 0
    ensures start as real <= t * ((start + length) - start) as real + start as real <= (start + length) as real
  {
    var l := length as real;
    assert 0.0 <= t * l <= l by {
      assert t * l <= 1.0 * l;
    }
  }

  /** Maps the box position back to a value: the box at the track's start gives `min`, the box
      flush with the track's end gives `max`. When the track is exactly as wide as the box the f32
      division is 0/0; the model then keeps the value. */
  function UpdateValue(s: Slider): (r: Slider)
    ensures r == s.(value := r.value)
    ensures var tx, tw, bx, bw := s.trackPosition.0, s.trackDimensions.0, s.boxPosition.0, s.boxDimensions.0;
      && (tw != bw && bx == tx ==> r.value == s.min as real)
      && (tw != bw && bx == tx + tw - bw ==> r.value == s.max as real)
      && (tw > bw && tx <= bx <= tx + tw - bw && s.min <= s.max ==>
            s.min as real <= r.value <= s.max as real)
  {
    var difference := (s.boxPosition.0 + s.boxDimensions.0) - (s.trackPosition.0 + s.boxDimensions.0);
    var span := s.trackDimensions.0 - s.boxDimensions.0;
    if span == 0 then s
    else
      var v := ValueFromOffset(difference, span, s.min, s.max);
      s.(value := v)
  }

  /** The value for a box `difference` pixels from the track's start, on a track with `span` pixels
      of travel: the inverse of the interpolation. */
  function ValueFromOffset(difference: int, span: int, min: int, max: int): (v: real)
    requires span != 0
    ensures difference == 0 ==> v == min as real
    ensures difference == span ==> v == max as real
    ensures span > 0 && 0 <= difference <= span && min <= max ==> min as real <= v <= max as real
  {
    var t := difference as real / span as real;
    InterpolateFraction(difference, span, min, max);
    t * (max - min) as real + min as real
  }

  lemma InterpolateFraction(difference: int, span: int, min: int, max: int)
    requires span != 0
    ensures var t := difference as real / span as real;
      span > 0 && 0 <= difference <= span && min <= max ==>
        min as real <= t * (max - min) as real + min as real <= max as real
  {
    var t := difference as real / span as real;
    if span > 0 && 0 <= difference <= span && min <= max {
      assert 0.0 <= t <= 1.0;
      InterpolateBetween(t, min, max - min);
    }
  }

  /** A new slider: the value clamped, the widget `width + 120` by 50, the track `width` by 35 at
      offset (10, 7), the box 30 by 35 on the track's row, placed from the value. */
  function New(min: int, max: int, initialValue: real, position: Point, width: int): (s: Slider)
    ensures s.min == min && s.max == max && s.value == ClampInitial(min, max, initialValue)
    ensures s.position == position && s.dimensions == (width + 120, 50)
    ensures s.trackPosition == (position.0 + 10, position.1 + 7) && s.trackDimensions == (width, 35)
    ensures s.boxDimensions == (BoxWidth, 35) && s.boxPosition.1 == position.1 + 7
    ensures s.boxColour == StateGetColour(Text) && s.textColour == StateGetColour(Text)
    ensures s.trackColour == LIGHTGRAY && s.backgroundColour == StateGetColour(Default)
    ensures min < max && min as real <= s.value <= max as real && width >= 0 ==>
              position.0 + 10 <= s.boxPosition.0 <= position.0 + 10 + width
  {
    var s := Slider(
      StateGetColour(Default), max, min, (width + 120, 50), position, LIGHTGRAY,
      StateGetColour(Text), (BoxWidth, 35), (position.0 + 10, position.1 + 7),
      (width, 35), (position.0 + 10, position.1 + 7), StateGetColour(Text),
      ClampInitial(min, max, initialValue));
    SetPositionFromValue(s)
  }

  /** The placement and the drag disagree at the top of the range: a new slider at its maximum has
      its box at the track's end, one box width further right than any drag can put it. */
  lemma NewAtMaxBeyondDragRange(min: int, max: int, position: Point, width: int)
    requires min < max && width >= BoxWidth
    ensures var s := New(min, max, max as real, position, width);
      s.boxPosition.0 == s.trackPosition.0 + s.trackDimensions.0
      && s.boxPosition.0 > s.trackPosition.0 + s.trackDimensions.0 - s.boxDimensions.0
  {
    TruncOfInteger(max);
  }

  /** The current value. */
  function GetValue(s: Slider): (v: real)
    ensures v == s.value
  {
    s.value
  }

  /** Resizes the widget; the track becomes `(w - 120, h - 15)` and the box keeps its width with
      height `h - 15`. Positions and the value are kept: the box is not re-placed from the value. */
  function Resize(s: Slider, dimensions: Dimensions): (r: Slider)
    ensures r == s.(dimensions := dimensions,
                    trackDimensions := (dimensions.0 - 120, dimensions.1 - 15),
                    boxDimensions := (s.boxDimensions.0, dimensions.1 - 15))
  {
    s.(dimensions := dimensions,
       trackDimensions := (dimensions.0 - 120, dimensions.1 - 15),
       boxDimensions := (s.boxDimensions.0, dimensions.1 - 15))
  }

  /** A resize presents the same value and leaves the box where it was, and it keeps a box that
      fits the track fitting when the track grows. */
  lemma ResizeKeepsValueAndBox(s: Slider, dimensions: Dimensions)
    ensures GetValue(Resize(s, dimensions)) == GetValue(s)
    ensures Resize(s, dimensions).boxPosition == s.boxPosition
    ensures Resize(s, dimensions).boxDimensions.0 == s.boxDimensions.0
  {
  }

  /** Whether the mouse is over the box (not the whole slider); only the box colour changes, to
      Hovered or back to Text. */
  function IsHovered(s: Slider, mouse: Point): (r: (Slider, bool))
    ensures r.1 == IsInside(s.boxPosition, s.boxDimensions, mouse)
    ensures r.0 == s.(boxColour := if r.1 then StateGetColour(Hovered) else StateGetColour(Text))
  {
    if IsInside(s.boxPosition, s.boxDimensions, mouse) then (s.(boxColour := StateGetColour(Hovered)), true)
    else (s.(boxColour := StateGetColour(Text)), false)
  }

  /** The state part of drawing a slider: its hover colour. */
  function Draw(s: Slider, mouse: Point): (r: Slider)
    ensures r == IsHovered(s, mouse).0
  {
    IsHovered(s, mouse).0
  }

  /** Whether a frame drags the slider: the button is held and the mouse is over the box or over
      the whole slider. */
  predicate Drags(s: Slider, mouse: Point, held: bool): (r: bool)
    ensures !held ==> !r
    ensures held && IsInside(s.boxPosition, s.boxDimensions, mouse) ==> r
    ensures held && IsInside(s.position, s.dimensions, mouse) ==> r
    ensures r ==> IsInside(s.boxPosition, s.boxDimensions, mouse) || IsInside(s.position, s.dimensions, mouse)
  {
    (IsInside(s.boxPosition, s.boxDimensions, mouse) || IsInside(s.position, s.dimensions, mouse)) && held
  }

  /** The box x a drag to `mouseX` produces: centred on the mouse, then pulled back inside the track. */
  function DragX(s: Slider, mouseX: int): (x: int)
    ensures s.trackDimensions.0 >= s.boxDimensions.0 ==>
              s.trackPosition.0 <= x && x + s.boxDimensions.0 <= s.trackPosition.0 + s.trackDimensions.0
    ensures s.trackPosition.0 <= mouseX - Quot(s.boxDimensions.0, 2)
         && mouseX - Quot(s.boxDimensions.0, 2) + s.boxDimensions.0 <= s.trackPosition.0 + s.trackDimensions.0
         ==> x == mouseX - Quot(s.boxDimensions.0, 2)
    ensures mouseX - Quot(s.boxDimensions.0, 2) + s.boxDimensions.0 > s.trackPosition.0 + s.trackDimensions.0
         ==> x == s.trackPosition.0 + s.trackDimensions.0 - s.boxDimensions.0
    ensures mouseX - Quot(s.boxDimensions.0, 2) + s.boxDimensions.0 <= s.trackPosition.0 + s.trackDimensions.0
         && mouseX - Quot(s.boxDimensions.0, 2) < s.trackPosition.0
         ==> x == s.trackPosition.0
  {
    var x := mouseX - Quot(s.boxDimensions.0, 2);
    if x + s.boxDimensions.0 > s.trackPosition.0 + s.trackDimensions.0 then
      s.trackPosition.0 + s.trackDimensions.0 - s.boxDimensions.0
    else if x < s.trackPosition.0 then s.trackPosition.0
    else x
  }

  /** A drag frame moves the box to `DragX` on its own row and recomputes the value from it; any
      other frame changes nothing. */
  function IsClicked(s: Slider, mouse: Point, held: bool): (r: Slider)
    ensures Drags(s, mouse, held) ==>
              r == UpdateValue(s.(boxPosition := (DragX(s, mouse.0), s.boxPosition.1)))
    ensures !Drags(s, mouse, held) ==> r == s
  {
    if Drags(s, mouse, held) then
      UpdateValue(s.(boxPosition := (DragX(s, mouse.0), s.boxPosition.1)))
    else s
  }

  /** After a drag the box lies within the track (when the track can hold it), on its old row, and
      the value lies within the range (when the track is wider than the box). */
  lemma DragStaysInTrack(s: Slider, mouse: Point, held: bool)
    requires Drags(s, mouse, held)
    requires s.trackDimensions.0 >= s.boxDimensions.0
    ensures var r := IsClicked(s, mouse, held);
      && s.trackPosition.0 <= r.boxPosition.0
      && r.boxPosition.0 + r.boxDimensions.0 <= s.trackPosition.0 + s.trackDimensions.0
      && r.boxPosition.1 == s.boxPosition.1
      && (s.trackDimensions.0 > s.boxDimensions.0 && s.min <= s.max ==>
            s.min as real <= r.value <= s.max as real)
  {
  }

  /** Dragging to the same place twice is the same as dragging once: the new box depends only on
      the mouse and the track, which a drag does not change. */
  lemma {:induction false} DragIdempotent(s: Slider, mouse: Point, held: bool)
    ensures IsClicked(IsClicked(s, mouse, held), mouse, held) == IsClicked(s, mouse, held)
  {
    var once := IsClicked(s, mouse, held);
    if Drags(s, mouse, held) && Drags(once, mouse, held) {
      assert DragX(once, mouse.0) == DragX(s, mouse.0);
      assert once.(boxPosition := (DragX(once, mouse.0), once.boxPosition.1))
          == s.(boxPosition := (DragX(s, mouse.0), s.boxPosition.1)).(value := once.value);
    }
  }
}
