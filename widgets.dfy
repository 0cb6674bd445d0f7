/** The widget union (src/common.rs) and the Dropdown container (src/dropdown.rs). They live in
    one module because a Dropdown holds a sequence of union values and the union holds Dropdowns. */
module Widgets {
  import opened Theme
  import opened Geometry
  import opened Outcomes
  import Buttons
  import Sliders
  import Labels

  /** Any widget, so that one ordered collection can hold all kinds. */
  datatype DrawableType =
    | Button(button: Buttons.Button)
    | Slider(slider: Sliders.Slider)
    | Label(lbl: Labels.Label)
    | Dropdown(dropdown: Dropdown)

  /** A header that toggles open and closed, with its own ordered children and the action tokens
      its children produced in the latest frame. */
  datatype Dropdown = DropdownState(
    backgroundColour: Colour,
    components: seq<DrawableType>,
    componentsFixedWidths: bool,
    fontSize: int,
    actions: seq<string>,
    dimensions: Dimensions,
    position: Point,
    show: bool,
    text: string,
    textColour: Colour)

  // ---------------------------------------------------------------------------------------------
  // Dispatch by variant

  /** The wrapped widget's own position. */
  function Position(w: DrawableType): (p: Point)
    ensures w.Button? ==> p == w.button.position
    ensures w.Slider? ==> p == w.slider.position
    ensures w.Label? ==> p == w.lbl.position
    ensures w.Dropdown? ==> p == w.dropdown.position
  {
    match w
    case Button(b) => b.position
    case Slider(s) => s.position
    case Label(l) => l.position
    case Dropdown(d) => d.position
  }

  /** The wrapped widget's own dimensions. */
  function Dims(w: DrawableType): (d: Dimensions)
    ensures w.Button? ==> d == w.button.dimensions
    ensures w.Slider? ==> d == w.slider.dimensions
    ensures w.Label? ==> d == w.lbl.dimensions
    ensures w.Dropdown? ==> d == w.dropdown.dimensions
  {
    match w
    case Button(b) => b.dimensions
    case Slider(s) => s.dimensions
    case Label(l) => l.dimensions
    case Dropdown(d) => d.dimensions
  }

  /** Whether two widgets are of the same variant. */
  predicate SameKind(a: DrawableType, b: DrawableType)
  {
    a.Button? == b.Button? && a.Slider? == b.Slider? && a.Label? == b.Label? && a.Dropdown? == b.Dropdown?
  }

  /** Forwards a resize to the wrapped widget's own resize. All variants end with the requested
      size except a Dropdown, whose resize takes 10 off the width; positions are kept. */
  function Resized(w: DrawableType, dimensions: Dimensions): (r: DrawableType)
    ensures SameKind(r, w) && Position(r) == Position(w)
    ensures Dims(r) == if w.Dropdown? then (dimensions.0 - 10, dimensions.1) else dimensions
    ensures w.Button? ==> r.button == Buttons.Resize(w.button, dimensions)
    ensures w.Slider? ==> r.slider == Sliders.Resize(w.slider, dimensions)
    ensures w.Label? ==> r.lbl == Labels.Resize(w.lbl, dimensions)
    ensures w.Dropdown? ==> r.dropdown == DropdownResized(w.dropdown, dimensions)
  {
    match w
    case Button(b) => Button(Buttons.Resize(b, dimensions))
    case Slider(s) => Slider(Sliders.Resize(s, dimensions))
    case Label(l) => Label(Labels.Resize(l, dimensions))
    case Dropdown(d) => Dropdown(DropdownResized(d, dimensions))
  }

  /** The imperative resize, running a Dropdown's own loop. */
  method Resize(w: DrawableType, dimensions: Dimensions) returns (r: DrawableType)
    ensures r == Resized(w, dimensions)
  {
    match w
    case Dropdown(d) =>
      var e := ResizeDropdown(d, dimensions);
      r := Dropdown(e);
    case _ =>
      r := Resized(w, dimensions);
  }

  /** The state part of drawing a widget: hover colours, and a Dropdown's whole frame step. */
  function Drawn(w: DrawableType, f: FrameInput): (r: DrawableType)
    ensures SameKind(r, w)
    ensures w.Button? ==> r.button == Buttons.Draw(w.button, f.mouse)
    ensures w.Slider? ==> r.slider == Sliders.Draw(w.slider, f.mouse)
    ensures w.Label? ==> r == w
    ensures w.Dropdown? ==> r.dropdown == DropdownDrawn(w.dropdown, f)
  {
    match w
    case Button(b) => Button(Buttons.Draw(b, f.mouse))
    case Slider(s) => Slider(Sliders.Draw(s, f.mouse))
    case Label(l) => Label(Labels.Draw(l, f.mouse))
    case Dropdown(d) => Dropdown(DropdownDrawn(d, f))
  }

  /** The imperative draw, running a Dropdown's own loop. */
  method Draw(w: DrawableType, f: FrameInput) returns (r: DrawableType)
    ensures r == Drawn(w, f)
  {
    match w
    case Dropdown(d) =>
      var e := DrawDropdown(d, f);
      r := Dropdown(e);
    case _ =>
      r := Drawn(w, f);
  }

  /** The hit test of one widget in a frame, collecting its tokens into `actions`: a Button pushes
      exactly one token (perhaps empty), a Slider drags while the button is held, a Label does
      nothing, and a Dropdown toggles and then moves its own collected tokens onto the end. */
  function IsClicked(w: DrawableType, f: FrameInput, actions: seq<string>): (r: (DrawableType, seq<string>))
    ensures SameKind(r.0, w) && Position(r.0) == Position(w) && Dims(r.0) == Dims(w)
    ensures w.Button? ==> r == (w, actions + [Buttons.IsClicked(w.button, f.mouse, f.pressed)])
    ensures w.Slider? ==> r == (Slider(Sliders.IsClicked(w.slider, f.mouse, f.down)), actions)
    ensures w.Label? ==> r == (w, actions)
    ensures w.Dropdown? ==> r.1 == actions + w.dropdown.actions && r.0.dropdown.actions == []
    ensures w.Dropdown? ==> r.0.dropdown == DropdownIsClicked(w.dropdown, f.mouse, f.pressed).(actions := [])
  {
    match w
    case Button(b) => (w, actions + [Buttons.IsClicked(b, f.mouse, f.pressed)])
    case Slider(s) => (Slider(Sliders.IsClicked(s, f.mouse, f.down)), actions)
    case Label(l) => (Label(Labels.IsClicked(l, f.mouse, f.pressed)), actions)
    case Dropdown(d) =>
      var e := DropdownIsClicked(d, f.mouse, f.pressed);
      (Dropdown(e.(actions := [])), actions + e.actions)
  }

  // ---------------------------------------------------------------------------------------------
  // Selecting the widgets of one kind, in order

  function AsButton(w: DrawableType): Option<Buttons.Button>
  {
    if w.Button? then Some(w.button) else None
  }

  function AsSlider(w: DrawableType): Option<Sliders.Slider>
  {
    if w.Slider? then Some(w.slider) else None
  }

  function AsLabel(w: DrawableType): Option<Labels.Label>
  {
    if w.Label? then Some(w.lbl) else None
  }

  function AsDropdown(w: DrawableType): Option<Dropdown>
  {
    if w.Dropdown? then Some(w.dropdown) else None
  }

  function OptionToSeq<T>(o: Option<T>): seq<T>
  {
    if o.Some? then [o.value] else []
  }

  /** The selected widgets of `cs`, in order, without looking inside Dropdowns. */
  function Pick<T>(cs: seq<DrawableType>, sel: DrawableType -> Option<T>): (r: seq<T>)
    ensures |r| <= |cs|
  {
    if cs == [] then [] else Pick(cs[..|cs| - 1], sel) + OptionToSeq(sel(cs[|cs| - 1]))
  }

  function ButtonsOf(cs: seq<DrawableType>): seq<Buttons.Button> { Pick(cs, AsButton) }
  function SlidersOf(cs: seq<DrawableType>): seq<Sliders.Slider> { Pick(cs, AsSlider) }
  function LabelsOf(cs: seq<DrawableType>): seq<Labels.Label> { Pick(cs, AsLabel) }
  function DropdownsOf(cs: seq<DrawableType>): seq<Dropdown> { Pick(cs, AsDropdown) }

  /** Selection distributes over concatenation; with `PickSingle` this says the selection keeps
      exactly the selected items in their original order. */
  lemma {:induction false} PickAppend<T>(a: seq<DrawableType>, b: seq<DrawableType>, sel: DrawableType -> Option<T>)
    ensures Pick(a + b, sel) == Pick(a, sel) + Pick(b, sel)
    decreases |b|
  {
    if b == [] {
      assert a + b == a;
    } else {
      var b' := b[..|b| - 1];
      assert (a + b)[..|a + b| - 1] == a + b';
      assert (a + b)[|a + b| - 1] == b[|b| - 1];
      PickAppend(a, b', sel);
    }
  }

  /** A single widget is selected exactly when the selector accepts it. */
  lemma PickSingle<T>(c: DrawableType, sel: DrawableType -> Option<T>)
    ensures Pick([c], sel) == OptionToSeq(sel(c))
  {
    assert [c][..0] == [];
  }

  /** Every selected item comes from some widget of `cs`, and every accepted widget is selected. */
  lemma {:induction false} PickMembership<T>(cs: seq<DrawableType>, sel: DrawableType -> Option<T>, x: T)
    ensures x in Pick(cs, sel) <==> exists i :: 0 <= i < |cs| && sel(cs[i]) == Some(x)
    decreases |cs|
  {
    if cs != [] {
      var init := cs[..|cs| - 1];
      PickMembership(init, sel, x);
      if exists i :: 0 <= i < |cs| && sel(cs[i]) == Some(x) {
        var i :| 0 <= i < |cs| && sel(cs[i]) == Some(x);
        if i < |cs| - 1 {
          assert init[i] == cs[i];
        }
      }
      if exists i :: 0 <= i < |init| && sel(init[i]) == Some(x) {
        var i :| 0 <= i < |init| && sel(init[i]) == Some(x);
        assert cs[i] == init[i];
      }
    }
  }

  /** The selection loop (the source's loops that push the matching children, and its
      `FromIterator` conversions). */
  method Collect<T>(cs: seq<DrawableType>, sel: DrawableType -> Option<T>) returns (r: seq<T>)
    ensures r == Pick(cs, sel)
  {
    r := [];
    var i := 0;
    while i < |cs|
      invariant 0 <= i <= |cs|
      invariant r == Pick(cs[..i], sel)
    {
      assert cs[..i + 1][..i] == cs[..i];
      match sel(cs[i]) {
        case Some(x) => r := r + [x];
        case None =>
      }
      i := i + 1;
    }
    assert cs[..i] == cs;
  }

  /** Converting a collection into its Labels keeps exactly the Labels, in order. */
  method CollectLabels(items: seq<DrawableType>) returns (r: seq<Labels.Label>)
    ensures r == LabelsOf(items)
    ensures forall l :: l in r <==> Label(l) in items
  {
    r := Collect(items, AsLabel);
    forall l ensures l in r <==> Label(l) in items {
      PickMembership(items, AsLabel, l);
    }
  }

  /** Converting a collection into its Sliders keeps exactly the Sliders, in order. */
  method CollectSliders(items: seq<DrawableType>) returns (r: seq<Sliders.Slider>)
    ensures r == SlidersOf(items)
    ensures forall s :: s in r <==> Slider(s) in items
  {
    r := Collect(items, AsSlider);
    forall s ensures s in r <==> Slider(s) in items {
      PickMembership(items, AsSlider, s);
    }
  }

  /** The tokens of the given Buttons in a frame, one per Button, in order. */
  function Tokens(bs: seq<Buttons.Button>, f: FrameInput): (r: seq<string>)
    ensures |r| == |bs|
    ensures forall k :: 0 <= k < |bs| ==> r[k] == Buttons.IsClicked(bs[k], f.mouse, f.pressed)
  {
    seq(|bs|, k requires 0 <= k < |bs| => Buttons.IsClicked(bs[k], f.mouse, f.pressed))
  }

  /** One token per Button of `cs`, in order. */
  function ButtonTokens(cs: seq<DrawableType>, f: FrameInput): seq<string>
  {
    Tokens(ButtonsOf(cs), f)
  }

  /** Extending a collection by one widget extends its Button tokens by that widget's token, if it
      is a Button. */
  lemma ButtonTokensSnoc(cs: seq<DrawableType>, c: DrawableType, f: FrameInput)
    ensures ButtonTokens(cs + [c], f)
         == ButtonTokens(cs, f) + (if c.Button? then [Buttons.IsClicked(c.button, f.mouse, f.pressed)] else [])
  {
    assert (cs + [c])[..|cs + [c]| - 1] == cs;
  }

  // ---------------------------------------------------------------------------------------------
  // Nesting depth (the measure that makes the recursive frame step terminate)

  function Height(w: DrawableType): nat
  {
    match w
    case Dropdown(d) => Depth(d)
    case _ => 0
  }

  function Depth(d: Dropdown): nat
  {
    1 + HeightOf(d.components)
  }

  function HeightOf(cs: seq<DrawableType>): nat
  {
    if cs == [] then 0
    else
      var h, t := Height(cs[|cs| - 1]), HeightOf(cs[..|cs| - 1]);
      if h > t then h else t
  }

  lemma {:induction false} HeightBound(cs: seq<DrawableType>, i: int)
    requires 0 <= i < |cs|
    ensures Height(cs[i]) <= HeightOf(cs)
    decreases |cs|
  {
    if i < |cs| - 1 {
      assert cs[..|cs| - 1][i] == cs[i];
      HeightBound(cs[..|cs| - 1], i);
    }
  }

  /** Collections whose widgets are pointwise equally deep are equally deep. */
  lemma {:induction false} HeightPointwise(a: seq<DrawableType>, b: seq<DrawableType>)
    requires |a| == |b|
    requires forall i :: 0 <= i < |a| ==> Height(a[i]) == Height(b[i])
    ensures HeightOf(a) == HeightOf(b)
    decreases |a|
  {
    if a != [] {
      HeightPointwise(a[..|a| - 1], b[..|b| - 1]);
    }
  }

  // ---------------------------------------------------------------------------------------------
  // Width normalisation (shared by the Dropdown and the handler)

  /** The widest width among `cs`, starting from -1. */
  function Widest(cs: seq<DrawableType>): (m: int)
    ensures m >= -1
    ensures forall i :: 0 <= i < |cs| ==> Dims(cs[i]).0 <= m
    ensures m == -1 || exists i :: 0 <= i < |cs| && Dims(cs[i]).0 == m
  {
    if cs == [] then -1
    else
      var m, w := Widest(cs[..|cs| - 1]), Dims(cs[|cs| - 1]).0;
      assert forall i :: 0 <= i < |cs| - 1 ==> cs[..|cs| - 1][i] == cs[i];
      if w > m then w else m
  }

  /** Every widget resized to the widest width, its height kept. */
  function FixedWidths(cs: seq<DrawableType>): (r: seq<DrawableType>)
    ensures |r| == |cs|
    ensures forall i :: 0 <= i < |cs| ==> r[i] == Resized(cs[i], (Widest(cs), Dims(cs[i]).1))
  {
    var widest := Widest(cs);
    seq(|cs|, i requires 0 <= i < |cs| => Resized(cs[i], (widest, Dims(cs[i]).1)))
  }

  /** After normalisation every Button, Slider and Label is exactly as wide as the widest widget
      was, every Dropdown 10 narrower; heights, order, kinds and positions are kept. */
  lemma FixedWidthsShape(cs: seq<DrawableType>)
    ensures |FixedWidths(cs)| == |cs|
    ensures forall i :: 0 <= i < |cs| ==>
      && SameKind(FixedWidths(cs)[i], cs[i])
      && Position(FixedWidths(cs)[i]) == Position(cs[i])
      && Dims(FixedWidths(cs)[i]).1 == Dims(cs[i]).1
      && Dims(FixedWidths(cs)[i]).0 == (if cs[i].Dropdown? then Widest(cs) - 10 else Widest(cs))
      && Dims(FixedWidths(cs)[i]).0 >= (if cs[i].Dropdown? then Dims(cs[i]).0 - 10 else Dims(cs[i]).0)
  {
  }

  /** A collection of equally wide widgets has that width as its widest width. */
  lemma {:induction false} WidestOfUniform(cs: seq<DrawableType>, w: int)
    requires cs != [] && w >= -1
    requires forall i :: 0 <= i < |cs| ==> Dims(cs[i]).0 == w
    ensures Widest(cs) == w
    decreases |cs|
  {
    if |cs| > 1 {
      WidestOfUniform(cs[..|cs| - 1], w);
    }
  }

  /** Without Dropdowns, normalising twice is normalising once. */
  lemma FixedWidthsIdempotent(cs: seq<DrawableType>)
    requires forall i :: 0 <= i < |cs| ==> !cs[i].Dropdown?
    ensures FixedWidths(FixedWidths(cs)) == FixedWidths(cs)
  {
    var once := FixedWidths(cs);
    if cs != [] {
      WidestOfUniform(once, Widest(cs));
      assert forall i :: 0 <= i < |cs| ==> FixedWidths(once)[i] == once[i];
    }
  }

  /** Normalisation as written narrows Dropdown children each time it runs: when every child is a
      Dropdown, the widest width after one pass is 10 less than before, and two passes leave every
      child at the original widest width minus 20. */
  lemma DropdownChildrenNarrow(cs: seq<DrawableType>)
    requires cs != [] && forall i :: 0 <= i < |cs| ==> cs[i].Dropdown?
    requires Widest(cs) >= 19
    ensures Widest(FixedWidths(cs)) == Widest(cs) - 10
    ensures forall i :: 0 <= i < |cs| ==> Dims(FixedWidths(FixedWidths(cs))[i]).0 == Widest(cs) - 20
  {
    var once := FixedWidths(cs);
    FixedWidthsShape(cs);
    WidestOfUniform(once, Widest(cs) - 10);
    FixedWidthsShape(once);
  }

  /** Below width -1 the narrowing stops: the fold starts from -1, so Dropdown children that are
      all at most -1 wide all end at -11, and -11 is where further passes keep them. */
  lemma DropdownChildrenFloor(cs: seq<DrawableType>)
    requires cs != [] && forall i :: 0 <= i < |cs| ==> cs[i].Dropdown?
    requires forall i :: 0 <= i < |cs| ==> Dims(cs[i]).0 <= -1
    ensures forall i :: 0 <= i < |cs| ==> Dims(FixedWidths(cs)[i]).0 == -11
    ensures forall i :: 0 <= i < |cs| ==> Dims(FixedWidths(FixedWidths(cs))[i]).0 == -11
  {
    var once := FixedWidths(cs);
    assert Widest(cs) == -1;
    FixedWidthsShape(cs);
    assert Widest(once) == -1;
    FixedWidthsShape(once);
  }

  /** Normalisation leaves the nesting depth alone. */
  lemma FixedWidthsHeight(cs: seq<DrawableType>)
    ensures HeightOf(FixedWidths(cs)) == HeightOf(cs)
  {
    var r := FixedWidths(cs);
    forall i | 0 <= i < |cs| ensures Height(r[i]) == Height(cs[i]) {
      if cs[i].Dropdown? {
        var d := cs[i].dropdown;
        var e := DropdownResized(d, (Widest(cs), Dims(cs[i]).1));
        HeightPointwise(e.components, d.components);
      }
    }
    HeightPointwise(r, cs);
  }

  /** The normalisation loops: the widest width, then every widget resized in place. */
  method FixWidths(cs: seq<DrawableType>) returns (r: seq<DrawableType>)
    ensures r == FixedWidths(cs)
  {
    var widest := -1;
    var i := 0;
    while i < |cs|
      invariant 0 <= i <= |cs|
      invariant widest == Widest(cs[..i])
    {
      assert cs[..i + 1][..i] == cs[..i];
      var width := Dims(cs[i]).0;
      if width > widest {
        widest := width;
      }
      i := i + 1;
    }
    assert cs[..i] == cs;
    r := cs;
    i := 0;
    while i < |r|
      invariant 0 <= i <= |r| && |r| == |cs|
      invariant forall j :: 0 <= j < i ==> r[j] == Resized(cs[j], (widest, Dims(cs[j]).1))
      invariant forall j :: i <= j < |r| ==> r[j] == cs[j]
    {
      var c := Resize(r[i], (widest, Dims(r[i]).1));
      r := r[i := c];
      i := i + 1;
    }
  }

  // ---------------------------------------------------------------------------------------------
  // Dropdown construction and layout

  /** A new Dropdown: Closed, no children, no actions, sized to its measured text plus 10 by 50. */
  function NewDropdown(text: string, fontSize: int, position: Point, measure: Measure): (d: Dropdown)
    ensures !d.show && d.components == [] && d.actions == [] && !d.componentsFixedWidths
    ensures d.dimensions == (measure(text, fontSize) + 10, 50)
    ensures d.backgroundColour == StateGetColour(Default) && d.textColour == StateGetColour(Text)
    ensures d.text == text && d.fontSize == fontSize && d.position == position
  {
    DropdownState(StateGetColour(Default), [], false, fontSize, [], (measure(text, fontSize) + 10, 50),
             position, false, text, StateGetColour(Text))
  }

  /** Appends a child; nothing else changes. */
  function AddComponent(d: Dropdown, c: DrawableType): (r: Dropdown)
    ensures r.components == d.components + [c]
    ensures r == d.(components := r.components)
  {
    d.(components := d.components + [c])
  }

  /** The last child's position, or the Dropdown's own when it has none. */
  function PreviousPosition(d: Dropdown): (p: Point)
    ensures d.components == [] ==> p == d.position
    ensures d.components != [] ==> p == Position(d.components[|d.components| - 1])
  {
    if d.components == [] then d.position else Position(d.components[|d.components| - 1])
  }

  /** The first child's height, or 0 when there is none. */
  function FirstHeight(d: Dropdown): (h: int)
    ensures d.components == [] ==> h == 0
    ensures d.components != [] ==> h == Dims(d.components[0]).1
  {
    if d.components == [] then 0 else Dims(d.components[0]).1
  }

  /** Where an auto-laid-out child goes: the previous position shifted right by the Dropdown's
      x plus its width, and down by the first child's height. */
  function ChildPosition(d: Dropdown): (p: Point)
    ensures p == (PreviousPosition(d).0 + d.position.0 + d.dimensions.0, PreviousPosition(d).1 + FirstHeight(d))
  {
    var previous := PreviousPosition(d);
    (previous.0 + (d.position.0 + d.dimensions.0), previous.1 + FirstHeight(d))
  }

  /** Appends an auto-laid-out Button (font size 20); existing children are unchanged. */
  function AddButton(d: Dropdown, text: string, action: string, measure: Measure): (r: Dropdown)
    ensures |r.components| == |d.components| + 1 && r.components[..|d.components|] == d.components
    ensures r.components[|d.components|] == Button(Buttons.New(text, action, 20, ChildPosition(d), measure))
    ensures Position(r.components[|d.components|]) == ChildPosition(d)
    ensures r == d.(components := r.components)
  {
    AddComponent(d, Button(Buttons.New(text, action, 20, ChildPosition(d), measure)))
  }

  /** Appends an auto-laid-out Slider with a 250-pixel track; existing children are unchanged. */
  function AddSlider(d: Dropdown, min: int, max: int, initialValue: real): (r: Dropdown)
    ensures |r.components| == |d.components| + 1 && r.components[..|d.components|] == d.components
    ensures r.components[|d.components|] == Slider(Sliders.New(min, max, initialValue, ChildPosition(d), 250))
    ensures Position(r.components[|d.components|]) == ChildPosition(d)
    ensures r == d.(components := r.components)
  {
    AddComponent(d, Slider(Sliders.New(min, max, initialValue, ChildPosition(d), 250)))
  }

  /** Appends an auto-laid-out, Closed Dropdown (font size 20); existing children are unchanged. */
  function AddDropdown(d: Dropdown, text: string, measure: Measure): (r: Dropdown)
    ensures |r.components| == |d.components| + 1 && r.components[..|d.components|] == d.components
    ensures r.components[|d.components|] == Dropdown(NewDropdown(text, 20, ChildPosition(d), measure))
    ensures Position(r.components[|d.components|]) == ChildPosition(d)
    ensures r == d.(components := r.components)
  {
    AddComponent(d, Dropdown(NewDropdown(text, 20, ChildPosition(d), measure)))
  }

  /** Auto-layout of a Dropdown: the first child goes level with the header, one header offset
      (`position.0 + dimensions.0`) right of the Dropdown's own x; each later child goes one
      first-child height below the previous one and one further header offset to the right. */
  lemma AutoLayoutSteps(d: Dropdown, text: string, action: string, measure: Measure, min: int, max: int,
                        initialValue: real)
    ensures d.components == [] ==>
      ChildPosition(d) == (d.position.0 + d.position.0 + d.dimensions.0, d.position.1)
    ensures d.components != [] ==>
      var step := (d.position.0 + d.dimensions.0, Dims(d.components[0]).1);
      && ChildPosition(AddButton(d, text, action, measure)) == (ChildPosition(d).0 + step.0, ChildPosition(d).1 + step.1)
      && ChildPosition(AddDropdown(d, text, measure)) == (ChildPosition(d).0 + step.0, ChildPosition(d).1 + step.1)
      && ChildPosition(AddSlider(d, min, max, initialValue)) == (ChildPosition(d).0 + step.0, ChildPosition(d).1 + step.1)
  {
  }

  /** Whether children are normalised to one width every frame. */
  function SetComponentsFixWidths(d: Dropdown, value: bool): (r: Dropdown)
    ensures r.componentsFixedWidths == value
    ensures r == d.(componentsFixedWidths := value)
  {
    d.(componentsFixedWidths := value)
  }

  // ---------------------------------------------------------------------------------------------
  // Dropdown resize

  /** A child moved to column `x` by a Dropdown resize. Buttons and Dropdowns move; Sliders (whose
      `move_x` is not part of this model) and Labels (which the source does not match) stay. */
  function MovedTo(c: DrawableType, x: int): (r: DrawableType)
    ensures SameKind(r, c) && Dims(r) == Dims(c) && Height(r) == Height(c)
    ensures Position(r) == if c.Button? || c.Dropdown? then (x, Position(c).1) else Position(c)
    ensures c.Button? ==> r.button == c.button.(position := (x, c.button.position.1))
    ensures c.Dropdown? ==> r.dropdown == c.dropdown.(position := (x, c.dropdown.position.1))
    ensures c.Slider? || c.Label? ==> r == c
  {
    match c
    case Button(b) => Button(b.(position := (x, b.position.1)))
    case Dropdown(e) => Dropdown(e.(position := (x, e.position.1)))
    case _ => c
  }

  /** The Dropdown resized: 10 off the requested width, and every Button and Dropdown child moved
      to the column just right of the new header. */
  function DropdownResized(d: Dropdown, dimensions: Dimensions): (r: Dropdown)
    ensures r.dimensions == (dimensions.0 - 10, dimensions.1)
    ensures |r.components| == |d.components|
    ensures forall i :: 0 <= i < |d.components| ==>
              r.components[i] == MovedTo(d.components[i], d.position.0 + 10 + r.dimensions.0)
    ensures r == d.(dimensions := r.dimensions, components := r.components)
  {
    var dims := (dimensions.0 - 10, dimensions.1);
    var x := d.position.0 + 10 + dims.0;
    d.(dimensions := dims,
       components := seq(|d.components|, i requires 0 <= i < |d.components| => MovedTo(d.components[i], x)))
  }

  /** The resize loop over the children. */
  method ResizeDropdown(d: Dropdown, dimensions: Dimensions) returns (r: Dropdown)
    ensures r == DropdownResized(d, dimensions)
  {
    var dims := (dimensions.0 - 10, dimensions.1);
    var x := d.position.0 + 10 + dims.0;
    var cs := d.components;
    var i := 0;
    while i < |cs|
      invariant 0 <= i <= |cs| && |cs| == |d.components|
      invariant forall j :: 0 <= j < i ==> cs[j] == MovedTo(d.components[j], x)
      invariant forall j :: i <= j < |cs| ==> cs[j] == d.components[j]
    {
      match cs[i] {
        case Button(b) =>
          if b.position.0 != x {
            cs := cs[i := Button(b.(position := (x, b.position.1)))];
          }
        case Dropdown(e) =>
          if e.position.0 != x {
            cs := cs[i := Dropdown(e.(position := (x, e.position.1)))];
          }
        case _ =>
      }
      i := i + 1;
    }
    r := d.(dimensions := dims, components := cs);
  }

  // ---------------------------------------------------------------------------------------------
  // Dropdown hover, toggle and frame step

  /** Whether the mouse is over the header. Inside: Hovered. Outside while Closed: Default.
      Outside while Open: the colour (Active) is kept. */
  function DropdownIsHovered(d: Dropdown, mouse: Point): (r: (Dropdown, bool))
    ensures r.1 == IsInside(d.position, d.dimensions, mouse)
    ensures r.1 ==> r.0 == d.(backgroundColour := StateGetColour(Hovered))
    ensures !r.1 && !d.show ==> r.0 == d.(backgroundColour := StateGetColour(Default))
    ensures !r.1 && d.show ==> r.0 == d
  {
    if IsInside(d.position, d.dimensions, mouse) then (d.(backgroundColour := StateGetColour(Hovered)), true)
    else if !d.show then (d.(backgroundColour := StateGetColour(Default)), false)
    else (d, false)
  }

  /** A press inside the header toggles Open/Closed and colours the header Active; anything else
      changes nothing. */
  function DropdownIsClicked(d: Dropdown, mouse: Point, clicked: bool): (r: Dropdown)
    ensures IsInside(d.position, d.dimensions, mouse) && clicked ==>
              r == d.(backgroundColour := StateGetColour(Active), show := !d.show)
    ensures !(IsInside(d.position, d.dimensions, mouse) && clicked) ==> r == d
  {
    if IsInside(d.position, d.dimensions, mouse) && clicked then
      d.(backgroundColour := StateGetColour(Active), show := !d.show)
    else d
  }

  /** Two presses inside the header restore the Open/Closed state; a press elsewhere never
      changes it. */
  lemma ToggleTwice(d: Dropdown, mouse: Point, clicked: bool)
    ensures IsInside(d.position, d.dimensions, mouse) ==>
              DropdownIsClicked(DropdownIsClicked(d, mouse, clicked), mouse, clicked).show == d.show
    ensures !IsInside(d.position, d.dimensions, mouse) ==> DropdownIsClicked(d, mouse, clicked).show == d.show
  {
  }

  /** The children a frame steps: normalised when the Dropdown is so configured. */
  function FixedWidthsIf(d: Dropdown): (cs: seq<DrawableType>)
    ensures d.componentsFixedWidths ==> cs == FixedWidths(d.components)
    ensures !d.componentsFixedWidths ==> cs == d.components
  {
    if d.componentsFixedWidths then FixedWidths(d.components) else d.components
  }

  /** One frame of a Dropdown (its `draw` without painting): the header hover colour, the action
      queue cleared, the children normalised if so configured, and, only while Open, every child
      drawn and hit-tested in order. A Button child pushes its token; a nested Dropdown is stepped
      and toggled, but its own tokens are not moved up. */
  function DropdownDrawn(d: Dropdown, f: FrameInput): (r: Dropdown)
    ensures r.show == d.show && r.position == d.position && r.dimensions == d.dimensions
    ensures r.text == d.text && r.componentsFixedWidths == d.componentsFixedWidths
    ensures |r.components| == |d.components|
    ensures r.backgroundColour == DropdownIsHovered(d, f.mouse).0.backgroundColour
    ensures r.fontSize == d.fontSize && r.textColour == d.textColour
    ensures !d.show ==> r.actions == [] && r.components == FixedWidthsIf(d)
    decreases Depth(d), 0, 0
  {
    var hovered := DropdownIsHovered(d, f.mouse).0;
    var cs := FixedWidthsIf(d);
    FixedWidthsHeight(d.components);
    if d.show then
      var stepped := ChildrenDrawn(cs, f);
      hovered.(actions := stepped.1, components := stepped.0)
    else
      hovered.(actions := [], components := cs)
  }

  /** The children's part of a frame step, in order. */
  function ChildrenDrawn(cs: seq<DrawableType>, f: FrameInput): (r: (seq<DrawableType>, seq<string>))
    ensures |r.0| == |cs|
    decreases HeightOf(cs), 1, |cs|
  {
    if cs == [] then ([], [])
    else
      var init := ChildrenDrawn(cs[..|cs| - 1], f);
      var child := ChildDrawn(cs[|cs| - 1], f, HeightOf(cs));
      (init.0 + [child.0], init.1 + child.1)
  }

  /** One child's part of a frame step: the child after drawing and hit-testing, and the tokens
      it pushes. `bound` only carries the termination measure. */
  function ChildDrawn(c: DrawableType, f: FrameInput, bound: nat): (r: (DrawableType, seq<string>))
    requires Height(c) <= bound
    ensures SameKind(r.0, c)
    decreases bound, 1, 0
  {
    match c
    case Button(b) =>
      var b' := Buttons.Draw(b, f.mouse);
      (Button(b'), [Buttons.IsClicked(b', f.mouse, f.pressed)])
    case Slider(s) => (Slider(Sliders.IsClicked(Sliders.Draw(s, f.mouse), f.mouse, f.down)), [])
    case Label(l) => (Label(Labels.IsClicked(Labels.Draw(l, f.mouse), f.mouse, f.pressed)), [])
    case Dropdown(e) => (Dropdown(DropdownIsClicked(DropdownDrawn(e, f), f.mouse, f.pressed)), [])
  }

  /** The children's step pushes exactly one token per Button child, in order, empty tokens
      included, and nothing from nested Dropdowns. */
  lemma {:induction false} ChildrenDrawnTokens(cs: seq<DrawableType>, f: FrameInput)
    ensures ChildrenDrawn(cs, f).1 == ButtonTokens(cs, f)
    decreases |cs|
  {
    if cs != [] {
      var init := cs[..|cs| - 1];
      ChildrenDrawnTokens(init, f);
      assert init + [cs[|cs| - 1]] == cs;
      ButtonTokensSnoc(init, cs[|cs| - 1], f);
      if cs[|cs| - 1].Button? {
        Buttons.DrawKeepsToken(cs[|cs| - 1].button, f.mouse, f.mouse, f.pressed);
      }
    }
  }

  /** The children's step updates each child on its own, in place: the `i`-th result is the
      `i`-th child's own step, so kinds and order are kept. */
  lemma {:induction false} ChildrenDrawnPointwise(cs: seq<DrawableType>, f: FrameInput)
    ensures |ChildrenDrawn(cs, f).0| == |cs|
    ensures forall i :: 0 <= i < |cs| ==>
      ChildrenDrawn(cs, f).0[i] == ChildDrawn(cs[i], f, Height(cs[i])).0
    ensures forall i :: 0 <= i < |cs| ==> SameKind(ChildrenDrawn(cs, f).0[i], cs[i])
    decreases |cs|
  {
    if cs != [] {
      var init := cs[..|cs| - 1];
      ChildrenDrawnPointwise(init, f);
      forall i | 0 <= i < |cs|
        ensures ChildrenDrawn(cs, f).0[i] == ChildDrawn(cs[i], f, Height(cs[i])).0
      {
        HeightBound(cs, i);
        if i < |cs| - 1 {
          assert init[i] == cs[i];
        } else {
          ChildDrawnBound(cs[i], f, Height(cs[i]), HeightOf(cs));
        }
      }
    }
  }

  /** A Closed Dropdown hit-tests no child and collects no action; an Open one steps every
      (normalised) child in place and collects exactly one token per Button child, in order. */
  lemma DropdownDrawnActions(d: Dropdown, f: FrameInput)
    ensures var cs := FixedWidthsIf(d);
      && (!d.show ==> DropdownDrawn(d, f).actions == [] && DropdownDrawn(d, f).components == cs)
      && (d.show ==> DropdownDrawn(d, f).components == ChildrenDrawn(cs, f).0)
      && (d.show ==> DropdownDrawn(d, f).actions == ButtonTokens(cs, f))
  {
    var cs := FixedWidthsIf(d);
    if d.show {
      ChildrenDrawnTokens(cs, f);
    }
  }

  /** A child's step does not depend on the termination bound it is given. */
  lemma ChildDrawnBound(c: DrawableType, f: FrameInput, b1: nat, b2: nat)
    requires Height(c) <= b1 && Height(c) <= b2
    ensures ChildDrawn(c, f, b1) == ChildDrawn(c, f, b2)
  {
  }

  /** One child's step, running a nested Dropdown's own loop. */
  method DrawChild(c: DrawableType, f: FrameInput, ghost bound: nat) returns (r: (DrawableType, seq<string>))
    requires Height(c) <= bound
    ensures r == ChildDrawn(c, f, bound)
    decreases bound, 1
  {
    match c
    case Button(b) =>
      var b' := Buttons.Draw(b, f.mouse);
      r := (Button(b'), [Buttons.IsClicked(b', f.mouse, f.pressed)]);
    case Slider(s) =>
      r := (Slider(Sliders.IsClicked(Sliders.Draw(s, f.mouse), f.mouse, f.down)), []);
    case Label(l) =>
      r := (Label(Labels.IsClicked(Labels.Draw(l, f.mouse), f.mouse, f.pressed)), []);
    case Dropdown(e) =>
      var e' := DrawDropdown(e, f);
      r := (Dropdown(DropdownIsClicked(e', f.mouse, f.pressed)), []);
  }

  /** The frame step of one Dropdown: hover, clear, normalise, then the children's loop. */
  method DrawDropdown(d: Dropdown, f: FrameInput) returns (r: Dropdown)
    ensures r == DropdownDrawn(d, f)
    decreases Depth(d), 0
  {
    var hovered := DropdownIsHovered(d, f.mouse).0;
    var cs := d.components;
    if d.componentsFixedWidths {
      cs := FixWidths(cs);
    }
    FixedWidthsHeight(d.components);
    if !d.show {
      return hovered.(actions := [], components := cs);
    }
    var done, actions := DrawChildren(cs, f, HeightOf(cs));
    r := hovered.(actions := actions, components := done);
  }

  /** The loop over an Open Dropdown's children, updating each in place. */
  method DrawChildren(cs: seq<DrawableType>, f: FrameInput, ghost bound: nat)
    returns (done: seq<DrawableType>, actions: seq<string>)
    requires HeightOf(cs) <= bound
    ensures (done, actions) == ChildrenDrawn(cs, f)
    decreases bound, 2
  {
    actions := [];
    done := cs;
    var i := 0;
    while i < |cs|
      invariant 0 <= i <= |cs| && |done| == |cs|
      invariant ChildrenDrawn(cs[..i], f) == (done[..i], actions)
      invariant done[i..] == cs[i..]
    {
      assert cs[..i + 1][..i] == cs[..i];
      assert cs[..i + 1][i] == cs[i];
      HeightBound(cs, i);
      HeightBound(cs[..i + 1], i);
      var step := DrawChild(cs[i], f, HeightOf(cs));
      ChildDrawnBound(cs[i], f, HeightOf(cs), HeightOf(cs[..i + 1]));
      done := done[i := step.0];
      actions := actions + step.1;
      assert done[..i + 1] == done[..i] + [done[i]];
      i := i + 1;
    }
    assert cs[..i] == cs && done[..i] == done;
  }

  // ---------------------------------------------------------------------------------------------
  // Queries over the children

  /** A Slider's value by index among the Sliders: an error at or past the number of Sliders. */
  function SliderValueAt(cs: seq<DrawableType>, index: nat): (r: Result<real>)
    ensures r.Err? <==> index >= |SlidersOf(cs)|
    ensures r.Ok? ==> r.value == SlidersOf(cs)[index].value
    ensures r.Err? ==> r.message == SliderIndexMessage
  {
    var sliders := SlidersOf(cs);
    if index >= |sliders| then Err(SliderIndexMessage) else Ok(Sliders.GetValue(sliders[index]))
  }

  /** The lookup loop: collect the Sliders, then check the index with the corrected guard. */
  method SliderValue(cs: seq<DrawableType>, index: nat) returns (r: Result<real>)
    ensures r == SliderValueAt(cs, index)
  {
    var sliders := Collect(cs, AsSlider);
    if index >= |sliders| {
      return Err(SliderIndexMessage);
    }
    r := Ok(Sliders.GetValue(sliders[index]));
  }

  /** The same lookup truncated to an integer, as `as i32` does. */
  function SliderValueI32(cs: seq<DrawableType>, index: nat): (r: Result<int>)
    ensures r.Ok? <==> SliderValueAt(cs, index).Ok?
    ensures r.Ok? ==> r.value == Trunc(SliderValueAt(cs, index).value)
    ensures r.Err? ==> r.message == SliderIndexMessage
  {
    match SliderValueAt(cs, index)
    case Ok(v) => Ok(Trunc(v))
    case Err(e) => Err(e)
  }

  /** The outcome of the lookup as the source writes it. */
  datatype Lookup = Found(value: real) | Rejected | OutOfBounds

  /** The lookup with the source's guard `index > len`: an index equal to the number of Sliders
      passes the guard and then indexes past the end, a panic. */
  function SliderValueAsWritten(cs: seq<DrawableType>, index: nat): (r: Lookup)
    ensures r.Rejected? <==> index > |SlidersOf(cs)|
    ensures r.OutOfBounds? <==> index == |SlidersOf(cs)|
    ensures r.Found? ==> index < |SlidersOf(cs)| && r.value == SlidersOf(cs)[index].value
  {
    var sliders := SlidersOf(cs);
    if index > |sliders| then Rejected
    else if index < |sliders| then Found(sliders[index].value)
    else OutOfBounds
  }

  /** The source's guard lets exactly one bad index through, one past the end; everywhere else the
      corrected lookup agrees with it. */
  lemma AsWrittenGuardOffByOne(cs: seq<DrawableType>, index: nat)
    ensures SliderValueAsWritten(cs, |SlidersOf(cs)|) == OutOfBounds
    ensures SliderValueAt(cs, |SlidersOf(cs)|).Err?
    ensures index != |SlidersOf(cs)| ==>
      (SliderValueAsWritten(cs, index).Found? <==> SliderValueAt(cs, index).Ok?)
      && (SliderValueAt(cs, index).Ok? ==> SliderValueAsWritten(cs, index).value == SliderValueAt(cs, index).value)
  {
  }

  /** The Dropdown children, in order, without descending into them; the source always succeeds. */
  method GetDropdowns(d: Dropdown) returns (r: Result<seq<Dropdown>>)
    ensures r == Ok(DropdownsOf(d.components))
    ensures forall e :: e in r.value <==> Dropdown(e) in d.components
  {
    var ds := Collect(d.components, AsDropdown);
    forall e ensures e in ds <==> Dropdown(e) in d.components {
      PickMembership(d.components, AsDropdown, e);
    }
    r := Ok(ds);
  }

  /** The children after the caller writes `e` through the `k`-th Dropdown reference that
      `get_dropdowns_mut` hands out: the Dropdown child with exactly `k` Dropdowns before it
      becomes `e`, and every other child stays in its place unchanged. */
  function ReplaceDropdown(cs: seq<DrawableType>, k: nat, e: Dropdown): (r: seq<DrawableType>)
    requires k < |DropdownsOf(cs)|
    ensures |r| == |cs|
    ensures forall i :: 0 <= i < |cs| ==>
      r[i] == if cs[i].Dropdown? && |DropdownsOf(cs[..i])| == k then Dropdown(e) else cs[i]
    decreases |cs|
  {
    var init, last := cs[..|cs| - 1], cs[|cs| - 1];
    assert init + [last] == cs;
    PickSnoc(init, last, AsDropdown);
    assert forall i :: 0 <= i < |init| ==> cs[..i] == init[..i];
    if last.Dropdown? && k == |DropdownsOf(init)| then
      assert forall i :: 0 <= i < |init| && init[i].Dropdown? ==> |DropdownsOf(init[..i])| < k by {
        forall i | 0 <= i < |init| && init[i].Dropdown? ensures |DropdownsOf(init[..i])| < k {
          PrefixPickShorter(init, i, AsDropdown);
        }
      }
      init + [Dropdown(e)]
    else
      ReplaceDropdown(init, k, e) + [last]
  }

  /** A widget of the selected kind at index `i` is preceded by fewer selected widgets than the
      whole collection holds. */
  lemma {:induction false} PrefixPickShorter<T>(cs: seq<DrawableType>, i: nat, sel: DrawableType -> Option<T>)
    requires i < |cs|
    ensures |Pick(cs[..i], sel)| + |OptionToSeq(sel(cs[i]))| <= |Pick(cs, sel)|
    decreases |cs|
  {
    var init, last := cs[..|cs| - 1], cs[|cs| - 1];
    assert init + [last] == cs;
    PickSnoc(init, last, sel);
    if i < |init| {
      PrefixPickShorter(init, i, sel);
      assert cs[..i] == init[..i];
    } else {
      assert cs[..i] == init;
    }
  }

  /** Writing through the `k`-th reference leaves every selection that ignores Dropdowns alone:
      the Buttons, Sliders and Labels are as before. */
  lemma {:induction false} ReplaceDropdownKeepsOthers<T>(cs: seq<DrawableType>, k: nat, e: Dropdown,
                                                           sel: DrawableType -> Option<T>)
    requires k < |DropdownsOf(cs)|
    requires forall x :: sel(DrawableType.Dropdown(x)) == None
    ensures Pick(ReplaceDropdown(cs, k, e), sel) == Pick(cs, sel)
    decreases |cs|
  {
    var init, last := cs[..|cs| - 1], cs[|cs| - 1];
    var r := ReplaceDropdown(cs, k, e);
    assert init + [last] == cs;
    PickAppend(init, [last], AsDropdown);
    PickSingle(last, AsDropdown);
    if last.Dropdown? && k == |DropdownsOf(init)| {
      assert r[..|r| - 1] == init;
    } else {
      ReplaceDropdownKeepsOthers(init, k, e, sel);
      assert r[..|r| - 1] == ReplaceDropdown(init, k, e);
    }
  }

  /** Writing through the `k`-th reference replaces exactly the `k`-th Dropdown child; the other
      Dropdowns are as before. */
  lemma {:induction false} ReplaceDropdownExact(cs: seq<DrawableType>, k: nat, e: Dropdown)
    requires k < |DropdownsOf(cs)|
    ensures DropdownsOf(ReplaceDropdown(cs, k, e)) == DropdownsOf(cs)[k := e]
    decreases |cs|
  {
    var init, last := cs[..|cs| - 1], cs[|cs| - 1];
    assert init + [last] == cs;
    PickSnoc(init, last, AsDropdown);
    if last.Dropdown? && k == |DropdownsOf(init)| {
      assert ReplaceDropdown(cs, k, e) == init + [DrawableType.Dropdown(e)];
      ReplaceLast(init, last.dropdown, e);
    } else {
      assert ReplaceDropdown(cs, k, e) == ReplaceDropdown(init, k, e) + [last];
      ReplaceDropdownExact(init, k, e);
      ReplaceBefore(ReplaceDropdown(init, k, e), init, last, k, e);
    }
  }

  /** The step of `ReplaceDropdownExact` where the last child is the one replaced. */
  lemma ReplaceLast(init: seq<DrawableType>, previous: Dropdown, e: Dropdown)
    ensures DropdownsOf(init + [DrawableType.Dropdown(e)])
         == DropdownsOf(init + [DrawableType.Dropdown(previous)])[|DropdownsOf(init)| := e]
  {
    PickSnoc(init, DrawableType.Dropdown(e), AsDropdown);
    PickSnoc(init, DrawableType.Dropdown(previous), AsDropdown);
  }

  /** The step of `ReplaceDropdownExact` where the replaced child comes before the last one. */
  lemma ReplaceBefore(rest: seq<DrawableType>, init: seq<DrawableType>, last: DrawableType, k: nat, e: Dropdown)
    requires k < |DropdownsOf(init)|
    requires DropdownsOf(rest) == DropdownsOf(init)[k := e]
    ensures DropdownsOf(rest + [last]) == DropdownsOf(init + [last])[k := e]
  {
    PickSnoc(rest, last, AsDropdown);
    PickSnoc(init, last, AsDropdown);
    UpdateAppend(DropdownsOf(init), OptionToSeq(AsDropdown(last)), k, e);
  }

  /** Updating an element of the first part of a concatenation. */
  lemma UpdateAppend<T>(a: seq<T>, b: seq<T>, k: nat, x: T)
    requires k < |a|
    ensures (a + b)[k := x] == a[k := x] + b
  {
  }

  /** Selecting from a collection extended by one widget. */
  lemma PickSnoc<T>(cs: seq<DrawableType>, c: DrawableType, sel: DrawableType -> Option<T>)
    ensures Pick(cs + [c], sel) == Pick(cs, sel) + OptionToSeq(sel(c))
  {
    assert (cs + [c])[..|cs + [c]| - 1] == cs;
  }

  /** `get_dropdowns_mut` followed by a write to its `k`-th element. */
  function WithDropdown(d: Dropdown, k: nat, e: Dropdown): (r: Dropdown)
    requires k < |DropdownsOf(d.components)|
    ensures DropdownsOf(r.components) == DropdownsOf(d.components)[k := e]
    ensures ButtonsOf(r.components) == ButtonsOf(d.components)
    ensures SlidersOf(r.components) == SlidersOf(d.components)
    ensures LabelsOf(r.components) == LabelsOf(d.components)
    ensures |r.components| == |d.components|
    ensures forall i :: 0 <= i < |d.components| ==>
      && SameKind(r.components[i], d.components[i])
      && (!d.components[i].Dropdown? ==> r.components[i] == d.components[i])
      && (d.components[i].Dropdown? && |DropdownsOf(d.components[..i])| == k ==> r.components[i] == Dropdown(e))
      && (d.components[i].Dropdown? && |DropdownsOf(d.components[..i])| != k ==> r.components[i] == d.components[i])
    ensures r == d.(components := r.components)
  {
    ReplaceDropdownExact(d.components, k, e);
    ReplaceDropdownKeepsOthers(d.components, k, e, AsButton);
    ReplaceDropdownKeepsOthers(d.components, k, e, AsSlider);
    ReplaceDropdownKeepsOthers(d.components, k, e, AsLabel);
    d.(components := ReplaceDropdown(d.components, k, e))
  }
}
