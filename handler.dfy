/** The top-level handler (src/gui_handler.rs): an ordered list of Buttons and Sliders with
    auto-layout, optional width normalisation, a configuration guard, and the per-frame action
    queue with its dispatch. */
module Handler {
  import opened Theme
  import opened Geometry
  import opened Outcomes
  import Buttons
  import Sliders
  import opened Widgets

  /** The handler only ever holds Buttons and Sliders: those are the only widgets it can add, and
      the only variants its loops match. */
  predicate OnlyButtonsAndSliders(cs: seq<DrawableType>)
  {
    forall i :: 0 <= i < |cs| ==> cs[i].Button? || cs[i].Slider?
  }

  /** The first component's dimensions, or (0, 50) when there is none. */
  function FirstDimensions(cs: seq<DrawableType>): (d: Dimensions)
    ensures cs == [] ==> d == (0, 50)
    ensures cs != [] ==> d == Dims(cs[0])
  {
    if cs == [] then (0, 50) else Dims(cs[0])
  }

  /** The last component's position, or (0, 0) when there is none. */
  function LastPosition(cs: seq<DrawableType>): (p: Point)
    ensures cs == [] ==> p == (0, 0)
    ensures cs != [] ==> p == Position(cs[|cs| - 1])
  {
    if cs == [] then (0, 0) else Position(cs[|cs| - 1])
  }

  /** Where an auto-laid-out component goes: the column of the last component, one first-component
      height below it; the first one lands at (0, 50). */
  function AutoPosition(cs: seq<DrawableType>): (p: Point)
    ensures cs == [] ==> p == (0, 50)
    ensures cs != [] ==> p == (Position(cs[|cs| - 1]).0, Position(cs[|cs| - 1]).1 + Dims(cs[0]).1)
  {
    (LastPosition(cs).0, LastPosition(cs).1 + FirstDimensions(cs).1)
  }

  /** The components as the hit-test pass sees them: normalised when the flag is set. */
  function Prepared(cs: seq<DrawableType>, fixedWidths: bool): (r: seq<DrawableType>)
    ensures |r| == |cs|
    ensures forall i :: 0 <= i < |cs| ==> SameKind(r[i], cs[i]) && Position(r[i]) == Position(cs[i])
    ensures !fixedWidths ==> r == cs
  {
    FixedWidthsShape(cs);
    if fixedWidths then FixedWidths(cs) else cs
  }

  /** Preparation keeps the handler's kinds, order and count; with the flag set every component
      ends exactly as wide as the widest one was and keeps its height and position. */
  lemma PreparedShape(cs: seq<DrawableType>, fixedWidths: bool)
    requires OnlyButtonsAndSliders(cs)
    ensures OnlyButtonsAndSliders(Prepared(cs, fixedWidths)) && |Prepared(cs, fixedWidths)| == |cs|
    ensures !fixedWidths ==> Prepared(cs, fixedWidths) == cs
    ensures fixedWidths ==> forall i :: 0 <= i < |cs| ==>
      && SameKind(Prepared(cs, fixedWidths)[i], cs[i])
      && Dims(Prepared(cs, fixedWidths)[i]) == (Widest(cs), Dims(cs[i]).1)
      && Position(Prepared(cs, fixedWidths)[i]) == Position(cs[i])
      && Widest(cs) >= Dims(cs[i]).0
  {
    if fixedWidths {
      FixedWidthsShape(cs);
    }
  }

  class GuiHandler {
    var actions: seq<string>
    var clearColour: Colour
    var componentsFixedWidths: bool
    var components: seq<DrawableType>
    var hasSetButtonAction: bool
    /** The tokens the callback has been called with, in call order. */
    ghost var dispatched: seq<string>

    ghost predicate Valid()
      reads this
    {
      OnlyButtonsAndSliders(components)
    }

    /** A new handler: nothing added, no actions, no callback, no normalisation. */
    constructor(clearColour: Colour)
      ensures Valid()
      ensures actions == [] && components == [] && dispatched == []
      ensures !hasSetButtonAction && !componentsFixedWidths && this.clearColour == clearColour
    {
      actions := [];
      this.clearColour := clearColour;
      componentsFixedWidths := false;
      components := [];
      hasSetButtonAction := false;
      dispatched := [];
    }

    /** Registers the callback, which lifts the configuration guard for good. */
    method SetButtonActionFunction()
      modifies this
      ensures hasSetButtonAction
      ensures actions == old(actions) && components == old(components) && dispatched == old(dispatched)
      ensures componentsFixedWidths == old(componentsFixedWidths) && clearColour == old(clearColour)
    {
      hasSetButtonAction := true;
    }

    method SetComponentsFixWidths(value: bool)
      modifies this
      ensures componentsFixedWidths == value
      ensures actions == old(actions) && components == old(components) && dispatched == old(dispatched)
      ensures hasSetButtonAction == old(hasSetButtonAction) && clearColour == old(clearColour)
    {
      componentsFixedWidths := value;
    }

    /** Appends one component; nothing else changes. */
    method Push(c: DrawableType)
      requires Valid() && (c.Button? || c.Slider?)
      modifies this
      ensures Valid()
      ensures components == old(components) + [c]
      ensures actions == old(actions) && dispatched == old(dispatched)
      ensures hasSetButtonAction == old(hasSetButtonAction) && componentsFixedWidths == old(componentsFixedWidths)
      ensures clearColour == old(clearColour)
    {
      components := components + [c];
    }

    /** Appends a Button (font size 20) at exactly `position`. */
    method AddButtonWithPosition(text: string, action: string, position: Point, measure: Measure)
      requires Valid()
      modifies this
      ensures Valid()
      ensures components == old(components) + [Button(Buttons.New(text, action, 20, position, measure))]
      ensures Position(components[|components| - 1]) == position
      ensures actions == old(actions) && dispatched == old(dispatched)
      ensures hasSetButtonAction == old(hasSetButtonAction) && componentsFixedWidths == old(componentsFixedWidths)
      ensures clearColour == old(clearColour)
    {
      Push(Button(Buttons.New(text, action, 20, position, measure)));
    }

    /** Appends an auto-laid-out Button (font size 20). */
    method AddButton(text: string, action: string, measure: Measure)
      requires Valid()
      modifies this
      ensures Valid()
      ensures components == old(components) + [Button(Buttons.New(text, action, 20, AutoPosition(old(components)), measure))]
      ensures actions == old(actions) && dispatched == old(dispatched)
      ensures hasSetButtonAction == old(hasSetButtonAction) && componentsFixedWidths == old(componentsFixedWidths)
      ensures clearColour == old(clearColour)
    {
      var first := FirstDimensions(components);
      var previous := LastPosition(components);
      Push(Button(Buttons.New(text, action, 20, (previous.0, previous.1 + first.1), measure)));
    }

    /** Appends a Slider with a 100-pixel track at exactly `position`. */
    method AddSliderWithPosition(min: int, max: int, initialValue: real, position: Point)
      requires Valid()
      modifies this
      ensures Valid()
      ensures components == old(components) + [Slider(Sliders.New(min, max, initialValue, position, 100))]
      ensures Position(components[|components| - 1]) == position
      ensures actions == old(actions) && dispatched == old(dispatched)
      ensures hasSetButtonAction == old(hasSetButtonAction) && componentsFixedWidths == old(componentsFixedWidths)
      ensures clearColour == old(clearColour)
    {
      Push(Slider(Sliders.New(min, max, initialValue, position, 100)));
    }

    /** Appends an auto-laid-out Slider with a 250-pixel track. */
    method AddSlider(min: int, max: int, initialValue: real)
      requires Valid()
      modifies this
      ensures Valid()
      ensures components == old(components) + [Slider(Sliders.New(min, max, initialValue, AutoPosition(old(components)), 250))]
      ensures actions == old(actions) && dispatched == old(dispatched)
      ensures hasSetButtonAction == old(hasSetButtonAction) && componentsFixedWidths == old(componentsFixedWidths)
      ensures clearColour == old(clearColour)
    {
      var first := FirstDimensions(components);
      var previous := LastPosition(components);
      Push(Slider(Sliders.New(min, max, initialValue, (previous.0, previous.1 + first.1), 250)));
    }

    /** The value of the `index`-th Slider, with the corrected bound check. */
    method GetSliderValue(index: nat) returns (r: Result<real>)
      ensures r == SliderValueAt(components, index)
      ensures r.Err? <==> index >= |SlidersOf(components)|
    {
      r := SliderValue(components, index);
    }

    /** The same value truncated toward zero, as `as i32` does. */
    method GetSliderValueI32(index: nat) returns (r: Result<int>)
      ensures r == SliderValueI32(components, index)
    {
      var v := GetSliderValue(index);
      match v
      case Ok(x) => r := Ok(Trunc(x));
      case Err(e) => r := Err(e);
    }

    /** Normalises every component to the widest width. */
    method ComponentsFixWidths()
      requires Valid()
      modifies this
      ensures Valid()
      ensures components == FixedWidths(old(components))
      ensures actions == old(actions) && dispatched == old(dispatched)
      ensures hasSetButtonAction == old(hasSetButtonAction) && componentsFixedWidths == old(componentsFixedWidths)
      ensures clearColour == old(clearColour)
    {
      PreparedShape(components, true);
      components := FixWidths(components);
    }

    /** One frame without painting. The queue is cleared first; with Buttons present and no
        callback registered nothing else happens and the call fails. Otherwise the components
        are normalised if so configured and each one is drawn and hit-tested in order, every Button
        pushing exactly one token. */
    method Draw(f: FrameInput) returns (r: Result<()>)
      requires Valid()
      modifies this
      ensures Valid()
      ensures hasSetButtonAction == old(hasSetButtonAction) && componentsFixedWidths == old(componentsFixedWidths)
      ensures clearColour == old(clearColour) && dispatched == old(dispatched)
      ensures r.Err? <==> !hasSetButtonAction && |ButtonsOf(old(components))| != 0
      ensures r.Err? ==> r.message == NoActionMessage && components == old(components) && actions == []
      ensures r.Ok? ==> components == ChildrenDrawn(Prepared(old(components), componentsFixedWidths), f).0
      ensures r.Ok? ==> actions == ButtonTokens(Prepared(old(components), componentsFixedWidths), f)
    {
      actions := [];
      var buttons := Collect(components, AsButton);
      if !hasSetButtonAction && |buttons| != 0 {
        return Err(NoActionMessage);
      }
      if componentsFixedWidths {
        ComponentsFixWidths();
      }
      assert components == Prepared(old(components), componentsFixedWidths);
      components, actions := HitTestPass(components, f);
      r := Ok(());
    }

    /** Calls the callback once per queued token, in order, empty tokens included. The queue is
        not cleared. */
    method ExecuteActions()
      modifies this`dispatched
      ensures dispatched == old(dispatched) + actions
    {
      var i := 0;
      while i < |actions|
        invariant 0 <= i <= |actions|
        invariant dispatched == old(dispatched) + actions[..i]
      {
        dispatched := dispatched + [actions[i]];
        i := i + 1;
      }
      assert actions[..i] == actions;
    }
  }

  /** The hit-test pass over the handler's components: each one drawn and hit-tested in place,
      in order, every Button pushing exactly one token (its own, perhaps empty). */
  method HitTestPass(cs: seq<DrawableType>, f: FrameInput) returns (done: seq<DrawableType>, actions: seq<string>)
    requires OnlyButtonsAndSliders(cs)
    ensures (done, actions) == ChildrenDrawn(cs, f)
    ensures OnlyButtonsAndSliders(done) && actions == ButtonTokens(cs, f)
  {
    done, actions := cs, [];
    var i := 0;
    while i < |done|
      invariant 0 <= i <= |done| == |cs|
      invariant ChildrenDrawn(cs[..i], f) == (done[..i], actions)
      invariant done[i..] == cs[i..]
    {
      assert cs[..i + 1][..i] == cs[..i];
      assert cs[..i + 1][i] == cs[i];
      assert done[i] == cs[i];
      ghost var step := ChildDrawn(cs[i], f, HeightOf(cs[..i + 1]));
      ghost var prev, before := done, actions;
      assert ChildrenDrawn(cs[..i + 1], f) == (done[..i] + [step.0], actions + step.1);
      if done[i].Button? {
        var b := Buttons.Draw(done[i].button, f.mouse);
        done := done[i := Button(b)];
        actions := actions + [Buttons.IsClicked(b, f.mouse, f.pressed)];
        assert step == (done[i], [Buttons.IsClicked(b, f.mouse, f.pressed)]);
      } else {
        var s := Sliders.Draw(done[i].slider, f.mouse);
        done := done[i := Slider(Sliders.IsClicked(s, f.mouse, f.down))];
        assert step == (done[i], []);
        assert before + step.1 == actions;
      }
      assert done[..i] == prev[..i];
      assert done[..i + 1] == done[..i] + [done[i]];
      assert ChildrenDrawn(cs[..i + 1], f) == (done[..i + 1], actions);
      i := i + 1;
    }
    assert cs[..i] == cs && done[..i] == done;
    ChildrenDrawnTokens(cs, f);
    ChildrenDrawnPointwise(cs, f);
  }

  /** Dispatching twice without a frame in between dispatches the same tokens twice. */
  method ExecuteTwice(h: GuiHandler)
    modifies h
    ensures h.dispatched == old(h.dispatched) + old(h.actions) + old(h.actions)
    ensures h.actions == old(h.actions) && h.components == old(h.components)
  {
    h.ExecuteActions();
    h.ExecuteActions();
  }

  /** A handler holding a Button refuses to draw until a callback is registered, and registers
      exactly one token per frame afterwards. */
  method GuardLiftedByCallback(text: string, action: string, measure: Measure, f: FrameInput)
    returns (before: Result<()>, after: Result<()>, tokens: seq<string>)
    ensures before == Err(NoActionMessage)
    ensures after.Ok?
    ensures |tokens| == 1
    ensures tokens[0] == if IsInside((0, 50), (measure(text, 20) + 10, 50), f.mouse) && f.pressed then action else ""
  {
    var h := new GuiHandler(Theme.WHITE);
    h.AddButton(text, action, measure);
    ghost var b := Buttons.New(text, action, 20, (0, 50), measure);
    assert h.components == [Button(b)];
    PickSingle(Button(b), AsButton);
    before := h.Draw(f);
    h.SetButtonActionFunction();
    after := h.Draw(f);
    tokens := h.actions;
  }
}
