# ptgui widget state, in Dafny

This project models the state logic of `ptgui`. `ptgui` is an immediate-mode widget toolkit on top of
a 2D drawing backend. It covers:

- the integer hit test every widget uses;
- the four-state colour table;
- Buttons: size from the measured text, hover colour and the action token they emit;
- Labels, which are inert;
- Sliders: clamped initial value, track and box geometry, a drag that keeps the box inside the
  track, and the value mapped back from the box;
- the widget union `DrawableType` (Button, Slider, Label, Dropdown), which dispatches position,
  size, resize, drawing and hit-testing by variant and collects action tokens;
- the Dropdown container: its Closed/Open toggle, the auto-layout of its children, uniform
  widths, child resize, slider lookup by index, `get_dropdowns(_mut)`, and its per-frame step;
- the `GuiHandler`: an ordered list of Buttons and Sliders with auto-layout, width
  normalisation, the configuration guard (no drawing while Buttons exist and no callback is
  registered), the per-frame action queue, and `execute_actions`.

A frame is a `FrameInput(mouse, pressed, down)`:

- `pressed` is the edge "the left button went down this frame";
- `down` is the level "the left button is held".

Painting is dropped. The text measurement of the backend is a parameter, `measure: (string, int) -> int`.
The application callback is represented by a ghost log, `dispatched`, of the tokens it was called
with.

Module layout:

- `theme.dfy`: `Theme`, the colour table.
- `geometry.dfy`: `Geometry`, points, frames, the hit test, and Rust's truncating `as i32` and `/`.
- `outcomes.dfy`: `Outcomes`, `Result`, `Option` and the source's error strings.
- `button.dfy`, `label.dfy` and `slider.dfy`: the three leaf widgets.
- `widgets.dfy`: `Widgets`, the union together with the Dropdown, because each contains the other.
- `handler.dfy`: `Handler`, the `GuiHandler` class.

Each widget is a datatype value. Each of its `&mut self` operations becomes a function returning
the updated widget. The source's loops become methods with `while` loops, and each method is proved
equal to a specification function. The handler is a class whose methods update its fields.

The model follows the code as written on these points:

- `set_text` sets the width to the measured text, with no 10-pixel margin. It does not store the
  new text.
- `execute_actions` calls the callback for every queued token, including the empty token `""`.
- An open Dropdown's frame step does not move the tokens collected by a nested Dropdown up to its
  own queue. Tokens move up only where the union's `is_clicked` appends a Dropdown's queue to the
  caller's.
- The handler's guard counts only top-level Buttons.
- While the mouse is outside an open Dropdown's header, `is_hovered` leaves the header colour as
  it is. It does not set it to Active.
- Auto-layout inside a Dropdown adds the header offset `position.0 + dimensions.0` to the previous
  child's x, so each child sits one offset further right than the one before
  (`Widgets.AutoLayoutSteps`). The first child is not placed at (0, 0).
- With fixed widths on, every frame, Open or Closed, resizes each Dropdown child to the widest
  width, and a Dropdown's resize takes 10 off. A Dropdown whose children are all Dropdowns
  therefore lowers their common width by 10 more on every frame while the widest width is at
  least -1: from a widest width of at least 19, two frames leave every child at the original
  widest width minus 20 (`Widgets.DropdownChildrenNarrow`). The widest-width fold starts from
  -1, so once every child is at most -1 wide they all go to -11 and stay there
  (`Widgets.DropdownChildrenFloor`).

The mid-redesign source has a few inconsistencies, and the model settles them as follows:

- `Button` carries an `action` field.
- `Button::is_clicked` returns that action when the mouse is inside and the press flag is set, and
  `""` otherwise. The body of `Button::is_clicked` is not part of this model and this is its assumed
  behaviour.
- The union has a `Label` variant, as `src/label.rs:113` uses it.
- The handler holds only Buttons and Sliders (`Handler.GuiHandler.Valid`), which is all its `add_*`
  operations create and all its loops match.

## Model

| member | source | states |
|---|---|---|
| Theme.StateGetColour | src/gui_theme.rs:10-16 | DARKGRAY exactly for Hovered and Active, GRAY exactly for Default, RAYWHITE exactly for Text |
| Theme.StatesDistinguishable | src/gui_theme.rs:12-14 | Hovered and Active share a colour; Default, Hovered and Text colours are pairwise different |
| Geometry.IsInside | src/common.rs:3-15 | Holds iff `p.0 < m.0 < p.0+d.0` and `p.1 < m.1 < p.1+d.1`. The eight corner comparisons collapse to four strict bounds |
| Geometry.EdgesNeverInside | src/common.rs:11-14 | A point on any edge line of the rectangle, corners included, is never inside |
| Geometry.ThinRectangleEmpty | src/common.rs:11-14 | A rectangle at most 1 wide or high, negative sizes included, contains no point |
| Geometry.Quot | src/slider.rs:150 | Rust's `/` on `i32` for a positive divisor: the remainder is below the divisor and has the dividend's sign, so the quotient rounds toward zero |
| Geometry.Trunc | src/slider.rs:29-31 | `as i32` rounds toward zero: the result is within one of `x`, on the side of zero |
| Geometry.TruncBetween | src/slider.rs:57-60 | Truncating a value between two integers stays between them |
| Geometry.TruncOfInteger | src/slider.rs:29-31 | Truncation keeps whole numbers |
| Buttons.New | src/button.rs:18-27 | Dimensions `(measure(text, size) + 10, 50)`, colour Default, the given text, size and position |
| Buttons.NewWithDimensions | src/button.rs:30-43 | Stores exactly the given dimensions; colour Default |
| Buttons.Resize | src/button.rs:55-57 | Replaces the dimensions; position, text, action, size and colour unchanged |
| Buttons.SetText | src/button.rs:47-52 | Width becomes the measured width with no margin; height and the stored text unchanged |
| Buttons.IsHovered | src/button.rs:85-96 | Returns exactly the hit test. The colour is Hovered iff it returned true and Default iff false. Nothing else changes |
| Buttons.Draw | src/button.rs:62-64 | Drawing's only state effect is the hover recolouring |
| Buttons.IsClicked | src/gui_handler.rs:272-275 | The token is the action when inside and pressed, `""` otherwise (assumed behaviour) |
| Buttons.HoverLatestWins | src/button.rs:86-95 | The colour after hover tests depends only on the latest one |
| Buttons.ClickedIffHoveredAndPressed | src/gui_handler.rs:272-275 | A non-empty action is emitted iff the button is hovered and pressed |
| Buttons.DrawKeepsToken | src/dropdown.rs:282-287 | Recolouring before the hit test does not change the token |
| Labels.New | src/label.rs:21-30 | Dimensions `(measure + 10, 50)`, colour Active |
| Labels.NewWithDimensions | src/label.rs:33-46 | Stores exactly the given dimensions; colour Active |
| Labels.Resize | src/label.rs:58 | Replaces the dimensions and nothing else |
| Labels.SetText | src/label.rs:50-55 | Width becomes the measured width with no margin; height and stored text unchanged |
| Labels.IsHovered | src/label.rs:100 | Always false; no field changes |
| Labels.IsClicked | src/label.rs:105 | No field changes |
| Labels.Draw | src/label.rs:63-65 | Drawing a label changes nothing |
| Sliders.ClampInitial | src/slider.rs:26-33 | `min` if `min > trunc(v)`, else `max` if `max < trunc(v)`, else `v` unchanged |
| Sliders.ClampInitialBounds | src/slider.rs:29-33 | The clamped value lies strictly within one of `[min, max]`, and inside it for whole-number inputs |
| Sliders.ClampInitialExamples | src/slider.rs:29-33 | In [0, 10], 50 becomes 10 and -5 becomes 0, but 10.5 is kept because it truncates to 10 |
| Sliders.SetPositionFromValue | src/slider.rs:56-61 | Only the box x changes, to the interpolated `BoxXFor` x: `min` puts the box at the track start and `max` at the track end; with `min < max`, a value in range and a non-negative track, the box x lies within the track's extent. With `max == min` nothing changes |
| Sliders.BoxXFor | src/slider.rs:57-60 | The interpolated x: `min` maps to the track start, `max` to the track end, in-range values to within the track |
| Sliders.BoxXBounds | src/slider.rs:57-60 | The bounds and end points of the truncated interpolation |
| Sliders.UpdateValue | src/slider.rs:63-71 | Only the value changes. Box at the track start gives `min`, box flush with the track end gives `max`, positions in between give a value in `[min, max]` |
| Sliders.ValueFromOffset | src/slider.rs:67-70 | Offset 0 gives `min`, offset equal to the travel gives `max`, offsets in between give a value in range |
| Sliders.New | src/slider.rs:26-54 | Clamped value; dimensions `(width+120, 50)`; track at `position+(10,7)` sized `(width,35)`; box `(30,35)` on the track's row, within the track for in-range values |
| Sliders.NewAtMaxBeyondDragRange | src/slider.rs:56-61 | A new slider at its maximum has its box at the track end, further right than any drag can place it |
| Sliders.GetValue | src/slider.rs:74-76 | Returns the stored value unchanged |
| Sliders.Resize | src/slider.rs:79-83 | Dimensions become `new`; track `(new.0-120, new.1-15)`; box width kept and height `new.1-15`; everything else unchanged |
| Sliders.ResizeKeepsValueAndBox | src/slider.rs:79-83 | A resize keeps the value, the box position and the box width |
| Sliders.IsHovered | src/slider.rs:126-138 | Returns the hit test on the box; only the box colour changes, to Hovered or Text |
| Sliders.Draw | src/slider.rs:88-90 | Drawing's only state effect is the box hover colour |
| Sliders.DragX | src/slider.rs:149-161 | The box is centred on the mouse with truncating `/ 2`. Overshooting the right end puts it flush with the track end; otherwise overshooting the left end puts it at the track start; an already-fitting x is kept. A box that fits the track ends inside it |
| Sliders.Drags | src/slider.rs:142-147 | A frame drags only with the button held, and does so whenever the mouse is over the box or over the whole slider |
| Sliders.IsClicked | src/slider.rs:141-165 | A held press over the box or the slider moves the box to `DragX` on its row and recomputes the value; any other frame changes nothing |
| Sliders.DragStaysInTrack | src/slider.rs:149-163 | After a drag the box lies within the track on its old row, and the value lies within `[min, max]` |
| Sliders.DragIdempotent | src/slider.rs:149-163 | The same qualifying drag twice gives the same slider as once |
| Widgets.Position | src/common.rs:60-66 | The wrapped widget's own position |
| Widgets.Dims | src/common.rs:68-74 | The wrapped widget's own dimensions |
| Widgets.Resized | src/common.rs:76-82 | Forwards to exactly that widget's own resize. The kind and position are kept; a Dropdown ends 10 narrower than requested |
| Widgets.Resize | src/common.rs:76-82 | The imperative resize equals `Resized` |
| Widgets.Drawn | src/common.rs:27-33 | Forwards to the wrapped widget's draw step; the kind is kept |
| Widgets.Draw | src/common.rs:27-33 | The imperative draw equals `Drawn` |
| Widgets.IsClicked | src/common.rs:35-58 | A Button appends exactly one token, perhaps `""`. A Slider drags with the held flag and leaves `actions` alone. A Label changes nothing. A Dropdown toggles, appends its own queue in order and is left with an empty one |
| Widgets.Pick | src/slider.rs:168-180 | Selecting widgets of one kind keeps no more items than there were |
| Widgets.PickAppend | src/label.rs:108-120 | Selection distributes over concatenation, so it keeps the original order |
| Widgets.PickSingle | src/label.rs:112-116 | A single widget is kept exactly when it has the selected kind |
| Widgets.PickMembership | src/slider.rs:172-176 | An item is selected iff some widget of the input wraps it |
| Widgets.Collect | src/slider.rs:168-180 | The push loop computes exactly `Pick` |
| Widgets.CollectLabels | src/label.rs:108-120 | Converting to `Vec<Label>` keeps exactly the Labels, in order |
| Widgets.CollectSliders | src/slider.rs:168-180 | Converting to `Vec<Slider>` keeps exactly the Sliders, in order |
| Widgets.Tokens | src/common.rs:42-45 | One token per Button, in order, each that Button's token |
| Widgets.ButtonTokensSnoc | src/dropdown.rs:282-288 | Adding a child adds its token at the end exactly when it is a Button |
| Widgets.Widest | src/dropdown.rs:63-76 | Starting from -1: every width is at most the result, and the result is -1 or some child's width |
| Widgets.FixedWidths | src/dropdown.rs:78-84 | Every child resized to `(widest, own height)`, in order |
| Widgets.FixedWidthsShape | src/dropdown.rs:63-89 | Button, Slider and Label children end at the widest width, Dropdown children 10 narrower. Heights, kinds, positions, count and order are kept, and no Button, Slider or Label width shrinks below its original (a Dropdown can end 10 narrower) |
| Widgets.DropdownChildrenNarrow | src/dropdown.rs:78-89 | When every child is a Dropdown and the widest width is at least 19, one normalisation lowers the widest width by 10, and two leave every child at the original widest width minus 20 (a child narrower than the widest can end wider) |
| Widgets.DropdownChildrenFloor | src/dropdown.rs:64-89 | When every child is a Dropdown at most -1 wide, one normalisation puts every child at -11, and a second keeps them there |
| Widgets.FixedWidthsIdempotent | src/dropdown.rs:63-85 | Without Dropdown children, normalising twice is normalising once |
| Widgets.FixedWidthsHeight | src/dropdown.rs:275-277 | Normalisation leaves the nesting depth unchanged |
| Widgets.FixWidths | src/dropdown.rs:63-85 | The two loops compute exactly `FixedWidths` |
| Widgets.NewDropdown | src/dropdown.rs:23-37 | Closed, no children, no actions, size `(measure + 10, 50)`, Default background, Text text colour |
| Widgets.AddComponent | src/dropdown.rs:40-44 | Appends exactly the child; nothing else changes |
| Widgets.PreviousPosition | src/dropdown.rs:46-53 | The last child's position, or the Dropdown's own when empty |
| Widgets.FirstHeight | src/dropdown.rs:128-135 | The first child's height, or 0 when empty |
| Widgets.ChildPosition | src/dropdown.rs:117-136 | `(prev.0 + position.0 + dimensions.0, prev.1 + first height)` |
| Widgets.AddButton | src/dropdown.rs:117-140 | Appends exactly one Button (font 20) at `ChildPosition`; existing children and other fields unchanged |
| Widgets.AddSlider | src/dropdown.rs:146-170 | Appends exactly one 250-wide Slider at `ChildPosition`; existing children and other fields unchanged |
| Widgets.AddDropdown | src/dropdown.rs:202-224 | Appends exactly one Closed Dropdown (font 20) at `ChildPosition`; existing children unchanged |
| Widgets.AutoLayoutSteps | src/dropdown.rs:117-224 | The first child goes level with the header, one header offset right of the Dropdown's x. Each later child, whether added by `add_button`, `add_slider` or `add_dropdown`, goes one first-child height lower and one header offset further right |
| Widgets.SetComponentsFixWidths | src/dropdown.rs:57-61 | Sets the flag and nothing else |
| Widgets.MovedTo | src/dropdown.rs:92-110 | Buttons and Dropdowns move to column `x` with y kept; Sliders and Labels stay; sizes and kinds kept |
| Widgets.DropdownResized | src/dropdown.rs:88-111 | Dimensions `(new.0-10, new.1)`; every Button and Dropdown child moved to column `position.0 + 10 + new width`; Slider and Label children stay where they are; nothing else changes |
| Widgets.ResizeDropdown | src/dropdown.rs:88-111 | The loop computes exactly `DropdownResized` |
| Widgets.DropdownIsHovered | src/dropdown.rs:310-320 | Returns the header hit test. Inside gives Hovered; outside while Closed gives Default; outside while Open changes nothing |
| Widgets.DropdownIsClicked | src/dropdown.rs:323-328 | A press inside the header flips Open/Closed and colours it Active; anything else changes nothing |
| Widgets.ToggleTwice | src/dropdown.rs:323-328 | Two presses inside the header restore the Open/Closed state; a press elsewhere never changes it |
| Widgets.DropdownDrawn | src/dropdown.rs:253-306 | The frame step keeps the Open/Closed state, geometry, text, font size, text colour, flag and child count; the background is the hover result; a Closed Dropdown's queue is empty and its children are the normalised ones |
| Widgets.ChildrenDrawn | src/dropdown.rs:279-305 | The children's step keeps the child count |
| Widgets.ChildDrawn | src/dropdown.rs:281-303 | One child's step keeps its kind |
| Widgets.ChildrenDrawnTokens | src/dropdown.rs:279-305 | The children's step collects exactly one token per Button child, in order, `""` included, and nothing from nested Dropdowns |
| Widgets.ChildrenDrawnPointwise | src/dropdown.rs:280-304 | Each child is stepped on its own, in place; order and kinds are kept |
| Widgets.DropdownDrawnActions | src/dropdown.rs:257-305 | A Closed Dropdown hit-tests no child and its queue is empty. An Open one's children are the normalised children each stepped by `ChildrenDrawn`, and its queue is one token per Button child |
| Widgets.ChildDrawnBound | src/dropdown.rs:281-303 | A child's step does not depend on the termination bound |
| Widgets.DrawChild | src/dropdown.rs:281-303 | One child's imperative step equals `ChildDrawn` |
| Widgets.DrawDropdown | src/dropdown.rs:253-306 | The imperative frame step equals `DropdownDrawn` |
| Widgets.DrawChildren | src/dropdown.rs:279-305 | The in-place loop over the children equals `ChildrenDrawn` |
| Widgets.SliderValueAt | src/dropdown.rs:173-188 | `Err` with the source's message iff `index >= count`; otherwise the `index`-th Slider's value in component order |
| Widgets.SliderValue | src/dropdown.rs:173-188 | The collect-then-check loop equals `SliderValueAt` |
| Widgets.SliderValueI32 | src/dropdown.rs:191-196 | The same outcome, with the value truncated toward zero |
| Widgets.SliderValueAsWritten | src/dropdown.rs:181-187 | The source's guard: rejected iff `index > count`, out of bounds iff `index == count`, otherwise the `index`-th value |
| Widgets.AsWrittenGuardOffByOne | src/dropdown.rs:181-187 | The source's guard lets exactly `index == count` through to an out-of-bounds read; elsewhere it agrees with the corrected lookup |
| Widgets.GetDropdowns | src/dropdown.rs:239-248 | Always `Ok`, holding exactly the Dropdown children in order, without recursing |
| Widgets.ReplaceDropdown | src/dropdown.rs:227-236 | Writing through the `k`-th returned reference: the Dropdown child with exactly `k` Dropdowns before it becomes the new value; every other child keeps its place and value |
| Widgets.ReplaceDropdownKeepsOthers | src/dropdown.rs:227-236 | Writing through a returned reference leaves the Buttons, Sliders and Labels as they were |
| Widgets.ReplaceDropdownExact | src/dropdown.rs:227-236 | Writing through the `k`-th reference makes the Dropdown selection the old one with element `k` replaced |
| Widgets.WithDropdown | src/dropdown.rs:227-236 | `get_dropdowns_mut` then a write: the `k`-th Dropdown child is replaced in its place, every other child and field is kept, and the Button, Slider and Label selections are unchanged |
| Handler.FirstDimensions | src/gui_handler.rs:216-223 | The first component's dimensions, or `(0, 50)` when empty |
| Handler.LastPosition | src/gui_handler.rs:225-232 | The last component's position, or `(0, 0)` when empty |
| Handler.AutoPosition | src/gui_handler.rs:123-138 | `(prev.0, prev.1 + first.1)`; the first auto-added component lands at `(0, 50)` |
| Handler.Prepared | src/gui_handler.rs:258-260 | The hit-test input keeps the count, each component's kind and position; without the normalisation flag it is the components unchanged |
| Handler.PreparedShape | src/gui_handler.rs:31-51 | With the flag set every component gets the widest width, keeping height, position and kind; without it nothing changes |
| Handler.GuiHandler.constructor | src/gui_handler.rs:19-29 | Empty lists, no callback, no normalisation, the given clear colour |
| Handler.GuiHandler.SetButtonActionFunction | src/gui_handler.rs:90-95 | Sets the flag to true; nothing else changes. No other operation resets it |
| Handler.GuiHandler.SetComponentsFixWidths | src/gui_handler.rs:99-103 | Sets the normalisation flag and nothing else |
| Handler.GuiHandler.Push | src/gui_handler.rs:112-114 | Appends exactly one component; nothing else changes |
| Handler.GuiHandler.AddButtonWithPosition | src/gui_handler.rs:106-117 | Appends exactly one Button (font 20) at exactly the given position |
| Handler.GuiHandler.AddButton | src/gui_handler.rs:123-138 | Appends exactly one Button (font 20) at `AutoPosition` of the old list |
| Handler.GuiHandler.AddSliderWithPosition | src/gui_handler.rs:150-166 | Appends exactly one Slider with track width 100 at exactly the given position |
| Handler.GuiHandler.AddSlider | src/gui_handler.rs:172-188 | Appends exactly one Slider with track width 250 at `AutoPosition` of the old list |
| Handler.GuiHandler.GetSliderValue | src/gui_handler.rs:191-206 | `Err` iff `index >= count` (corrected guard), else the `index`-th Slider's value |
| Handler.GuiHandler.GetSliderValueI32 | src/gui_handler.rs:209-214 | The same outcome, truncated toward zero |
| Handler.GuiHandler.ComponentsFixWidths | src/gui_handler.rs:31-51 | The components become exactly `FixedWidths` of the old ones |
| Handler.GuiHandler.Draw | src/gui_handler.rs:234-291 | Clears the queue first. `Err` iff some top-level Button exists and no callback is set; then nothing else changes. Otherwise the components are normalised if configured and stepped in place, and the queue holds exactly one token per Button in order |
| Handler.GuiHandler.ExecuteActions | src/gui_handler.rs:141-147 | Calls the callback once per queued token, in order, `""` included; the queue is kept |
| Handler.HitTestPass | src/gui_handler.rs:268-285 | The loop over Buttons and Sliders equals the frame step, and the queue is exactly one token per Button |
| Handler.ExecuteTwice | src/gui_handler.rs:141-147 | Two dispatches without a frame between dispatch the same tokens twice |
| Handler.GuardLiftedByCallback | src/gui_handler.rs:254-256 | A handler with a Button fails to draw until a callback is registered; afterwards one frame queues exactly that Button's token |

## Left out

- Painting: every `draw_rectangle`, `draw_text`, `draw_line_ex` and `clear_background` call, the
  backend handle and thread, and the unsafe lifetime `transmute` that returns the draw handle. These
  are foreign calls with no state effect in the model.
- Text measurement is a parameter, and mouse queries are the `FrameInput` fields.
- The external draw hooks (`add_external_draw`, `clear_external_draws` and their loop in `draw`).
  They are opaque boxed closures.
- The callback's body and which callback was registered: `SetButtonActionFunction` takes no
  argument and only the order of the calls is logged.
- Floating point: slider values are idealised as reals. `format!` of the value is not modelled.
- Sliders.SetPositionFromValue: with `max == min` the source divides by zero in f32 and saturates
  the NaN or infinity to an i32. The model leaves the box where it is instead.
- Sliders.UpdateValue: with a track exactly as wide as the box the source computes 0/0 in f32. The
  model keeps the value instead.
- 32-bit overflow of the integer geometry and the saturation of `as i32` at the i32 bounds.
- `Slider::move_x`, called by `Dropdown::resize`, is not part of this model. `Widgets.MovedTo` leaves
  Sliders where they are.
- Aliasing and in-place mutation of the widgets themselves. The Rust `Vec` owns each widget
  uniquely, so each widget is a value and its `&mut self` updates are functions returning the new
  value. The handler is a class.
- `get_dropdowns_mut` returns mutable references. The model returns the selection through
  `Widgets.DropdownsOf` and models a write through the `k`-th reference with `Widgets.WithDropdown`.
- The handler-level `add_dropdown`, `get_dropdowns_mut`, `add_label` (samples/src/label_example.rs:15)
  and `set_button_fix_widths` (samples/src/button_with_additional_draws.rs:42) that the samples
  call do not exist in `src/gui_handler.rs`, so they are not modelled.
- `src/traits.rs`, `src/gui_component.rs` and `src/types.rs`. These hold a stale enum, a trait
  signature and type aliases; `Point` and `Dimensions` are `(int, int)`.

## Findings

| source | as written | input that shows it | evidently intended | confidence | as-written member | corrected member |
|---|---|---|---|---|---|---|
| src/dropdown.rs:181 | `if index > sliders.len()` then `sliders[index]` | a Dropdown with one Slider child and `index == 1`: the guard passes and the index is out of bounds, a panic | `index >= sliders.len()` returns the out-of-range `Err` | not executed | Widgets.SliderValueAsWritten | Widgets.SliderValueAt |
| src/gui_handler.rs:199 | the same guard in the handler's `get_slider_value` | a handler with no Sliders and `index == 0` | `index >= sliders.len()` | not executed | Widgets.AsWrittenGuardOffByOne | Handler.GuiHandler.GetSliderValue |
