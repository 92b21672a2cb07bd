# tessera layout arithmetic and basic-component measurement, in Dafny

This project models part of tessera, a declarative UI toolkit that rebuilds its
component tree every frame. Each frame, the layout engine asks every component's
measure callback for a size. Constraints flow down, sizes flow up, and each
parent records where its children go. The model covers:

- **`Px` / `PxPosition`** (`tessera/src/px.rs`): integer pixel arithmetic over
  `i32`. The plain operators require that no overflow happens, since Rust panics
  on overflow in debug builds. The saturating operators clamp. Division
  truncates toward zero. `abs` clamps negatives to zero. Array conversions and
  their round trips are included.
- **The layout vocabulary** the components use (module `Layout`):
  `DimensionValue` (`Fixed | Wrap{min,max} | Fill{min,max}`), `Constraint`,
  `ComputedData`, `MeasurementError`, the per-node metadata table (a class
  holding a `map`), and cursor events.
- **`surface`**: the child constraint is reduced by the padding and floored at 0.
  Only the first child is measured and placed. The surface then resolves its own
  size, takes the error paths, and writes its background drawable.
- **`text`**: shaping bounds come from the parent constraint. The node's
  drawable is upserted into the metadata table. The callback never fails.
- **`switch`**: `SwitchState::new`/`toggle`. The state handler updates the
  progress and reports the click intent. The measure callback measures the
  thumb, places it and chooses the track colour.

The layout engine is not shown in the modelled files: the constraint merge,
`measure_node(s)`, `place_node` and the component tree. The model treats these
as inputs and outputs:

- the merge is a function parameter;
- the engine's measurement results are parameters;
- each `place_node` call is returned as a `Placement`;
- the request handed to `measure_nodes` is returned as a `(node, constraint)` pair.

Text shaping is a function parameter. Clock readings are `Instant` parameters.

## Model

| member | source | states |
|---|---|---|
| `Pixels.New` | tessera/src/px.rs:19-21 | the new `Px` holds exactly the given raw value |
| `Pixels.Raw` | tessera/src/px.rs:14-16 | `New(Raw(p)) == p`: `raw` and `new` are inverse |
| `Pixels.FromI32` | tessera/src/px.rs:269-273 | `From<i32>` keeps the raw value |
| `Pixels.U32AsI32` | tessera/src/px.rs:275-279 | `as i32` keeps the 32 bits: the result equals the input mod 2^32, equals it up to `i32::MAX`, and is negative above |
| `Pixels.FromU32` | tessera/src/px.rs:275-279 | `From<u32>` wraps: values above `i32::MAX` become `u - 2^32` |
| `Pixels.Max` | tessera/src/px.rs:6 | `Ord::max` under the derived order: the result is one of the two inputs and is at least both |
| `Pixels.Min` | tessera/src/px.rs:6 | `Ord::min`: the result is one of the two inputs and is at most both |
| `Pixels.LeIsTotalOrder` | tessera/src/px.rs:6 | the derived order is the raw-value order: reflexive, antisymmetric, transitive, total |
| `Pixels.Abs` | tessera/src/px.rs:35-37 | non-negative values are kept and every negative value maps to 0 |
| `Pixels.AbsIsNotAbsoluteValue` | tessera/src/px.rs:417-422 | `abs(10) == 10`, `abs(-5) == 0 != 5`, `abs(0) == 0` |
| `Pixels.ClampI32` | tessera/src/px.rs:55-65 | the clamp behind `i32::saturating_add`/`saturating_sub`: in range the value is kept, above it `i32::MAX`, below it `i32::MIN` |
| `Pixels.SaturatingAdd` | tessera/src/px.rs:55-59 | `a + b` when it fits in `i32`; `i32::MAX` above the range; `i32::MIN` below it |
| `Pixels.SaturatingSub` | tessera/src/px.rs:61-65 | `a - b` when it fits; `i32::MAX` above the range; `i32::MIN` below it |
| `Pixels.SaturatingAtBounds` | tessera/src/px.rs:401-407 | `MAX.saturating_add(1) == MAX` and `MIN.saturating_sub(1) == MIN` |
| `Pixels.SaturatingAgreesWithPlain` | tessera/src/px.rs:55-65 | without overflow, the saturating operators equal the plain `+` and `-` |
| `Pixels.Add` | tessera/src/px.rs:229-235 | defined only when the sum fits in `i32` (a debug-build panic otherwise); then it is the exact sum |
| `Pixels.Sub` | tessera/src/px.rs:245-251 | defined only when the difference fits in `i32`; then it is the exact difference |
| `Pixels.Neg` | tessera/src/px.rs:237-243 | defined except at `i32::MIN`; the result is the additive inverse |
| `Pixels.NegInvolutive` | tessera/src/px.rs:237-243 | negating twice gives back the input |
| `Pixels.SubIsAddNeg` | tessera/src/px.rs:237-251 | `a - b == a + (-b)` whenever both sides are defined |
| `Pixels.Mul` | tessera/src/px.rs:253-259 | defined only when the product fits in `i32`; then it is the exact product |
| `Pixels.TruncDiv` | tessera/src/px.rs:261-267 | Rust's `i32` quotient: the remainder is smaller than the divisor in magnitude and is zero or has the dividend's sign; \|q·d\| <= \|n\| |
| `Pixels.TruncDivUnique` | tessera/src/px.rs:261-267 | those remainder conditions determine the quotient uniquely |
| `Pixels.Div` | tessera/src/px.rs:261-267 | defined except for divisor 0 and `i32::MIN / -1`; the quotient truncates toward zero |
| `Pixels.DivUndoesMul` | tessera/src/px.rs:253-267 | `(a * k) / k == a` for every non-zero `k` without overflow |
| `Pixels.ArithmeticExamples` | tessera/src/px.rs:390-399 | `10+5`, `10-5`, `10*2`, `10/2` as in the tests, and `-7/2 == -3` (truncation, not flooring) |
| `Pixels.AddAssign` | tessera/src/px.rs:302-306 | `x += rhs` leaves the place holding `x + rhs` |
| `Pixels.NewPosition` | tessera/src/px.rs:79-82 | the position holds the given components |
| `Pixels.PositionAdd` | tessera/src/px.rs:309-318 | componentwise sum, defined when neither component overflows |
| `Pixels.PositionSub` | tessera/src/px.rs:320-329 | componentwise difference, defined when neither component overflows |
| `Pixels.AddThenSubCancels` | tessera/src/px.rs:309-329 | `(p1 + p2) - p2 == p1` when the sum does not overflow |
| `Pixels.SubThenAddCancels` | tessera/src/px.rs:309-329 | `(p1 - p2) + p2 == p1` when the difference does not overflow |
| `Pixels.PositionAddCommutes` | tessera/src/px.rs:309-318 | position addition commutes |
| `Pixels.Offset` | tessera/src/px.rs:84-90 | `offset(dx, dy)` is `p + PxPosition(dx, dy)`, defined when neither component overflows |
| `Pixels.SaturatingOffset` | tessera/src/px.rs:92-98 | total; equals `offset` when nothing overflows; clamps each component separately to `i32::MAX` or `i32::MIN` |
| `Pixels.OffsetExample` | tessera/src/px.rs:424-432 | `(10,-5).offset(2,3) == (12,-2)` |
| `Pixels.FromI32Pair` | tessera/src/px.rs:332-339 | `[x, y]` becomes the position `(x, y)` |
| `Pixels.ToI32Pair` | tessera/src/px.rs:341-345 | the position becomes `[x, y]` |
| `Pixels.I32PairRoundTrip` | tessera/src/px.rs:332-345 | `[i32;2] -> PxPosition -> [i32;2]` and `PxPosition -> [i32;2] -> PxPosition` are identities |
| `Pixels.FromU32Pair` | tessera/src/px.rs:347-354 | each component goes through the wrapping `as i32` cast |
| `Pixels.ToU32Pair` | tessera/src/px.rs:356-360 | each component goes through `Px::abs` |
| `Pixels.U32PairRoundTrip` | tessera/src/px.rs:347-360 | a `[u32;2]` component up to `i32::MAX` comes back unchanged and a larger one comes back as 0; the round trip is the identity iff both components are at most `i32::MAX` |
| `Pixels.PositionU32RoundTrip` | tessera/src/px.rs:347-360 | `PxPosition -> [u32;2] -> PxPosition` is the identity iff both components are non-negative |
| `Pixels.FromPxPair` | tessera/src/px.rs:362-369 | `[x, y]` becomes `(x, y)` |
| `Pixels.ToPxPair` | tessera/src/px.rs:371-375 | `(x, y)` becomes `[x, y]` |
| `Pixels.PxPairRoundTrip` | tessera/src/px.rs:362-375 | both `[Px;2]` round trips are identities |
| `Pixels.ConversionExamples` | tessera/src/px.rs:446-457 | the test's `[10,-5]` and `[10,5]` round trips |
| `Layout.WithDrawable` | tessera_basic_components/src/surface.rs:242-244 | `get_mut` then a drawable write: same keys; an existing entry changes only its drawable; no other entry changes |
| `Layout.MetadataTable.SetDrawableIfPresent` | tessera_basic_components/src/switch.rs:185-187 | the table afterwards is `WithDrawable` of the table before |
| `Surface.IntrinsicConstraint` | tessera_basic_components/src/surface.rs:55-64 | an absent width or height defaults to `Wrap{None,None}`; a given one is used as is |
| `Surface.Shrink` | tessera_basic_components/src/surface.rs:73 | a length minus twice the padding, floored at 0: never negative, exact when the length covers the padding, 0 otherwise |
| `Surface.ShrinkBound` | tessera_basic_components/src/surface.rs:78-79 | a present bound is shrunk and an absent bound stays absent |
| `Surface.ParentBound` | tessera_basic_components/src/surface.rs:86-92 | a parent offers its `Fixed` value or its `Fill` max; a `Wrap` parent offers nothing, even with a max |
| `Surface.ChildAxis` | tessera_basic_components/src/surface.rs:72-105 | never negative. `Fixed(s)` gives `Fixed(max(s-2p,0))`. `Wrap` shrinks each present bound. `Fill` gives `Fixed(max(b-2p,0))` when the parent offers `b`, else `Wrap{None, max shrunk}` |
| `Surface.ChildConstraint` | tessera_basic_components/src/surface.rs:106-141 | width and height follow the per-axis rule independently; the result is never negative |
| `Surface.NonNegativeAxisFits` | tessera_basic_components/src/surface.rs:72-139 | with non-negative constraints and padding, no subtraction of the rule can overflow |
| `Surface.ChildAdmitsContentOfSurface` | tessera_basic_components/src/surface.rs:72-80 | for `Fixed`/`Wrap` with room for the padding, the child admits length `s` iff the surface admits `s + 2p` |
| `Surface.FillChildTakesOfferedLength` | tessera_basic_components/src/surface.rs:81-104 | for `Fill`, the child admits exactly the offered length minus `2p`; with nothing offered it admits what stays under the surface's max after adding `2p` |
| `Surface.FinalAxis` | tessera_basic_components/src/surface.rs:177-200 | `Fixed(s)` is `s`. `Wrap`: content inside the bounds is kept, content below `min` is raised to `min`, content above `max` is lowered to `max`, and `max` wins when `min > max`. `Fill`: `max` when present (unless `min` is larger), else the content, never below `min` |
| `Surface.ResolveAxis` | tessera_basic_components/src/surface.rs:177-225 | the stepwise reassignment of the final size computes `FinalAxis` |
| `Surface.SurfaceSize` | tessera_basic_components/src/surface.rs:174-249 | content plus `2p` is resolved per axis with `FinalAxis`. A non-negative result is kept and a negative one becomes exactly 0, so width and height are never negative |
| `Surface.ResolveSize` | tessera_basic_components/src/surface.rs:173-225 | the callback's step-by-step size computation yields `SurfaceSize` |
| `Surface.Effective` | tessera_basic_components/src/surface.rs:54-68 | the surface's own width and height, each defaulting to `Wrap{None,None}`, merged with the parent's constraint (own constraint first) |
| `Surface.MeasureFirstChild` | tessera_basic_components/src/surface.rs:143-171 | With no child: content zero, nothing requested or placed. A child without metadata gives `ChildMeasurementFailed(child)` and no request. Otherwise the child is requested under its own constraint merged with the child constraint. A missing result gives `MeasureFnFailed`; a present result is the child's outcome. The child is placed at `(p, p)` exactly when that outcome is `Ok` |
| `Surface.SurfaceDrawable` | tessera_basic_components/src/surface.rs:227-240 | an outlined rectangle in the border colour (else the fill colour) when there is a border, otherwise a filled rectangle |
| `Surface.Measure` | tessera_basic_components/src/surface.rs:50-250 | With no children: nothing measured or placed; size from content `(2p, 2p)`. Otherwise only the first child is used. Missing metadata gives `ChildMeasurementFailed(child)`; a missing result gives `MeasureFnFailed`; a child's error is returned unchanged. On success the child is placed at `(p, p)` and the drawable is written only into an existing entry. Every error returns before any placement or table write |
| `Surface.FixedSurfaceScenario` | tessera_basic_components/src/surface.rs:72-225 | a `Fixed(400) x Fixed(70)` surface with 10 px padding offers `Fixed(380) x Fixed(50)` and is exactly `400 x 70` |
| `Text.FromText` | tessera_basic_components/src/text.rs:35-47 | the given text, colour `[0,0,0]`, size `Dp(25.0)`, no line height |
| `Text.MaxBound` | tessera_basic_components/src/text.rs:69-73 | `Fixed(w)` gives `Some(w)`; `Wrap` and `Fill` give their `max` |
| `Text.MaxBoundIgnoresMin` | tessera_basic_components/src/text.rs:69-79 | the `min` of `Wrap`/`Fill` has no effect on the bound |
| `Text.MaxBoundIsUpperBound` | tessera_basic_components/src/text.rs:69-79 | a bound is at least every length the axis admits |
| `Text.FixedBoundIsAttained` | tessera_basic_components/src/text.rs:70 | a `Fixed` bound is itself admitted |
| `Text.NoMaxBoundIsUnbounded` | tessera_basic_components/src/text.rs:71-72 | with no bound, the axis admits some length above any given one |
| `Text.ShapingBounds` | tessera_basic_components/src/text.rs:69-79 | width and height bounds are taken independently from the two axes |
| `Text.UpsertDrawable` | tessera_basic_components/src/text.rs:97-107 | afterwards the node's entry exists with the drawable. An existing entry changes only its drawable; a missing one is inserted as a default entry. No other key is added or removed, and no other entry changes |
| `Text.Measure` | tessera_basic_components/src/text.rs:68-113 | always `Ok` with the shaped size for the bounds from the parent constraint. The node's entry then holds the text drawable: an existing entry changes only its drawable, and a missing one is inserted as the default entry with the drawable. No other entry changes |
| `Switch.SwitchState.constructor` | tessera_basic_components/src/switch.rs:25-31 | `checked == b`, no toggle time, progress 1 if `b` else 0 |
| `Switch.SwitchState.Toggle` | tessera_basic_components/src/switch.rs:33-36 | negates `checked`, records the toggle instant, leaves progress alone |
| `Switch.ToggleTwice` | tessera_basic_components/src/switch.rs:33-36 | two toggles restore `checked` |
| `Switch.AnimationFraction` | tessera_basic_components/src/switch.rs:108-111 | elapsed share of 150 ms, capped at 1: 0 at or before the toggle, 1 once the duration has passed |
| `Switch.ProgressAt` | tessera_basic_components/src/switch.rs:113-117 | progress stays in [0,1]; at full share it is 1 if checked else 0; at zero share it is the other end |
| `Switch.ProgressSettles` | tessera_basic_components/src/switch.rs:104-118 | once the full duration has passed, the progress is at the end that matches `checked` |
| `Switch.LeftPressCount` | tessera_basic_components/src/switch.rs:121-130 | the number of `Pressed(Left)` events, at most the number of events |
| `Switch.LeftPressCountPositive` | tessera_basic_components/src/switch.rs:121-131 | the count is positive iff some event is `Pressed(Left)` |
| `Switch.ToggleIntent` | tessera_basic_components/src/switch.rs:121-135 | `on_toggle` is called (once) iff some event is a left press, and then with `!checked` |
| `Switch.OnlyLeftPressesToggle` | tessera_basic_components/src/switch.rs:124-129 | releases, other buttons, scrolls and moves alone never trigger it |
| `Switch.StateHandler` | tessera_basic_components/src/switch.rs:103-136 | the callback matches `ToggleIntent`. Progress is recomputed from the state's own `checked` only when a toggle time is recorded, and is left unchanged otherwise. `checked` and the toggle time do not change |
| `Switch.CurrentProgress` | tessera_basic_components/src/switch.rs:157-161 | the shared state's progress when there is a state, else 1 if `checked` and 0 otherwise |
| `Switch.StartX` | tessera_basic_components/src/switch.rs:163 | at rest on the left the thumb is `thumb_padding` from the track's left edge |
| `Switch.EndX` | tessera_basic_components/src/switch.rs:164 | at rest on the right the thumb's right edge is `thumb_padding` from the track's right edge |
| `Switch.TruncateToInt` | tessera_basic_components/src/switch.rs:171 | `thumb_x as i32` truncates toward zero: not above a non-negative value by a whole unit, not below a negative one, and never changes sign |
| `Switch.ThumbX` | tessera_basic_components/src/switch.rs:163-165 | at progress 0 the thumb is at `thumb_padding`; at progress 1 at `width - thumb_width - thumb_padding` |
| `Switch.ThumbY` | tessera_basic_components/src/switch.rs:167 | `(height - thumb_height) / 2` truncated: the thumb is centred, with the odd pixel below (or, for an overhanging thumb, above) |
| `Switch.TrackColor` | tessera_basic_components/src/switch.rs:175-179 | the checked colour iff `checked` |
| `Switch.Measure` | tessera_basic_components/src/switch.rs:138-193 | The thumb (`children_ids[0]`, so at least one child) is always measured under `Wrap{None,None}` on both axes. A thumb error is propagated with no placement or table write. Otherwise the thumb is placed at `(ThumbX, ThumbY)`, the track drawable is written into an existing entry only, and the size is exactly `(width, height)`, independent of the thumb |

## Left out

- `Px::from_dp`, `to_dp`, `from_f32`, `saturating_from_f32`, `to_f32`, `distance_to`, the `f32`/`f64` array conversions and the winit conversions: floating point, or the global scale factor.
- `PxSize` and its conversions: not used by the modelled components.
- The constraint merge, `measure_node(s)`, `place_node` and the component tree are not part of this model. The merge is a function parameter. Measurement results are parameters. Placements and measurement requests are returned.
- What `measure_nodes` itself writes into the metadata table is not modelled (in `Surface.Measure` the table changes only by the surface's own drawable write).
- `ComponentNodeMetaData::default()` is not part of this model. A fresh entry is taken to have `Wrap{None,None}` constraints and no size, position or drawable.
- `Dp` to `Px` conversion: padding, switch width, height and thumb padding are given in pixels.
- Colours, corner radii, shadows and border widths are `f32`: opaque tokens. `border_width > 0.0` is a boolean argument. The one `Drawable` type stands for the separate drawable types of the two `surface` API versions (`BasicDrawable`, and a boxed `ShapeCommand` or `TextCommand`).
- Text shaping (`TextData::new`), the `1.2 × size` line-height default and the conversion of the shaped size to `Px` are foreign or floating point. `shape` returns the size directly.
- `Switch.ThumbX`: modelled only at progress exactly 0 or 1, and only where every intermediate is an integer an `f32` holds exactly (magnitude at most 2^24). The interpolation in between and `f32` rounding are not modelled.
- `Switch.Measure`: requires the progress it reads to be exactly 0 or 1, for the same reason.
- `Switch.TruncateToInt`: only the in-range behaviour of `as i32` is stated. Rust's saturation of out-of-range values and of NaN is not, because the thumb position it is applied to stays in range.
- `Surface.MeasureFirstChild`: the `MeasureFnFailed` message is a fixed string; the `Debug` rendering of the child id it contains is not modelled.
- `Switch.AnimationFraction`: exact real division stands for the `f32` division of `Duration` seconds.
- The `Mutex` locking and `Arc` sharing of `SwitchState`: the model is single-threaded, and the state is a shared object passed by reference.
- The composition of `switch`: the thumb `surface` call and the `state_handler`/`measure` registration. `Switch.Measure` requires the child that composition always creates.
- Keyboard events: the modelled handlers never read them.
- `checkbox.rs`, `renderer.rs`, `renderer/drawer/shape.rs`, the example programs and `lib.rs`: composition glue, GPU and window plumbing, or constants.

## Notes

- The surface's child rule for an effective `Fill` with no offered length gives
  the child `Wrap{None, max - 2p}`: the surface's own `min` is dropped. The code
  is followed here.
- A `Wrap` parent's max is not an offered length for a `Fill` surface
  (`ParentBound`); only a `Fixed` value or a `Fill` max is.
