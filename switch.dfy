/**
 * The `switch` toggle: its shared state, the state handler that advances the
 * animation progress and reports a click intent, and the measure callback
 * that places the thumb on the track.
 */
module Switch {
  import opened Wrappers
  import opened Pixels
  import opened Layout

  /** An instant on a monotonic clock, in nanoseconds. */
  type Instant = nat

  /** `ANIMATION_DURATION`: 150 ms. */
  const ANIMATION_DURATION: nat := 150_000_000

  /**
   * `SwitchState`, shared between frames. `progress` is the thumb's animation
   * position, 0 for off and 1 for on.
   */
  class SwitchState {
    var checked: bool
    var progress: real
    var lastToggleTime: Option<Instant>

    /** `SwitchState::new` */
    constructor (initialState: bool)
      ensures checked == initialState
      ensures progress == if initialState then 1.0 else 0.0
      ensures lastToggleTime.None?
    {
      checked := initialState;
      progress := if initialState then 1.0 else 0.0;
      lastToggleTime := None;
    }

    /** `SwitchState::toggle`, called at instant `now`. */
    method Toggle(now: Instant)
      modifies this
      ensures checked == !old(checked)
      ensures lastToggleTime == Some(now)
      ensures progress == old(progress)
    {
      checked := !checked;
      lastToggleTime := Some(now);
    }
  }

  /** Toggling twice restores `checked` and keeps the later toggle time. */
  method ToggleTwice(state: SwitchState, first: Instant, second: Instant)
    modifies state
    ensures state.checked == old(state.checked)
    ensures state.lastToggleTime == Some(second)
    ensures state.progress == old(state.progress)
  {
    state.Toggle(first);
    state.Toggle(second);
  }

  // ---------------------------------------------------------------------------
  // Animation progress

  /**
   * The elapsed share of the animation: `(elapsed / ANIMATION_DURATION).min(1.0)`,
   * where `Instant::elapsed` is 0 for an instant in the future.
   */
  function AnimationFraction(last: Instant, now: Instant): (f: real)
    ensures 0.0 <= f <= 1.0
    ensures now >= last + ANIMATION_DURATION ==> f == 1.0
    ensures now <= last ==> f == 0.0
  {
    var elapsed := if now >= last then now - last else 0;
    var share := elapsed as real / ANIMATION_DURATION as real;
    if share < 1.0 then share else 1.0
  }

  /** The progress for an animation share: it runs towards 1 when checked, towards 0 otherwise. */
  function ProgressAt(checked: bool, fraction: real): (p: real)
    requires 0.0 <= fraction <= 1.0
    ensures 0.0 <= p <= 1.0
    ensures fraction == 1.0 ==> p == (if checked then 1.0 else 0.0)
    ensures fraction == 0.0 ==> p == (if checked then 0.0 else 1.0)
  {
    if checked then fraction else 1.0 - fraction
  }

  /** Once the full duration has passed the progress sits at the end for `checked`. */
  lemma ProgressSettles(checked: bool, last: Instant, now: Instant)
    requires now >= last + ANIMATION_DURATION
    ensures ProgressAt(checked, AnimationFraction(last, now)) == if checked then 1.0 else 0.0
  {
  }

  // ---------------------------------------------------------------------------
  // Click intent

  predicate IsLeftPress(e: CursorEvent)
  {
    e.content == Pressed(Left)
  }

  /** `cursor_events.iter().filter(Pressed(Left)).count()` */
  function LeftPressCount(events: seq<CursorEvent>): (n: nat)
    ensures n <= |events|
  {
    if events == [] then 0
    else (if IsLeftPress(events[0]) then 1 else 0) + LeftPressCount(events[1..])
  }

  lemma {:induction false} LeftPressCountPositive(events: seq<CursorEvent>)
    ensures LeftPressCount(events) > 0 <==> exists i :: 0 <= i < |events| && IsLeftPress(events[i])
  {
    if events != [] {
      LeftPressCountPositive(events[1..]);
      if exists i :: 0 <= i < |events[1..]| && IsLeftPress(events[1..][i]) {
        var i :| 0 <= i < |events[1..]| && IsLeftPress(events[1..][i]);
        assert IsLeftPress(events[i + 1]);
      }
      if exists i :: 0 <= i < |events| && IsLeftPress(events[i]) {
        var i :| 0 <= i < |events| && IsLeftPress(events[i]);
        if i > 0 {
          assert IsLeftPress(events[1..][i - 1]);
        }
      }
    }
  }

  /**
   * The value the handler passes to `on_toggle`, if it calls it: once, with
   * `!checked`, exactly when some event is a left press.
   */
  function ToggleIntent(checked: bool, events: seq<CursorEvent>): (r: Option<bool>)
    ensures r.Some? <==> exists i :: 0 <= i < |events| && IsLeftPress(events[i])
    ensures r.Some? ==> r.value == !checked
  {
    LeftPressCountPositive(events);
    if LeftPressCount(events) > 0 then Some(!checked) else None
  }

  lemma OnlyLeftPressesToggle(checked: bool, events: seq<CursorEvent>)
    requires forall i :: 0 <= i < |events| ==> events[i].content != Pressed(Left)
    ensures ToggleIntent(checked, events).None?
  {
  }

  /**
   * One run of the state handler at instant `now`. `state` is null when the
   * switch has no shared state. The result is the `on_toggle` call, if any.
   */
  method StateHandler(state: SwitchState?, checked: bool, events: seq<CursorEvent>, now: Instant)
    returns (toggled: Option<bool>)
    modifies state
    ensures toggled == ToggleIntent(checked, events)
    ensures state != null ==> state.checked == old(state.checked)
    ensures state != null ==> state.lastToggleTime == old(state.lastToggleTime)
    ensures state != null && old(state.lastToggleTime).Some? ==>
      state.progress == ProgressAt(state.checked, AnimationFraction(old(state.lastToggleTime).value, now))
    ensures state != null && old(state.lastToggleTime).None? ==> state.progress == old(state.progress)
  {
    if state != null {
      if state.lastToggleTime.Some? {
        var fraction := AnimationFraction(state.lastToggleTime.value, now);
        state.progress := ProgressAt(state.checked, fraction);
      }
    }
    var clicks := LeftPressCount(events);
    toggled := None;
    if clicks > 0 {
      toggled := Some(!checked);
    }
  }

  // ---------------------------------------------------------------------------
  // Measure

  /**
   * The measure callback's arguments, with the `Dp` sizes already converted
   * to pixels.
   */
  datatype SwitchArgs = SwitchArgs(
    checked: bool,
    width: Px,
    height: Px,
    thumbPadding: Px,
    trackColor: Color,
    trackCheckedColor: Color)

  /** The constraint the thumb is always measured under. */
  const THUMB_CONSTRAINT: Constraint := Constraint(WRAP_UNBOUNDED, WRAP_UNBOUNDED)

  /** Integers an `f32` holds exactly. */
  predicate ExactInF32(v: int)
  {
    -0x100_0000 <= v <= 0x100_0000
  }

  /**
   * `f32 as i32` for a value in range: truncation toward zero, the largest
   * integer not above a non-negative value and the least not below a negative one.
   */
  function TruncateToInt(v: real): (k: int)
    ensures v >= 0.0 ==> 0 <= k && k as real <= v < k as real + 1.0
    ensures v < 0.0 ==> k <= 0 && k as real - 1.0 < v <= k as real
  {
    if v >= 0.0 then v.Floor else -((-v).Floor)
  }

  /**
   * `start_x + (end_x - start_x) * progress`, truncated, at the two ends of
   * the animation. Every intermediate is an integer an `f32` holds exactly.
   */
  function ThumbX(startX: Px, endX: Px, progress: real): (x: Px)
    requires progress == 0.0 || progress == 1.0
    requires InI32(endX.value - startX.value)
    requires ExactInF32(startX.value) && ExactInF32(endX.value) && ExactInF32(endX.value - startX.value)
    ensures progress == 0.0 ==> x == startX
    ensures progress == 1.0 ==> x == endX
  {
    var v := startX.value as real + (endX.value - startX.value) as real * progress;
    assert v == (if progress == 0.0 then startX.value else endX.value) as real;
    Px(TruncateToInt(v))
  }

  /**
   * `(height - thumb_height) / 2` with Rust's truncating division: the thumb is
   * centred vertically, the space left below it being the space above it or
   * one pixel more; a thumb taller than the track overhangs it the same way.
   */
  function ThumbY(height: Px, thumbHeight: Px): (y: Px)
    requires InI32(height.value - thumbHeight.value)
    ensures var free := height.value - thumbHeight.value;
      && (free >= 0 ==> 0 <= free - 2 * y.value <= 1)
      && (free < 0 ==> -1 <= free - 2 * y.value <= 0)
  {
    Div(Sub(height, thumbHeight), 2)
  }

  /** The track is drawn in the checked colour exactly when the switch is checked. */
  function TrackColor(args: SwitchArgs): (c: Color)
    ensures args.checked ==> c == args.trackCheckedColor
    ensures !args.checked ==> c == args.trackColor
  {
    if args.checked then args.trackCheckedColor else args.trackColor
  }

  /** The progress read by measure: the shared state's, or the end for `checked`. */
  function CurrentProgress(state: SwitchState?, checked: bool): (p: real)
    reads state
    ensures state != null ==> p == state.progress
    ensures state == null ==> p == (if checked then 1.0 else 0.0)
  {
    if state != null then state.progress else if checked then 1.0 else 0.0
  }

  /** At rest on the left, the thumb keeps `thumb_padding` from the track's left edge. */
  function StartX(args: SwitchArgs): (x: Px)
    ensures x == args.thumbPadding
  {
    args.thumbPadding
  }

  /** At rest on the right, the thumb keeps `thumb_padding` from the track's right edge. */
  function EndX(args: SwitchArgs, thumb: ComputedData): (x: Px)
    requires InI32(args.width.value - thumb.width.value)
    requires InI32(args.width.value - thumb.width.value - args.thumbPadding.value)
    ensures args.width.value - (x.value + thumb.width.value) == args.thumbPadding.value
  {
    Sub(Sub(args.width, thumb.width), args.thumbPadding)
  }

  /** Every integer operation of the thumb placement stays in range and exact. */
  predicate ThumbFits(args: SwitchArgs, thumb: ComputedData)
  {
    && InI32(args.width.value - thumb.width.value)
    && InI32(args.width.value - thumb.width.value - args.thumbPadding.value)
    && InI32(args.height.value - thumb.height.value)
    && var startX := args.thumbPadding.value;
       var endX := args.width.value - thumb.width.value - args.thumbPadding.value;
       InI32(endX - startX) && ExactInF32(startX) && ExactInF32(endX) && ExactInF32(endX - startX)
  }

  /**
   * One run of the switch's measure callback. `thumbResult` is what the
   * engine's `measure_node` returns for the thumb; `request` is the thumb and
   * the constraint it is measured under; `placement` is the `place_node` call.
   */
  method Measure(
    args: SwitchArgs,
    state: SwitchState?,
    input: MeasureInput,
    table: MetadataTable,
    thumbResult: Result<ComputedData, MeasurementError>)
    returns (
      r: Result<ComputedData, MeasurementError>,
      request: (NodeId, Constraint),
      placement: Option<Placement>)
    requires |input.childrenIds| >= 1
    requires CurrentProgress(state, args.checked) == 0.0 || CurrentProgress(state, args.checked) == 1.0
    requires thumbResult.Ok? ==> ThumbFits(args, thumbResult.value)
    modifies table
    ensures request == (input.childrenIds[0], THUMB_CONSTRAINT)
    ensures thumbResult.Err? ==>
      r == Err(thumbResult.error) && placement.None? && table.entries == old(table.entries)
    ensures thumbResult.Ok? ==>
      && r == Ok(ComputedData(args.width, args.height))
      && placement == Some(Placement(input.childrenIds[0], PxPosition(
           ThumbX(StartX(args), EndX(args, thumbResult.value), CurrentProgress(state, args.checked)),
           ThumbY(args.height, thumbResult.value.height))))
      && table.entries == WithDrawable(old(table.entries), input.currentNode, TrackRect(TrackColor(args), args.height))
    ensures thumbResult.Ok? && CurrentProgress(state, args.checked) == 0.0 ==>
      placement.value.position.x == args.thumbPadding
    ensures thumbResult.Ok? && CurrentProgress(state, args.checked) == 1.0 ==>
      placement.value.position.x.value == args.width.value - thumbResult.value.width.value - args.thumbPadding.value
  {
    var thumbId := input.childrenIds[0];
    request := (thumbId, THUMB_CONSTRAINT);
    if thumbResult.Err? {
      return Err(thumbResult.error), request, None;
    }
    var thumbSize := thumbResult.value;

    var progress := CurrentProgress(state, args.checked);
    var startX := StartX(args);
    var endX := EndX(args, thumbSize);
    var thumbX := ThumbX(startX, endX, progress);
    var thumbY := ThumbY(args.height, thumbSize.height);
    placement := Some(Placement(thumbId, PxPosition(thumbX, thumbY)));

    var trackColor := TrackColor(args);
    table.SetDrawableIfPresent(input.currentNode, TrackRect(trackColor, args.height));

    r := Ok(ComputedData(args.width, args.height));
  }
}
