/**
 * The measure callback of the `surface` container: a box with padding and an
 * optional explicit width and height that measures its first child inside the
 * padding, places it at `(padding, padding)`, resolves its own size and records
 * its background drawable.
 */
module Surface {
  import opened Wrappers
  import opened Pixels
  import opened Layout

  /**
   * The arguments the measure callback reads. `padding` is the `Dp` padding
   * already converted to pixels; `hasBorder` is `border_width > 0.0`.
   */
  datatype SurfaceArgs = SurfaceArgs(
    color: Color,
    style: ShapeStyle,
    padding: Px,
    width: Option<DimensionValue>,
    height: Option<DimensionValue>,
    hasBorder: bool,
    borderColor: Option<Color>)

  /** The surface's own constraint: an absent width or height means `Wrap{None, None}`. */
  function IntrinsicConstraint(args: SurfaceArgs): (c: Constraint)
    ensures args.width.None? ==> c.width == WRAP_UNBOUNDED
    ensures args.width.Some? ==> c.width == args.width.value
    ensures args.height.None? ==> c.height == WRAP_UNBOUNDED
    ensures args.height.Some? ==> c.height == args.height.value
  {
    Constraint(args.width.UnwrapOr(WRAP_UNBOUNDED), args.height.UnwrapOr(WRAP_UNBOUNDED))
  }

  // ---------------------------------------------------------------------------
  // The constraint offered to the child

  predicate ShrinkFits(m: Px, p2: Px)
  {
    InI32(m.value - p2.value)
  }

  predicate BoundFits(b: Option<Px>, p2: Px)
  {
    b.Some? ==> ShrinkFits(b.value, p2)
  }

  /** `(m - padding_2_px).max(Px(0))`: a length reduced by both paddings, floored at 0. */
  function Shrink(m: Px, p2: Px): (r: Px)
    requires ShrinkFits(m, p2)
    ensures r.value >= 0
    ensures m.value >= p2.value ==> r.value == m.value - p2.value
    ensures m.value < p2.value ==> r == ZERO
  {
    Max(Sub(m, p2), ZERO)
  }

  /** `bound.map(|m| (m - padding_2_px).max(Px(0)))` */
  function ShrinkBound(b: Option<Px>, p2: Px): (r: Option<Px>)
    requires BoundFits(b, p2)
    ensures r.Some? <==> b.Some?
    ensures b.Some? ==> r.value == Shrink(b.value, p2)
  {
    match b
    case None => None
    case Some(m) => Some(Shrink(m, p2))
  }

  /**
   * The length a parent offers on one axis to a `Fill` surface: its `Fixed`
   * value or its `Fill` max; a `Wrap` parent offers nothing, even with a max.
   */
  function ParentBound(parent: DimensionValue): (b: Option<Px>)
    ensures parent.Fixed? ==> b == Some(parent.size)
    ensures parent.Fill? ==> b == parent.max
    ensures parent.Wrap? ==> b.None?
  {
    match parent
    case Fixed(pw) => Some(pw)
    case Fill(_, pmax) => pmax
    case Wrap(_, _) => None
  }

  /** Every subtraction the child-constraint rule performs on this axis stays in `i32`. */
  predicate AxisFits(eff: DimensionValue, parent: DimensionValue, p2: Px)
  {
    match eff
    case Fixed(s) => ShrinkFits(s, p2)
    case Wrap(lo, hi) => BoundFits(lo, p2) && BoundFits(hi, p2)
    case Fill(_, hi) =>
      if ParentBound(parent).Some? then BoundFits(ParentBound(parent), p2) else BoundFits(hi, p2)
  }

  /**
   * The child's constraint on one axis, from the surface's effective
   * constraint `eff`, the constraint the parent offered, and twice the padding.
   */
  function ChildAxis(eff: DimensionValue, parent: DimensionValue, p2: Px): (c: DimensionValue)
    requires AxisFits(eff, parent, p2)
    ensures NonNegative(c)
    ensures eff.Fixed? ==> c == Fixed(Shrink(eff.size, p2))
    ensures eff.Wrap? ==> c == Wrap(ShrinkBound(eff.min, p2), ShrinkBound(eff.max, p2))
    ensures eff.Fill? && ParentBound(parent).Some? ==> c == Fixed(Shrink(ParentBound(parent).value, p2))
    ensures eff.Fill? && ParentBound(parent).None? ==> c == Wrap(None, ShrinkBound(eff.max, p2))
  {
    match eff
    case Fixed(sw) => Fixed(Shrink(sw, p2))
    case Wrap(lo, hi) => Wrap(ShrinkBound(lo, p2), ShrinkBound(hi, p2))
    case Fill(_, hi) =>
      match ParentBound(parent)
      case Some(ppw) => Fixed(Shrink(ppw, p2))
      case None => Wrap(None, ShrinkBound(hi, p2))
  }

  function ChildConstraint(eff: Constraint, parent: Constraint, p2: Px): (c: Constraint)
    requires AxisFits(eff.width, parent.width, p2) && AxisFits(eff.height, parent.height, p2)
    ensures NonNegative(c.width) && NonNegative(c.height)
    ensures c.width == ChildAxis(eff.width, parent.width, p2)
    ensures c.height == ChildAxis(eff.height, parent.height, p2)
  {
    Constraint(ChildAxis(eff.width, parent.width, p2), ChildAxis(eff.height, parent.height, p2))
  }

  /** Constraints that are never negative, as the layout core keeps them, always fit. */
  lemma NonNegativeAxisFits(eff: DimensionValue, parent: DimensionValue, p2: Px)
    requires NonNegative(eff) && NonNegative(parent)
    requires 0 <= p2.value
    ensures AxisFits(eff, parent, p2)
  {
  }

  /** Every upper bound `eff` states leaves room for both paddings. */
  predicate RoomForPadding(eff: DimensionValue, p2: Px)
  {
    match eff
    case Fixed(s) => s.value >= p2.value
    case Wrap(_, hi) => hi.None? || hi.value.value >= p2.value
    case Fill(_, hi) => hi.None? || hi.value.value >= p2.value
  }

  /**
   * For a `Fixed` or `Wrap` surface with room for its padding, the child's
   * constraint admits exactly the content lengths that, with both paddings
   * added, the surface's constraint admits.
   */
  lemma {:induction false} ChildAdmitsContentOfSurface(eff: DimensionValue, parent: DimensionValue, p2: Px, s: Px)
    requires eff.Fixed? || eff.Wrap?
    requires AxisFits(eff, parent, p2) && RoomForPadding(eff, p2)
    requires 0 <= p2.value && 0 <= s.value && InI32(s.value + p2.value)
    ensures Admits(ChildAxis(eff, parent, p2), s) <==> Admits(eff, Add(s, p2))
  {
    var c := ChildAxis(eff, parent, p2);
    match eff
    case Fixed(sw) =>
      assert c == Fixed(Px(sw.value - p2.value));
    case Wrap(lo, hi) =>
      assert c == Wrap(ShrinkBound(lo, p2), ShrinkBound(hi, p2));
  }

  /**
   * A `Fill` surface whose parent offers a length `b` gives its child exactly
   * `b` minus both paddings; with nothing offered the child may take any
   * length that, with the paddings, stays under the surface's own max.
   */
  lemma {:induction false} FillChildTakesOfferedLength(eff: DimensionValue, parent: DimensionValue, p2: Px, s: Px)
    requires eff.Fill?
    requires AxisFits(eff, parent, p2)
    requires 0 <= p2.value && 0 <= s.value && InI32(s.value + p2.value)
    requires ParentBound(parent).Some? ==> ParentBound(parent).value.value >= p2.value
    requires ParentBound(parent).None? ==> RoomForPadding(eff, p2)
    ensures ParentBound(parent).Some? ==>
      (Admits(ChildAxis(eff, parent, p2), s) <==> Add(s, p2) == ParentBound(parent).value)
    ensures ParentBound(parent).None? ==>
      (Admits(ChildAxis(eff, parent, p2), s) <==> (eff.max.None? || Le(Add(s, p2), eff.max.value)))
  {
    var c := ChildAxis(eff, parent, p2);
    match ParentBound(parent)
    case Some(b) =>
      assert c == Fixed(Px(b.value - p2.value));
    case None =>
      assert c == Wrap(None, ShrinkBound(eff.max, p2));
  }

  // ---------------------------------------------------------------------------
  // The surface's own size

  /**
   * The surface's size on one axis, given its content length plus both paddings:
   * `Fixed(s)` is `s`; `Wrap` is the content raised to `min` and then lowered
   * to `max`, so `max` wins when the two conflict; `Fill` is `max` when there is
   * one, else the content, and then raised to `min`.
   */
  function FinalAxis(eff: DimensionValue, content: Px): (r: Px)
    ensures eff.Fixed? ==> r == eff.size
    ensures eff.Wrap? && eff.max.Some? ==> Le(r, eff.max.value)
    ensures eff.Wrap? && eff.min.Some? && (eff.max.None? || Le(eff.min.value, eff.max.value))
      ==> Le(eff.min.value, r)
    ensures eff.Wrap? && Admits(eff, content) ==> r == content
    ensures eff.Wrap? && eff.min.Some? && content.value < eff.min.value.value &&
              (eff.max.None? || Le(eff.min.value, eff.max.value))
      ==> r == eff.min.value
    ensures eff.Wrap? && eff.max.Some? &&
              (content.value > eff.max.value.value || (eff.min.Some? && eff.min.value.value > eff.max.value.value))
      ==> r == eff.max.value
    ensures eff.Fill? && eff.min.Some? ==> Le(eff.min.value, r)
    ensures eff.Fill? && eff.max.Some? && (eff.min.None? || Le(eff.min.value, eff.max.value))
      ==> r == eff.max.value
    ensures eff.Fill? && eff.max.None? && (eff.min.None? || Le(eff.min.value, content))
      ==> r == content
    ensures eff.Fill? && eff.min.Some? && !Le(eff.min.value, if eff.max.Some? then eff.max.value else content)
      ==> r == eff.min.value
  {
    match eff
    case Fixed(s) => s
    case Wrap(lo, hi) =>
      var raised := if lo.Some? then Max(content, lo.value) else content;
      if hi.Some? then Min(raised, hi.value) else raised
    case Fill(lo, hi) =>
      var taken := if hi.Some? then hi.value else content;
      if lo.Some? then Max(taken, lo.value) else taken
  }

  /** The final-size step of the callback, reassigning one local as the source does. */
  method ResolveAxis(eff: DimensionValue, contentWithPadding: Px) returns (size: Px)
    ensures size == FinalAxis(eff, contentWithPadding)
  {
    size := contentWithPadding;
    match eff {
      case Fixed(s) =>
        size := s;
      case Wrap(lo, hi) =>
        if lo.Some? {
          size := Max(size, lo.value);
        }
        if hi.Some? {
          size := Min(size, hi.value);
        }
      case Fill(lo, hi) =>
        if hi.Some? {
          size := hi.value;
        } else {
          size := contentWithPadding;
        }
        if lo.Some? {
          size := Max(size, lo.value);
        }
    }
  }

  predicate ContentFits(content: ComputedData, p2: Px)
  {
    InI32(content.width.value + p2.value) && InI32(content.height.value + p2.value)
  }

  /**
   * The size the callback returns for a measured content size: each axis is
   * resolved for the content plus the padding and floored at 0.
   */
  function SurfaceSize(eff: Constraint, content: ComputedData, p2: Px): (r: ComputedData)
    requires ContentFits(content, p2)
    ensures r.width.value >= 0 && r.height.value >= 0
    ensures FinalAxis(eff.width, Add(content.width, p2)).value >= 0 ==>
      r.width == FinalAxis(eff.width, Add(content.width, p2))
    ensures FinalAxis(eff.width, Add(content.width, p2)).value < 0 ==> r.width == ZERO
    ensures FinalAxis(eff.height, Add(content.height, p2)).value >= 0 ==>
      r.height == FinalAxis(eff.height, Add(content.height, p2))
    ensures FinalAxis(eff.height, Add(content.height, p2)).value < 0 ==> r.height == ZERO
  {
    ComputedData(
      Max(FinalAxis(eff.width, Add(content.width, p2)), ZERO),
      Max(FinalAxis(eff.height, Add(content.height, p2)), ZERO))
  }

  /**
   * Step 5 of the callback: the content plus the padding, resolved against the
   * effective constraint on each axis and floored at 0.
   */
  method ResolveSize(eff: Constraint, content: ComputedData, p2: Px) returns (size: ComputedData)
    requires ContentFits(content, p2)
    ensures size == SurfaceSize(eff, content, p2)
  {
    var contentWidth := Add(content.width, p2);
    var contentHeight := Add(content.height, p2);
    var finalWidth := ResolveAxis(eff.width, contentWidth);
    var finalHeight := ResolveAxis(eff.height, contentHeight);
    size := ComputedData(Max(finalWidth, ZERO), Max(finalHeight, ZERO));
  }

  /** The background: an outlined rectangle when there is a border, else a filled one. */
  function SurfaceDrawable(args: SurfaceArgs): (d: Drawable)
    ensures args.hasBorder ==> d == OutlinedRect(args.borderColor.UnwrapOr(args.color), args.style)
    ensures !args.hasBorder ==> d == Rect(args.color, args.style)
  {
    if args.hasBorder then OutlinedRect(args.borderColor.UnwrapOr(args.color), args.style)
    else Rect(args.color, args.style)
  }

  // ---------------------------------------------------------------------------
  // The measure callback

  /** The surface's effective constraint: its own constraint merged with the parent's. */
  function Effective(args: SurfaceArgs, input: MeasureInput, merge: (Constraint, Constraint) -> Constraint): (c: Constraint)
    ensures c == merge(
      Constraint(args.width.UnwrapOr(WRAP_UNBOUNDED), args.height.UnwrapOr(WRAP_UNBOUNDED)),
      input.constraint)
  {
    merge(IntrinsicConstraint(args), input.constraint)
  }

  predicate MeasureFits(args: SurfaceArgs, input: MeasureInput, merge: (Constraint, Constraint) -> Constraint)
  {
    && InI32(2 * args.padding.value)
    && AxisFits(Effective(args, input, merge).width, input.constraint.width, Px(2 * args.padding.value))
    && AxisFits(Effective(args, input, merge).height, input.constraint.height, Px(2 * args.padding.value))
  }

  /**
   * Step 4 of the callback: the first child, if any, is measured under its own
   * constraint merged with `childConstraint` and placed at `(padding, padding)`.
   * With no child the content size is zero. Every failure returns before the
   * child is placed.
   */
  method MeasureFirstChild(
    childrenIds: seq<NodeId>,
    table: MetadataTable,
    merge: (Constraint, Constraint) -> Constraint,
    childConstraint: Constraint,
    padding: Px,
    childResult: Option<Result<ComputedData, MeasurementError>>)
    returns (
      content: Result<ComputedData, MeasurementError>,
      request: Option<(NodeId, Constraint)>,
      placement: Option<Placement>)
    ensures childrenIds == [] ==> content == Ok(COMPUTED_ZERO) && request.None? && placement.None?
    ensures childrenIds != [] && childrenIds[0] !in table.entries ==>
      content == Err(ChildMeasurementFailed(childrenIds[0])) && request.None? && placement.None?
    ensures childrenIds != [] && childrenIds[0] in table.entries ==>
      request == Some((childrenIds[0], merge(table.entries[childrenIds[0]].constraint, childConstraint)))
    ensures childrenIds != [] && childrenIds[0] in table.entries && childResult.None? ==>
      content.Err? && content.error.MeasureFnFailed? && placement.None?
    ensures childrenIds != [] && childrenIds[0] in table.entries && childResult.Some? ==>
      content == childResult.value
    ensures childrenIds != [] && content.Ok? ==>
      placement == Some(Placement(childrenIds[0], PxPosition(padding, padding)))
    ensures content.Err? ==> placement.None?
  {
    request, placement := None, None;
    if childrenIds == [] {
      return Ok(COMPUTED_ZERO), request, placement;
    }
    var childId := childrenIds[0];
    if childId !in table.entries {
      return Err(ChildMeasurementFailed(childId)), request, placement;
    }
    var childIntrinsic := table.entries[childId].constraint;
    request := Some((childId, merge(childIntrinsic, childConstraint)));
    if childResult.None? {
      // The message's `Debug` rendering of the child id is not modelled.
      return Err(MeasureFnFailed("Child result missing in map")), request, placement;
    }
    if childResult.value.Err? {
      return childResult.value, request, placement;
    }
    content := childResult.value;
    placement := Some(Placement(childId, PxPosition(padding, padding)));
  }

  /**
   * One run of the surface's measure callback. `merge` is the layout core's
   * constraint merge; `childResult` is the entry the engine's `measure_nodes`
   * returns for the first child (`None` when the entry is missing). The
   * returned `request` is the child and the constraint handed to `measure_nodes`;
   * `placement` is the `place_node` call the callback makes.
   */
  method Measure(
    args: SurfaceArgs,
    input: MeasureInput,
    table: MetadataTable,
    merge: (Constraint, Constraint) -> Constraint,
    childResult: Option<Result<ComputedData, MeasurementError>>)
    returns (
      r: Result<ComputedData, MeasurementError>,
      request: Option<(NodeId, Constraint)>,
      placement: Option<Placement>)
    requires MeasureFits(args, input, merge)
    requires childResult.Some? && childResult.value.Ok? ==>
      ContentFits(childResult.value.value, Px(2 * args.padding.value))
    modifies table
    ensures
      var eff := Effective(args, input, merge);
      var p2 := Px(2 * args.padding.value);
      input.childrenIds == [] ==>
        && request.None? && placement.None?
        && r == Ok(SurfaceSize(eff, COMPUTED_ZERO, p2))
        && table.entries == WithDrawable(old(table.entries), input.currentNode, SurfaceDrawable(args))
    ensures
      input.childrenIds != [] && input.childrenIds[0] !in old(table.entries) ==>
        r == Err(ChildMeasurementFailed(input.childrenIds[0])) && request.None?
    ensures
      var eff := Effective(args, input, merge);
      var p2 := Px(2 * args.padding.value);
      input.childrenIds != [] && input.childrenIds[0] in old(table.entries) ==>
        var child := input.childrenIds[0];
        && request == Some((child, merge(old(table.entries)[child].constraint, ChildConstraint(eff, input.constraint, p2))))
        && (childResult.None? ==> r.Err? && r.error.MeasureFnFailed?)
        && (childResult.Some? && childResult.value.Err? ==> r == Err(childResult.value.error))
        && (childResult.Some? && childResult.value.Ok? ==>
              && placement == Some(Placement(child, PxPosition(args.padding, args.padding)))
              && r == Ok(SurfaceSize(eff, childResult.value.value, p2))
              && table.entries == WithDrawable(old(table.entries), input.currentNode, SurfaceDrawable(args)))
    ensures r.Ok? ==> r.value.width.value >= 0 && r.value.height.value >= 0
    ensures r.Err? ==> placement.None? && table.entries == old(table.entries)
  {
    var paddingPx := args.padding;
    var padding2Px := Mul(paddingPx, 2);

    assert padding2Px == Px(2 * args.padding.value);

    var effective := Effective(args, input, merge);
    var childConstraint := ChildConstraint(effective, input.constraint, padding2Px);

    var childMeasuredSize;
    childMeasuredSize, request, placement :=
      MeasureFirstChild(input.childrenIds, table, merge, childConstraint, paddingPx, childResult);
    if childMeasuredSize.Err? {
      return Err(childMeasuredSize.error), request, placement;
    }
    var size := ResolveSize(effective, childMeasuredSize.value, padding2Px);
    table.SetDrawableIfPresent(input.currentNode, SurfaceDrawable(args));
    r := Ok(size);
  }

  /**
   * A `Fixed(400) x Fixed(70)` surface with 10 px of padding offers its child
   * `Fixed(380) x Fixed(50)` and is itself exactly `400 x 70`, whatever the
   * child measures.
   */
  lemma FixedSurfaceScenario(content: ComputedData)
    requires ContentFits(content, Px(20))
    ensures ChildConstraint(Constraint(Fixed(Px(400)), Fixed(Px(70))), Constraint(WRAP_UNBOUNDED, WRAP_UNBOUNDED), Px(20))
      == Constraint(Fixed(Px(380)), Fixed(Px(50)))
    ensures SurfaceSize(Constraint(Fixed(Px(400)), Fixed(Px(70))), content, Px(20))
      == ComputedData(Px(400), Px(70))
  {
  }
}
