/**
 * The vocabulary of tessera's layout core that the basic components use:
 * per-axis dimension values, constraints, measured sizes, measurement errors,
 * the per-node metadata table and cursor events.
 *
 * The constraint merge, the component tree and the measure/place engine are
 * not part of this model; the components receive their results as inputs.
 */
module Layout {
  import opened Wrappers
  import opened Pixels

  /** Identity of a node in the per-frame component tree. */
  type NodeId = nat

  /** How one axis of a node is to be sized. */
  datatype DimensionValue =
    | Fixed(size: Px)
    | Wrap(min: Option<Px>, max: Option<Px>)
    | Fill(min: Option<Px>, max: Option<Px>)

  const WRAP_UNBOUNDED: DimensionValue := Wrap(None, None)

  datatype Constraint = Constraint(width: DimensionValue, height: DimensionValue)

  /** A resolved size. */
  datatype ComputedData = ComputedData(width: Px, height: Px)

  const COMPUTED_ZERO: ComputedData := ComputedData(ZERO, ZERO)

  datatype MeasurementError =
    | ChildMeasurementFailed(child: NodeId)
    | MeasureFnFailed(message: string)

  /**
   * A length `s` is admitted by a dimension value when it meets every bound the
   * value states. This is a reference reading of the three variants, used to
   * state what the components' constraint arithmetic means.
   */
  predicate Admits(d: DimensionValue, s: Px)
  {
    match d
    case Fixed(f) => s == f
    case Wrap(lo, hi) => (lo.None? || Le(lo.value, s)) && (hi.None? || Le(s, hi.value))
    case Fill(lo, hi) => (lo.None? || Le(lo.value, s)) && (hi.None? || Le(s, hi.value))
  }

  /** No length stated by the dimension value is negative. */
  predicate NonNegative(d: DimensionValue)
  {
    match d
    case Fixed(f) => f.value >= 0
    case Wrap(lo, hi) => (lo.None? || lo.value.value >= 0) && (hi.None? || hi.value.value >= 0)
    case Fill(lo, hi) => (lo.None? || lo.value.value >= 0) && (hi.None? || hi.value.value >= 0)
  }

  /** An RGBA colour; its four `f32` channels are not modelled. */
  datatype Color = Color(token: nat)

  /** Corner radius, shadow and border width of a shape, all `f32`: opaque. */
  datatype ShapeStyle = ShapeStyle(token: nat)

  /**
   * The drawable a node records for itself; payloads are opaque to layout.
   * `TrackRect` is the switch track, whose `f32` corner radius is half of
   * `trackHeight`.
   */
  datatype Drawable =
    | Rect(color: Color, style: ShapeStyle)
    | OutlinedRect(color: Color, style: ShapeStyle)
    | TextRun(text: string)
    | TrackRect(color: Color, trackHeight: Px)

  /** One entry of the per-frame metadata table. */
  datatype NodeMetaData = NodeMetaData(
    constraint: Constraint,
    computedData: Option<ComputedData>,
    relPosition: Option<PxPosition>,
    basicDrawable: Option<Drawable>)

  /** The metadata a fresh entry starts with. */
  const DEFAULT_METADATA: NodeMetaData :=
    NodeMetaData(Constraint(WRAP_UNBOUNDED, WRAP_UNBOUNDED), None, None, None)

  /** A request to the engine to place `node` at `position` relative to its parent. */
  datatype Placement = Placement(node: NodeId, position: PxPosition)

  /** What a measure callback is handed (the table is passed beside it). */
  datatype MeasureInput = MeasureInput(
    currentNode: NodeId,
    constraint: Constraint,
    childrenIds: seq<NodeId>)

  /**
   * `metadatas.get_mut(id)` followed by a write of `basic_drawable`: the entry,
   * if there is one, gets the drawable; nothing is inserted and nothing else
   * changes.
   */
  function WithDrawable(m: map<NodeId, NodeMetaData>, id: NodeId, d: Drawable): (m': map<NodeId, NodeMetaData>)
    ensures m'.Keys == m.Keys
    ensures forall k :: k in m && k != id ==> m'[k] == m[k]
    ensures id in m ==> m'[id] == m[id].(basicDrawable := Some(d))
  {
    if id in m then m[id := m[id].(basicDrawable := Some(d))] else m
  }

  /** The per-frame metadata side table, shared by every measure callback of a frame. */
  class MetadataTable {
    var entries: map<NodeId, NodeMetaData>

    constructor (initial: map<NodeId, NodeMetaData>)
      ensures entries == initial
    {
      entries := initial;
    }

    method SetDrawableIfPresent(id: NodeId, d: Drawable)
      modifies this
      ensures entries == WithDrawable(old(entries), id, d)
    {
      if id in entries {
        var meta := entries[id];
        entries := entries[id := meta.(basicDrawable := Some(d))];
      }
    }
  }

  // ---------------------------------------------------------------------------
  // Cursor input of one frame

  datatype PressKeyEventType = Left | Right | Middle

  datatype CursorEventContent =
    | Pressed(button: PressKeyEventType)
    | Released(button: PressKeyEventType)
    | Scrolled
    | Moved(position: PxPosition)

  /** A cursor event; the timestamp is an instant on a monotonic clock. */
  datatype CursorEvent = CursorEvent(timestamp: nat, content: CursorEventContent)
}
