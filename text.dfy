/**
 * The measure callback of the `text` component: it derives the width and
 * height bounds for text shaping from the constraint the parent offers,
 * records the shaped text as the node's drawable and reports the shaped size.
 * Shaping itself is external and enters as a function parameter.
 */
module Text {
  import opened Wrappers
  import opened Pixels
  import opened Layout

  type U8 = x: int | 0 <= x < 256

  datatype Rgb = Rgb(r: U8, g: U8, b: U8)

  const BLACK: Rgb := Rgb(0, 0, 0)

  /** The builder's default font size, `Dp(25.0)`. */
  const DEFAULT_SIZE: real := 25.0

  /** `size` and `line_height` are `Dp` values, kept as reals and never computed with. */
  datatype TextArgs = TextArgs(text: string, color: Rgb, size: real, lineHeight: Option<real>)

  /**
   * `From<String>` and `From<&str>` for `TextArgs` (both are a `seq<char>`
   * here): the given text with every other field at its builder default.
   */
  function FromText(s: string): (a: TextArgs)
    ensures a.text == s
    ensures a.color == BLACK
    ensures a.size == DEFAULT_SIZE
    ensures a.lineHeight.None?
  {
    TextArgs(s, BLACK, DEFAULT_SIZE, None)
  }

  // ---------------------------------------------------------------------------
  // Bounds for shaping

  /** The largest length an axis allows: a `Fixed` value, or a `Wrap`/`Fill` max. */
  function MaxBound(d: DimensionValue): (b: Option<Px>)
    ensures d.Fixed? ==> b == Some(d.size)
    ensures d.Wrap? || d.Fill? ==> b == d.max
  {
    match d
    case Fixed(w) => Some(w)
    case Wrap(_, hi) => hi
    case Fill(_, hi) => hi
  }

  /** The lower bound plays no part. */
  lemma MaxBoundIgnoresMin(lo1: Option<Px>, lo2: Option<Px>, hi: Option<Px>)
    ensures MaxBound(Wrap(lo1, hi)) == MaxBound(Wrap(lo2, hi)) == hi
    ensures MaxBound(Fill(lo1, hi)) == MaxBound(Fill(lo2, hi)) == hi
  {
  }

  /** A bound, when there is one, is at least every length the axis admits. */
  lemma MaxBoundIsUpperBound(d: DimensionValue, s: Px)
    requires MaxBound(d).Some? && Admits(d, s)
    ensures Le(s, MaxBound(d).value)
  {
  }

  /** A `Fixed` bound is itself admitted, so it is the least upper bound. */
  lemma FixedBoundIsAttained(d: DimensionValue)
    requires d.Fixed?
    ensures MaxBound(d).Some? && Admits(d, MaxBound(d).value)
  {
  }

  /** With no bound, the axis admits lengths above any given one short of `i32::MAX`. */
  lemma {:induction false} NoMaxBoundIsUnbounded(d: DimensionValue, b: Px)
    requires MaxBound(d).None?
    requires b.value < MAX_I32
    ensures exists s :: Admits(d, s) && b.value < s.value
  {
    var above := Px(b.value + 1);
    var s := if d.min.Some? then Max(above, d.min.value) else above;
    assert Admits(d, s);
  }

  /** The bounds handed to text shaping. */
  datatype TextConstraint = TextConstraint(maxWidth: Option<Px>, maxHeight: Option<Px>)

  /** Each axis is bounded independently of the other. */
  function ShapingBounds(c: Constraint): (tc: TextConstraint)
    ensures tc.maxWidth == MaxBound(c.width)
    ensures tc.maxHeight == MaxBound(c.height)
  {
    TextConstraint(MaxBound(c.width), MaxBound(c.height))
  }

  // ---------------------------------------------------------------------------
  // The measure callback

  /**
   * Record `d` as the drawable of node `id`: an existing entry keeps every
   * other field; a missing one is inserted as a default entry carrying `d`.
   */
  method UpsertDrawable(table: MetadataTable, id: NodeId, d: Drawable)
    modifies table
    ensures id in table.entries && table.entries[id].basicDrawable == Some(d)
    ensures table.entries.Keys == old(table.entries).Keys + {id}
    ensures id in old(table.entries) ==>
      table.entries[id] == old(table.entries)[id].(basicDrawable := Some(d))
    ensures id !in old(table.entries) ==>
      table.entries[id] == DEFAULT_METADATA.(basicDrawable := Some(d))
    ensures forall k :: k in old(table.entries) && k != id ==> table.entries[k] == old(table.entries)[k]
  {
    if id in table.entries {
      var meta := table.entries[id];
      table.entries := table.entries[id := meta.(basicDrawable := Some(d))];
    } else {
      var meta := DEFAULT_METADATA.(basicDrawable := Some(d));
      table.entries := table.entries[id := meta];
    }
  }

  /**
   * One run of the text measure callback. `shape` stands for text shaping,
   * which yields the laid-out size for the arguments and the bounds. The
   * callback never fails.
   */
  method Measure(
    args: TextArgs,
    input: MeasureInput,
    table: MetadataTable,
    shape: (TextArgs, TextConstraint) -> ComputedData)
    returns (r: Result<ComputedData, MeasurementError>)
    modifies table
    ensures r == Ok(shape(args, ShapingBounds(input.constraint)))
    ensures input.currentNode in table.entries
    ensures table.entries[input.currentNode].basicDrawable == Some(TextRun(args.text))
    ensures table.entries.Keys == old(table.entries).Keys + {input.currentNode}
    ensures input.currentNode in old(table.entries) ==>
      table.entries[input.currentNode] == old(table.entries)[input.currentNode].(basicDrawable := Some(TextRun(args.text)))
    ensures input.currentNode !in old(table.entries) ==>
      table.entries[input.currentNode] == DEFAULT_METADATA.(basicDrawable := Some(TextRun(args.text)))
    ensures forall k :: k in old(table.entries) && k != input.currentNode ==> table.entries[k] == old(table.entries)[k]
  {
    var maxWidth := MaxBound(input.constraint.width);
    var maxHeight := MaxBound(input.constraint.height);
    var size := shape(args, TextConstraint(maxWidth, maxHeight));
    UpsertDrawable(table, input.currentNode, TextRun(args.text));
    r := Ok(size);
  }
}
