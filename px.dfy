/**
 * The physical-pixel algebra of tessera: `Px`, a wrapper around a signed 32-bit
 * integer, and `PxPosition`, a pair of them.
 *
 * Rust's plain `+ - * /` and unary `-` on `i32` panic on overflow in debug
 * builds, so the matching functions here require that the exact result fits in
 * 32 bits. The saturating operations are total and clamp.
 */
module Pixels {

  const MIN_I32: int := -0x8000_0000
  const MAX_I32: int := 0x7FFF_FFFF
  const MAX_U32: int := 0xFFFF_FFFF
  const TWO_POW_32: int := 0x1_0000_0000

  type I32 = x: int | -0x8000_0000 <= x <= 0x7FFF_FFFF
  type U32 = x: int | 0 <= x <= 0xFFFF_FFFF

  predicate InI32(x: int)
  {
    MIN_I32 <= x <= MAX_I32
  }

  function AbsInt(x: int): nat
  {
    if x < 0 then -x else x
  }

  /** A physical pixel quantity; negative values are allowed (scrolling). */
  datatype Px = Px(value: I32)

  const ZERO: Px := Px(0)
  const MAX: Px := Px(MAX_I32)

  // ---------------------------------------------------------------------------
  // Construction and the raw value

  function New(value: I32): (p: Px)
    ensures p.value == value
  {
    Px(value)
  }

  function Raw(p: Px): (r: I32)
    ensures New(r) == p
  {
    p.value
  }

  /** `From<i32> for Px` */
  function FromI32(v: I32): (p: Px)
    ensures Raw(p) == v
  {
    Px(v)
  }

  /**
   * `u as i32` in Rust: the same 32 bits read as two's complement, so values
   * above `i32::MAX` come out negative.
   */
  function U32AsI32(u: U32): (r: I32)
    ensures (r - u) % TWO_POW_32 == 0
    ensures u <= MAX_I32 ==> r == u
    ensures u > MAX_I32 ==> r < 0
  {
    if u <= MAX_I32 then u else u - TWO_POW_32
  }

  /** `From<u32> for Px`, a wrapping cast. */
  function FromU32(u: U32): (p: Px)
    ensures u <= MAX_I32 ==> p.value == u
    ensures u > MAX_I32 ==> p.value == u - TWO_POW_32
  {
    Px(U32AsI32(u))
  }

  // ---------------------------------------------------------------------------
  // Order: the derived `Ord` compares the raw values

  predicate Le(a: Px, b: Px)
  {
    a.value <= b.value
  }

  /** `Ord::max`: `b` when `b >= a`, else `a`. */
  function Max(a: Px, b: Px): (r: Px)
    ensures Le(a, r) && Le(b, r)
    ensures r == a || r == b
  {
    if Le(a, b) then b else a
  }

  /** `Ord::min`: `a` when `a <= b`, else `b`. */
  function Min(a: Px, b: Px): (r: Px)
    ensures Le(r, a) && Le(r, b)
    ensures r == a || r == b
  {
    if Le(a, b) then a else b
  }

  lemma LeIsTotalOrder(a: Px, b: Px, c: Px)
    ensures Le(a, a)
    ensures Le(a, b) && Le(b, a) ==> a == b
    ensures Le(a, b) && Le(b, c) ==> Le(a, c)
    ensures Le(a, b) || Le(b, a)
  {
  }

  // ---------------------------------------------------------------------------
  // Absolute value (clamp to zero)

  /**
   * `Px::abs`: `max(v, 0) as u32`. Despite its name it is not an absolute
   * value: every negative input maps to 0.
   */
  function Abs(p: Px): (r: U32)
    ensures p.value >= 0 ==> r == p.value
    ensures p.value < 0 ==> r == 0
  {
    Max(p, ZERO).value as U32
  }

  lemma AbsIsNotAbsoluteValue()
    ensures Abs(Px(10)) == 10
    ensures Abs(Px(-5)) == 0
    ensures Abs(Px(0)) == 0
    ensures Abs(Px(-5)) != AbsInt(-5)
  {
  }

  // ---------------------------------------------------------------------------
  // Saturating arithmetic

  function ClampI32(x: int): (r: I32)
    ensures InI32(x) ==> r == x
    ensures x > MAX_I32 ==> r == MAX_I32
    ensures x < MIN_I32 ==> r == MIN_I32
  {
    if x > MAX_I32 then MAX_I32 else if x < MIN_I32 then MIN_I32 else x
  }

  /** `Px::saturating_add`: `a + b` clamped to the `i32` range. */
  function SaturatingAdd(a: Px, b: Px): (r: Px)
    ensures InI32(a.value + b.value) ==> r.value == a.value + b.value
    ensures a.value + b.value > MAX_I32 ==> r == MAX
    ensures a.value + b.value < MIN_I32 ==> r.value == MIN_I32
  {
    Px(ClampI32(a.value + b.value))
  }

  /** `Px::saturating_sub`: `a - b` clamped to the `i32` range. */
  function SaturatingSub(a: Px, b: Px): (r: Px)
    ensures InI32(a.value - b.value) ==> r.value == a.value - b.value
    ensures a.value - b.value > MAX_I32 ==> r == MAX
    ensures a.value - b.value < MIN_I32 ==> r.value == MIN_I32
  {
    Px(ClampI32(a.value - b.value))
  }

  lemma SaturatingAtBounds()
    ensures SaturatingAdd(MAX, Px(1)) == MAX
    ensures SaturatingSub(Px(MIN_I32), Px(1)) == Px(MIN_I32)
  {
  }

  // ---------------------------------------------------------------------------
  // Plain arithmetic (panics on overflow in debug builds)

  function Add(a: Px, b: Px): (r: Px)
    requires InI32(a.value + b.value)
    ensures r.value == a.value + b.value
  {
    Px(a.value + b.value)
  }

  function Sub(a: Px, b: Px): (r: Px)
    requires InI32(a.value - b.value)
    ensures r.value == a.value - b.value
  {
    Px(a.value - b.value)
  }

  /** `Neg for Px`; `-i32::MIN` overflows. */
  function Neg(a: Px): (r: Px)
    requires a.value != MIN_I32
    ensures a.value + r.value == 0
  {
    Px(-a.value)
  }

  /** `Mul<i32> for Px` */
  function Mul(a: Px, k: I32): (r: Px)
    requires InI32(a.value * k)
    ensures r.value == a.value * k
  {
    Px(a.value * k)
  }

  /**
   * Rust's `/` on `i32`: the quotient truncated toward zero, so the remainder
   * `n - q * d` is smaller than `d` in magnitude and is zero or has the sign of
   * `n`. (Dafny's own `/` is Euclidean and differs for negative operands.)
   */
  function TruncDiv(n: int, d: int): (q: int)
    requires d != 0
    ensures AbsInt(n - q * d) < AbsInt(d)
    ensures n - q * d == 0 || (n - q * d < 0 <==> n < 0)
    ensures AbsInt(q) * AbsInt(d) <= AbsInt(n)
  {
    TruncQuotientFacts(n, d);
    TruncQuotient(n, d)
  }

  /** Quotient of the magnitudes, with the sign of `n * d`. */
  function TruncQuotient(n: int, d: int): int
    requires d != 0
  {
    if (n < 0) == (d < 0) then AbsInt(n) / AbsInt(d) else -(AbsInt(n) / AbsInt(d))
  }

  lemma TruncQuotientFacts(n: int, d: int)
    requires d != 0
    ensures var q := TruncQuotient(n, d);
      && AbsInt(n - q * d) < AbsInt(d)
      && (n - q * d == 0 || (n - q * d < 0 <==> n < 0))
      && AbsInt(q) * AbsInt(d) <= AbsInt(n)
  {
    MagnitudeDivMod(n, d);
    QuotientProduct(n, d);
    QuotientMagnitude(n, d);
    RemainderFromProduct(n, AbsInt(n), AbsInt(d), AbsInt(n) % AbsInt(d),
      (AbsInt(n) / AbsInt(d)) * AbsInt(d), TruncQuotient(n, d) * d);
  }

  lemma MagnitudeDivMod(n: int, d: int)
    requires d != 0
    ensures var nn: int, dd: int := AbsInt(n), AbsInt(d);
      nn == (nn / dd) * dd + nn % dd && 0 <= nn % dd < dd
  {
  }

  lemma QuotientMagnitude(n: int, d: int)
    requires d != 0
    ensures AbsInt(TruncQuotient(n, d)) == AbsInt(n) / AbsInt(d)
  {
    var qq := AbsInt(n) / AbsInt(d);
    QuotientOfMagnitudes(AbsInt(n), AbsInt(d));
    if (n < 0) == (d < 0) {
      assert TruncQuotient(n, d) == qq;
    } else {
      assert TruncQuotient(n, d) == -qq;
    }
  }

  lemma QuotientOfMagnitudes(a: int, b: int)
    requires a >= 0 && b > 0
    ensures a / b >= 0
  {
  }

  /** The linear core of the remainder facts, with both products as plain values. */
  lemma RemainderFromProduct(n: int, nn: int, dd: int, rr: int, p: int, qd: int)
    requires nn == AbsInt(n) && dd > 0
    requires nn == p + rr && 0 <= rr < dd
    requires qd == (if n < 0 then -p else p)
    ensures AbsInt(n - qd) < dd
    ensures n - qd == 0 || (n - qd < 0 <==> n < 0)
    ensures p <= nn
  {
  }

  /** `q * d` carries the sign of `n` and the magnitude `|q| * |d|`. */
  lemma QuotientProduct(n: int, d: int)
    requires d != 0
    ensures var qq: int := AbsInt(n) / AbsInt(d);
      TruncQuotient(n, d) * d == (if n < 0 then -(qq * AbsInt(d)) else qq * AbsInt(d))
  {
    var qq: int, dd: int := AbsInt(n) / AbsInt(d), AbsInt(d);
    var q := TruncQuotient(n, d);
    if n < 0 && d < 0 {
      assert q == qq && d == -dd;
      NegateFactor(qq, dd);
    } else if n < 0 {
      assert q == -qq && d == dd;
      NegateFactor(qq, dd);
    } else if d < 0 {
      assert q == -qq && d == -dd;
      NegateFactor(qq, dd);
    } else {
      assert q == qq && d == dd;
    }
  }

  lemma NegateFactor(a: int, b: int)
    ensures (-a) * b == -(a * b) && a * (-b) == -(a * b) && (-a) * (-b) == a * b
  {
  }

  lemma AbsMul(m: int, d: int)
    ensures AbsInt(m * d) == AbsInt(m) * AbsInt(d)
  {
    var am: int, ad: int := AbsInt(m), AbsInt(d);
    if m < 0 && d < 0 { assert m * d == am * ad; }
    else if m < 0 { assert m * d == -(am * ad); }
    else if d < 0 { assert m * d == -(am * ad); }
  }

  lemma ScaleAtLeast(m: nat, d: nat, k: nat)
    requires d >= k
    ensures m * d >= m * k
  {
    assert m * d == m * k + m * (d - k);
  }

  /** Any two quotients that leave a remainder of the right size and sign agree. */
  lemma {:induction false} TruncDivUnique(n: int, d: int, q: int)
    requires d != 0
    requires AbsInt(n - q * d) < AbsInt(d)
    requires n - q * d == 0 || (n - q * d < 0 <==> n < 0)
    ensures q == TruncDiv(n, d)
  {
    var q' := TruncDiv(n, d);
    RemaindersClose(n - q * d, n - q' * d, AbsInt(d), n < 0);
    ProductDifference(q, q', d);
    SmallMultipleIsZero(q - q', d, q * d - q' * d);
  }

  lemma ProductDifference(q: int, q': int, d: int)
    ensures q * d - q' * d == (q - q') * d
  {
  }

  /** The only multiple of `d` smaller than `d` in magnitude is 0. */
  lemma SmallMultipleIsZero(m: int, d: int, x: int)
    requires d != 0 && x == m * d && AbsInt(x) < AbsInt(d)
    ensures m == 0
  {
    if m != 0 {
      AbsMul(m, d);
      ScaleAtLeast(AbsInt(d), AbsInt(m), 1);
      assert false;
    }
  }

  lemma RemaindersClose(r: int, r': int, bound: int, negative: bool)
    requires AbsInt(r) < bound && AbsInt(r') < bound
    requires r == 0 || (r < 0 <==> negative)
    requires r' == 0 || (r' < 0 <==> negative)
    ensures AbsInt(r' - r) < bound
  {
  }

  /** `Div<i32> for Px`; dividing by 0 or `i32::MIN / -1` panics. */
  function Div(a: Px, d: I32): (r: Px)
    requires d != 0
    requires !(a.value == MIN_I32 && d == -1)
    ensures r.value == TruncDiv(a.value, d)
  {
    var q := TruncDiv(a.value, d);
    assert InI32(q) by {
      ScaleAtLeast(AbsInt(q), AbsInt(d), 1);
      if a.value == MIN_I32 && AbsInt(d) != 1 {
        ScaleAtLeast(AbsInt(q), AbsInt(d), 2);
      }
    }
    Px(q)
  }

  /** The integer tests of px.rs: `10 + 5`, `10 - 5`, `10 * 2`, `10 / 2`. */
  lemma ArithmeticExamples()
    ensures Add(Px(10), Px(5)) == Px(15)
    ensures Sub(Px(10), Px(5)) == Px(5)
    ensures Mul(Px(10), 2) == Px(20)
    ensures Div(Px(10), 2) == Px(5)
    ensures Div(Px(-7), 2) == Px(-3)
  {
    TruncDivUnique(10, 2, 5);
    TruncDivUnique(-7, 2, -3);
  }

  lemma {:induction false} DivUndoesMul(a: Px, k: I32)
    requires k != 0
    requires InI32(a.value * k)
    ensures !(Mul(a, k).value == MIN_I32 && k == -1)
    ensures Div(Mul(a, k), k) == a
  {
    TruncDivUnique(a.value * k, k, a.value);
  }

  lemma NegInvolutive(a: Px)
    requires a.value != MIN_I32
    ensures Neg(a).value != MIN_I32
    ensures Neg(Neg(a)) == a
  {
  }

  lemma SubIsAddNeg(a: Px, b: Px)
    requires b.value != MIN_I32
    requires InI32(a.value - b.value)
    ensures Sub(a, b) == Add(a, Neg(b))
  {
  }

  lemma SaturatingAgreesWithPlain(a: Px, b: Px)
    ensures InI32(a.value + b.value) ==> SaturatingAdd(a, b) == Add(a, b)
    ensures InI32(a.value - b.value) ==> SaturatingSub(a, b) == Sub(a, b)
  {
  }

  /** `AddAssign for Px`: `self.0 += rhs.0` on a place holding `x`. */
  method AddAssign(x: Px, rhs: Px) returns (x': Px)
    requires InI32(x.value + rhs.value)
    ensures x' == Add(x, rhs)
  {
    x' := x;
    x' := x'.(value := x'.value + rhs.value);
  }

  // ---------------------------------------------------------------------------
  // Positions

  datatype PxPosition = PxPosition(x: Px, y: Px)

  const ORIGIN: PxPosition := PxPosition(ZERO, ZERO)

  function NewPosition(x: Px, y: Px): (p: PxPosition)
    ensures p.x == x && p.y == y
  {
    PxPosition(x, y)
  }

  predicate AddFits(p: PxPosition, q: PxPosition)
  {
    InI32(p.x.value + q.x.value) && InI32(p.y.value + q.y.value)
  }

  predicate SubFits(p: PxPosition, q: PxPosition)
  {
    InI32(p.x.value - q.x.value) && InI32(p.y.value - q.y.value)
  }

  /** `Add for PxPosition`, componentwise */
  function PositionAdd(p: PxPosition, q: PxPosition): (r: PxPosition)
    requires AddFits(p, q)
    ensures r.x == Add(p.x, q.x) && r.y == Add(p.y, q.y)
  {
    PxPosition(Add(p.x, q.x), Add(p.y, q.y))
  }

  /** `Sub for PxPosition`, componentwise */
  function PositionSub(p: PxPosition, q: PxPosition): (r: PxPosition)
    requires SubFits(p, q)
    ensures r.x == Sub(p.x, q.x) && r.y == Sub(p.y, q.y)
  {
    PxPosition(Sub(p.x, q.x), Sub(p.y, q.y))
  }

  lemma AddThenSubCancels(p1: PxPosition, p2: PxPosition)
    requires AddFits(p1, p2)
    ensures SubFits(PositionAdd(p1, p2), p2)
    ensures PositionSub(PositionAdd(p1, p2), p2) == p1
  {
  }

  lemma SubThenAddCancels(p1: PxPosition, p2: PxPosition)
    requires SubFits(p1, p2)
    ensures AddFits(PositionSub(p1, p2), p2)
    ensures PositionAdd(PositionSub(p1, p2), p2) == p1
  {
  }

  lemma PositionAddCommutes(p: PxPosition, q: PxPosition)
    requires AddFits(p, q)
    ensures AddFits(q, p) && PositionAdd(p, q) == PositionAdd(q, p)
  {
  }

  /** `PxPosition::offset`: panics in debug builds when a component overflows. */
  function Offset(p: PxPosition, dx: Px, dy: Px): (r: PxPosition)
    requires InI32(p.x.value + dx.value) && InI32(p.y.value + dy.value)
    ensures AddFits(p, NewPosition(dx, dy)) && r == PositionAdd(p, NewPosition(dx, dy))
  {
    PxPosition(Add(p.x, dx), Add(p.y, dy))
  }

  /** `PxPosition::saturating_offset`: total, clamps each component separately. */
  function SaturatingOffset(p: PxPosition, dx: Px, dy: Px): (r: PxPosition)
    ensures InI32(p.x.value + dx.value) && InI32(p.y.value + dy.value) ==> r == Offset(p, dx, dy)
    ensures p.x.value + dx.value > MAX_I32 ==> r.x == MAX
    ensures p.x.value + dx.value < MIN_I32 ==> r.x.value == MIN_I32
    ensures p.y.value + dy.value > MAX_I32 ==> r.y == MAX
    ensures p.y.value + dy.value < MIN_I32 ==> r.y.value == MIN_I32
    ensures InI32(p.x.value + dx.value) ==> r.x.value == p.x.value + dx.value
    ensures InI32(p.y.value + dy.value) ==> r.y.value == p.y.value + dy.value
  {
    PxPosition(SaturatingAdd(p.x, dx), SaturatingAdd(p.y, dy))
  }

  lemma OffsetExample()
    ensures Offset(PxPosition(Px(10), Px(-5)), Px(2), Px(3)) == PxPosition(Px(12), Px(-2))
  {
  }

  // ---------------------------------------------------------------------------
  // Array conversions

  type I32Pair = s: seq<I32> | |s| == 2 witness [0, 0]
  type U32Pair = s: seq<U32> | |s| == 2 witness [0, 0]
  type PxPair = s: seq<Px> | |s| == 2 witness [ZERO, ZERO]

  /** `From<[i32; 2]> for PxPosition` */
  function FromI32Pair(a: I32Pair): (p: PxPosition)
    ensures p.x.value == a[0] && p.y.value == a[1]
  {
    PxPosition(Px(a[0]), Px(a[1]))
  }

  /** `From<PxPosition> for [i32; 2]` */
  function ToI32Pair(p: PxPosition): (a: I32Pair)
    ensures a[0] == p.x.value && a[1] == p.y.value
  {
    [p.x.value, p.y.value]
  }

  lemma I32PairRoundTrip(a: I32Pair, p: PxPosition)
    ensures ToI32Pair(FromI32Pair(a)) == a
    ensures FromI32Pair(ToI32Pair(p)) == p
  {
  }

  /** `From<[u32; 2]> for PxPosition`: each component is cast with `as i32`. */
  function FromU32Pair(a: U32Pair): (p: PxPosition)
    ensures p.x == FromU32(a[0]) && p.y == FromU32(a[1])
  {
    PxPosition(Px(U32AsI32(a[0])), Px(U32AsI32(a[1])))
  }

  /** `From<PxPosition> for [u32; 2]`: each component through `Px::abs`. */
  function ToU32Pair(p: PxPosition): (a: U32Pair)
    ensures a[0] == Abs(p.x) && a[1] == Abs(p.y)
  {
    [Abs(p.x), Abs(p.y)]
  }

  /**
   * `[u32; 2] -> PxPosition -> [u32; 2]`: a component up to `i32::MAX` comes
   * back unchanged; a larger one wraps negative and comes back as 0.
   */
  lemma {:induction false} U32PairRoundTrip(a: U32Pair)
    ensures forall i :: 0 <= i < 2 ==>
      ToU32Pair(FromU32Pair(a))[i] == if a[i] <= MAX_I32 then a[i] else 0
    ensures ToU32Pair(FromU32Pair(a)) == a <==> a[0] <= MAX_I32 && a[1] <= MAX_I32
  {
    var b := ToU32Pair(FromU32Pair(a));
    forall i | 0 <= i < 2
      ensures b[i] == if a[i] <= MAX_I32 then a[i] else 0
    {
      if i == 0 { assert b[0] == Abs(FromU32(a[0])); } else { assert b[1] == Abs(FromU32(a[1])); }
    }
    if a[0] <= MAX_I32 && a[1] <= MAX_I32 {
      assert b == a;
    }
  }

  /** `PxPosition -> [u32; 2] -> PxPosition` is the identity exactly on non-negative positions. */
  lemma PositionU32RoundTrip(p: PxPosition)
    ensures FromU32Pair(ToU32Pair(p)) == p <==> p.x.value >= 0 && p.y.value >= 0
  {
  }

  /** `From<[Px; 2]> for PxPosition` */
  function FromPxPair(a: PxPair): (p: PxPosition)
    ensures p.x == a[0] && p.y == a[1]
  {
    PxPosition(a[0], a[1])
  }

  /** `From<PxPosition> for [Px; 2]` */
  function ToPxPair(p: PxPosition): (a: PxPair)
    ensures a[0] == p.x && a[1] == p.y
  {
    [p.x, p.y]
  }

  lemma PxPairRoundTrip(a: PxPair, p: PxPosition)
    ensures ToPxPair(FromPxPair(a)) == a
    ensures FromPxPair(ToPxPair(p)) == p
  {
  }

  lemma ConversionExamples()
    ensures ToI32Pair(FromI32Pair([10, -5])) == [10, -5]
    ensures ToU32Pair(FromU32Pair([10, 5])) == [10, 5]
  {
    I32PairRoundTrip([10, -5], ORIGIN);
    U32PairRoundTrip([10, 5]);
  }
}
