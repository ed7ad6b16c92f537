/** Double-precision arithmetic as its standard error model: any rounding of reals that is
    monotone, leaves doubles alone, integers up to 2^53 among them, and is off by at most 2^-53 of the value
    (section 4.3.1 of IEEE 754-2019, away from overflow and underflow). */
module Float64 {
  const TWO_52: int := 0x10_0000_0000_0000

  ghost predicate Ieee(fl: real -> real) {
    && (forall x :: x >= 0.0 ==> WithinHalfUlp(x, fl(x)))
    && (forall x, y :: x <= y ==> fl(x) <= fl(y))
    && (forall x :: fl(fl(x)) == fl(x))
    && (forall x :: -9007199254740992.0 <= x <= 9007199254740992.0 && x == x.Floor as real ==> fl(x) == x)
  }

  /** A relative error of at most 2^-53. */
  predicate WithinHalfUlp(x: real, rounded: real) {
    (x - rounded) * 9007199254740992.0 <= x && (rounded - x) * 9007199254740992.0 <= x
  }

  /** The model is not empty: exact arithmetic satisfies it. */
  lemma {:induction false} ExactIsIeee()
    ensures Ieee(x => x)
  {
  }

  /** Rust's `trunc`. */
  function Trunc(x: real): int {
    if x >= 0.0 then x.Floor else -((-x).Floor)
  }
}

/** programs/earn/src/utils/conversion.rs. */
module Conversion {
  import opened Float64
  import opened Numbers

  const U64_MAX: nat := 0xFFFF_FFFF_FFFF_FFFF
  const U128_MAX: nat := 0xFFFF_FFFF_FFFF_FFFF_FFFF_FFFF_FFFF_FFFF
  const INDEX_SCALE: nat := 1_000_000_000_000

  type u64 = x: int | 0 <= x <= U64_MAX

  datatype Result<+T> = Ok(value: T) | MathOverflow | MathUnderflow | TypeConversionError

  function IndexToMultiplier(fl: real -> real, index: u64): real {
    fl(fl(index as real) / INDEX_SCALE as real)
  }

  /** Values above the largest u64 saturate in the final cast. */
  function MultiplierToIndex(fl: real -> real, multiplier: real): Result<u64> {
    var index := Trunc(fl(INDEX_SCALE as real * multiplier));
    if index < 0 then MathUnderflow
    else if index as real > fl(U64_MAX as real) then MathOverflow
    else Ok(if index <= U64_MAX then index else U64_MAX)
  }

  /** The integer index that the conversions compute with: truncated, then cast to u128 with saturation. */
  function IndexOf(fl: real -> real, multiplier: real): (r: nat)
    ensures r <= U128_MAX
  {
    var index := Trunc(fl(multiplier * INDEX_SCALE as real));
    if index < 0 then 0 else if index > U128_MAX then U128_MAX else index
  }

  function Narrow(x: nat): Result<u64> {
    if x <= U64_MAX then Ok(x) else TypeConversionError
  }

  function PrincipalDown(amount: u64, index: nat): Result<u64> {
    if index == 0 then MathUnderflow else Narrow(amount * INDEX_SCALE / index)
  }

  function PrincipalUp(amount: u64, index: nat): Result<u64> {
    if index == 0 then MathUnderflow
    else if amount * INDEX_SCALE + (index - 1) > U128_MAX then MathOverflow
    else Narrow((amount * INDEX_SCALE + (index - 1)) / index)
  }

  function AmountDown(principal: u64, index: nat): Result<u64> {
    if index * principal > U128_MAX then MathOverflow else Narrow(index * principal / INDEX_SCALE)
  }

  function AmountUp(principal: u64, index: nat): Result<u64> {
    if index * principal > U128_MAX || index * principal + (INDEX_SCALE - 1) > U128_MAX then MathOverflow
    else Narrow((index * principal + (INDEX_SCALE - 1)) / INDEX_SCALE)
  }

  function AmountToPrincipalDown(fl: real -> real, amount: u64, multiplier: real): Result<u64> {
    if multiplier == 1.0 then Ok(amount) else PrincipalDown(amount, IndexOf(fl, multiplier))
  }

  function AmountToPrincipalUp(fl: real -> real, amount: u64, multiplier: real): Result<u64> {
    if multiplier == 1.0 then Ok(amount) else PrincipalUp(amount, IndexOf(fl, multiplier))
  }

  function PrincipalToAmountDown(fl: real -> real, principal: u64, multiplier: real): Result<u64> {
    if multiplier == 1.0 then Ok(principal) else AmountDown(principal, IndexOf(fl, multiplier))
  }

  function PrincipalToAmountUp(fl: real -> real, principal: u64, multiplier: real): Result<u64> {
    if multiplier == 1.0 then Ok(principal) else AmountUp(principal, IndexOf(fl, multiplier))
  }

  /** The widths that conversions are checked against. */
  lemma {:induction false} WidthsArePowers()
    ensures U64_MAX + 1 == Pow2(64) && U128_MAX + 1 == Pow2(128) && TWO_52 == Pow2(52)
  {
    hide Pow2;
    Pow2OfTwo();
    Pow2Add(2, 2);
    Pow2Add(4, 4);
    Pow2Add(8, 8);
    Pow2Add(16, 16);
    Pow2Add(32, 32);
    Pow2Add(64, 64);
    Pow2Add(32, 16);
    Pow2Add(48, 4);
  }

  // ---------------------------------------------------------------- when conversions succeed

  /** Converting a principal fails exactly when the amount does not fit 64 bits. */
  lemma {:induction false} AmountFits(principal: u64, index: nat)
    ensures AmountUp(principal, index).Ok? <==> index * principal <= U64_MAX * INDEX_SCALE
    ensures AmountDown(principal, index).Ok? <==> index * principal < (U64_MAX + 1) * INDEX_SCALE
  {
    var n := index * principal;
    CeilAtMost(n, INDEX_SCALE, U64_MAX);
    FloorAtLeast(n, INDEX_SCALE, U64_MAX + 1);
  }

  /** Converting an amount fails exactly for a zero index or a principal that does not fit; the
      rounded-up form also when the index itself is too close to 2^128. */
  lemma {:induction false} PrincipalFits(amount: u64, index: nat)
    ensures PrincipalDown(amount, index).Ok? <==> index > 0 && amount * INDEX_SCALE < (U64_MAX + 1) * index
    ensures PrincipalUp(amount, index).Ok? <==>
      index > 0 && amount * INDEX_SCALE <= U64_MAX * index && amount * INDEX_SCALE + (index - 1) <= U128_MAX
  {
    if index > 0 {
      CeilAtMost(amount * INDEX_SCALE, index, U64_MAX);
      FloorAtLeast(amount * INDEX_SCALE, index, U64_MAX + 1);
    }
  }

  // ---------------------------------------------------------------- adjunctions

  /** Owing `principal` rounded up fits in `amount` exactly when `principal` fits in what
      `amount` is worth rounded down. */
  lemma {:induction false} UpToAmountAdjointDownToPrincipal(fl: real -> real, principal: u64, amount: u64,
                                                            multiplier: real)
    requires PrincipalToAmountUp(fl, principal, multiplier).Ok?
    requires AmountToPrincipalDown(fl, amount, multiplier).Ok?
    ensures PrincipalToAmountUp(fl, principal, multiplier).value <= amount
      <==> principal <= AmountToPrincipalDown(fl, amount, multiplier).value
  {
    if multiplier != 1.0 {
      var index := IndexOf(fl, multiplier);
      CeilAtMost(index * principal, INDEX_SCALE, amount);
      FloorAtLeast(amount * INDEX_SCALE, index, principal);
    }
  }

  /** ... and the other pair. */
  lemma {:induction false} UpToPrincipalAdjointDownToAmount(fl: real -> real, principal: u64, amount: u64,
                                                            multiplier: real)
    requires AmountToPrincipalUp(fl, amount, multiplier).Ok?
    requires PrincipalToAmountDown(fl, principal, multiplier).Ok?
    ensures AmountToPrincipalUp(fl, amount, multiplier).value <= principal
      <==> amount <= PrincipalToAmountDown(fl, principal, multiplier).value
  {
    if multiplier != 1.0 {
      var index := IndexOf(fl, multiplier);
      CeilAtMost(amount * INDEX_SCALE, index, principal);
      FloorAtLeast(index * principal, INDEX_SCALE, amount);
      assert index * principal == principal * index;
    }
  }

  // ---------------------------------------------------------------- the index a multiplier stands for

  /** The index is the scaled multiplier rounded down, up to one rounding of the product. */
  lemma {:induction false} IndexOfNear(fl: real -> real, multiplier: real)
    requires Ieee(fl)
    ensures multiplier <= 0.0 ==> IndexOf(fl, multiplier) == 0
    ensures multiplier >= 0.0 && fl(multiplier * INDEX_SCALE as real) < U128_MAX as real ==>
      var scaled, index := multiplier * INDEX_SCALE as real, IndexOf(fl, multiplier);
      && index as real <= fl(scaled) < index as real + 1.0
      && WithinHalfUlp(scaled, fl(scaled))
    ensures fl(multiplier * INDEX_SCALE as real) >= U128_MAX as real ==> IndexOf(fl, multiplier) == U128_MAX
  {
    var scaled := multiplier * INDEX_SCALE as real;
    assert fl(0.0) == 0.0;
    if multiplier <= 0.0 {
      assert scaled <= 0.0 && fl(scaled) <= fl(0.0);
      TruncOfNegative(fl(scaled));
    } else {
      assert fl(scaled) >= fl(0.0);
    }
  }

  lemma {:induction false} TruncOfNegative(x: real)
    requires x <= 0.0
    ensures Trunc(x) <= 0
  {
  }

  /** The multiplier of an index stands for that index or the one below it. */
  lemma {:induction false} IndexOfMultiplier(fl: real -> real, i: u64)
    requires Ieee(fl) && i < TWO_52
    ensures i >= 1 ==> IndexOf(fl, IndexToMultiplier(fl, i)) == i || IndexOf(fl, IndexToMultiplier(fl, i)) == i - 1
    ensures i == 0 ==> IndexOf(fl, IndexToMultiplier(fl, i)) == 0
  {
    hide IndexToMultiplier, Trunc;
    if i >= 1 {
      var m := IndexToMultiplier(fl, i);
      RoundedScaledMultiplier(fl, i);
      assert INDEX_SCALE as real * m == m * INDEX_SCALE as real;
      TruncBetween(fl(m * INDEX_SCALE as real), i);
    } else {
      ZeroMultiplier(fl);
      IndexOfNear(fl, 0.0);
    }
  }

  lemma {:induction false} ZeroMultiplier(fl: real -> real)
    requires Ieee(fl)
    ensures IndexToMultiplier(fl, 0) == 0.0
  {
  }

  /** All four conversions compute with that index, the shortcut included. */
  lemma {:induction false} ConversionsUseIndex(fl: real -> real, x: u64, multiplier: real)
    requires Ieee(fl)
    ensures var index := IndexOf(fl, multiplier);
      && AmountToPrincipalDown(fl, x, multiplier) == PrincipalDown(x, index)
      && AmountToPrincipalUp(fl, x, multiplier) == PrincipalUp(x, index)
      && PrincipalToAmountDown(fl, x, multiplier) == AmountDown(x, index)
      && PrincipalToAmountUp(fl, x, multiplier) == AmountUp(x, index)
  {
    hide IndexOf, PrincipalDown, PrincipalUp, AmountDown, AmountUp;
    if multiplier == 1.0 {
      ShortcutAgrees(fl, x);
    }
  }

  /** What a principal is worth at the multiplier of index i: i * p / S, rounded either way, computed with i
      or with the index below it. */
  lemma {:induction false} AmountAtIndex(fl: real -> real, principal: u64, i: u64)
    requires Ieee(fl) && 1 <= i < TWO_52
    ensures match PrincipalToAmountDown(fl, principal, IndexToMultiplier(fl, i))
      case Ok(a) => (i - 1) * principal < (a + 1) * INDEX_SCALE && a * INDEX_SCALE <= i * principal
      case _ => i * principal >= (U64_MAX + 1) * INDEX_SCALE
    ensures match PrincipalToAmountUp(fl, principal, IndexToMultiplier(fl, i))
      case Ok(a) => (i - 1) * principal <= a * INDEX_SCALE && (a - 1) * INDEX_SCALE < i * principal
      case _ => i * principal > U64_MAX * INDEX_SCALE
  {
    hide IndexToMultiplier, IndexOf, Ieee, AmountDown, AmountUp, PrincipalToAmountDown, PrincipalToAmountUp;
    var m := IndexToMultiplier(fl, i);
    var index := IndexOf(fl, m);
    IndexOfMultiplier(fl, i);
    ConversionsUseIndex(fl, principal, m);
    AmountBrackets(principal, index);
    ScaleUp(index, i, principal);
    ScaleUp(i - 1, index, principal);
  }

  /** Both roundings of index * principal / S, or neither fits. */
  lemma {:induction false} AmountBrackets(principal: u64, index: nat)
    ensures match AmountDown(principal, index)
      case Ok(a) => a * INDEX_SCALE <= index * principal < (a + 1) * INDEX_SCALE
      case _ => index * principal >= (U64_MAX + 1) * INDEX_SCALE
    ensures match AmountUp(principal, index)
      case Ok(a) => (a - 1) * INDEX_SCALE < index * principal <= a * INDEX_SCALE
      case _ => index * principal > U64_MAX * INDEX_SCALE
  {
    var n := index * principal;
    AmountFits(principal, index);
    FloorBetween(n, INDEX_SCALE);
    FloorBetween(n + (INDEX_SCALE - 1), INDEX_SCALE);
  }

  /** What an amount is worth in principal at the multiplier of index i. */
  lemma {:induction false} PrincipalAtIndex(fl: real -> real, amount: u64, i: u64)
    requires Ieee(fl) && 2 <= i < TWO_52
    ensures match AmountToPrincipalDown(fl, amount, IndexToMultiplier(fl, i))
      case Ok(p) => p * (i - 1) <= amount * INDEX_SCALE < (p + 1) * i
      case _ => amount * INDEX_SCALE >= (U64_MAX + 1) * (i - 1)
    ensures match AmountToPrincipalUp(fl, amount, IndexToMultiplier(fl, i))
      case Ok(p) => amount * INDEX_SCALE <= p * i && (p - 1) * (i - 1) < amount * INDEX_SCALE
      case _ => amount * INDEX_SCALE > U64_MAX * (i - 1)
  {
    hide IndexToMultiplier, IndexOf, Ieee, PrincipalDown, PrincipalUp, AmountToPrincipalDown, AmountToPrincipalUp;
    var m := IndexToMultiplier(fl, i);
    var index := IndexOf(fl, m);
    IndexOfMultiplier(fl, i);
    ConversionsUseIndex(fl, amount, m);
    PrincipalBrackets(amount, index);
    if PrincipalDown(amount, index).Ok? {
      Narrowed(amount * INDEX_SCALE, PrincipalDown(amount, index).value, index, i);
    }
    if PrincipalUp(amount, index).Ok? {
      Widened(amount * INDEX_SCALE, PrincipalUp(amount, index).value, index, i);
    }
    ScaleUp(i - 1, index, U64_MAX + 1);
    ScaleUp(i - 1, index, U64_MAX);
  }

  lemma {:induction false} Narrowed(n: nat, p: nat, index: nat, i: nat)
    requires i - 1 <= index <= i && p * index <= n < (p + 1) * index
    ensures p * (i - 1) <= n < (p + 1) * i
  {
    ScaleUp(i - 1, index, p);
    ScaleUp(index, i, p + 1);
  }

  lemma {:induction false} Widened(n: nat, p: nat, index: nat, i: nat)
    requires 0 < i - 1 <= index <= i && (p - 1) * index < n <= p * index
    ensures (p - 1) * (i - 1) < n <= p * i
  {
    ScaleUp(index, i, p);
    if p > 0 {
      ScaleUp(i - 1, index, p - 1);
    }
  }

  /** Both roundings of amount * S / index for indices below 2^52, or neither fits. */
  lemma {:induction false} PrincipalBrackets(amount: u64, index: nat)
    requires 0 < index < TWO_52
    ensures match PrincipalDown(amount, index)
      case Ok(p) => p * index <= amount * INDEX_SCALE < (p + 1) * index
      case _ => amount * INDEX_SCALE >= (U64_MAX + 1) * index
    ensures match PrincipalUp(amount, index)
      case Ok(p) => amount * INDEX_SCALE <= p * index && (p - 1) * index < amount * INDEX_SCALE
      case _ => amount * INDEX_SCALE > U64_MAX * index
  {
    var n := amount * INDEX_SCALE;
    PrincipalFits(amount, index);
    FloorBetween(n, index);
    FloorBetween(n + (index - 1), index);
    ScaleUp(amount, U64_MAX, INDEX_SCALE);
    var q := (n + (index - 1)) / index;
    assert (q + 1) * index == q * index + index && (q - 1) * index == q * index - index;
  }

  /** A scaled-up supply stays within the old one exactly if supply times index stays within the old
      supply times the scale: a conversion that fails would not have fitted either. */
  lemma {:induction false} ScaledWithin(fl: real -> real, supply: u64, multiplier: real, limit: u64)
    requires Ieee(fl)
    ensures var amount := PrincipalToAmountUp(fl, supply, multiplier);
      amount.Ok? && amount.value <= limit <==> supply * IndexOf(fl, multiplier) <= limit * INDEX_SCALE
  {
    hide IndexOf, Ieee;
    var index := IndexOf(fl, multiplier);
    ConversionsUseIndex(fl, supply, multiplier);
    AmountFits(supply, index);
    CeilAtMost(index * supply, INDEX_SCALE, limit);
    ScaleUp(limit, U64_MAX, INDEX_SCALE);
    assert supply * index == index * supply;
  }

  // ---------------------------------------------------------------- round trips

  /** A multiplier of at least one computes with an index of at least the scale, one with exactly the scale. */
  lemma {:induction false} IndexAtLeastScale(fl: real -> real, multiplier: real)
    requires Ieee(fl) && multiplier >= 1.0
    ensures IndexOf(fl, multiplier) >= INDEX_SCALE
    ensures multiplier == 1.0 ==> IndexOf(fl, multiplier) == INDEX_SCALE
  {
  }

  /** The shortcut for a multiplier of one returns what the formulas would. */
  lemma {:induction false} ShortcutAgrees(fl: real -> real, x: u64)
    requires Ieee(fl)
    ensures var index := IndexOf(fl, 1.0);
      PrincipalDown(x, index) == PrincipalUp(x, index) == AmountDown(x, index) == AmountUp(x, index) == Ok(x)
  {
    IndexAtLeastScale(fl, 1.0);
    QuotientOfMultiple(x);
  }

  lemma {:induction false} QuotientOfMultiple(x: nat)
    ensures x * INDEX_SCALE / INDEX_SCALE == x && (x * INDEX_SCALE + (INDEX_SCALE - 1)) / INDEX_SCALE == x
  {
  }

  /** Principal to amount rounded up, and back rounded down, is the identity. */
  lemma {:induction false} UpThenDownIsIdentity(fl: real -> real, principal: u64, multiplier: real)
    requires Ieee(fl) && multiplier >= 1.0 && PrincipalToAmountUp(fl, principal, multiplier).Ok?
    ensures AmountToPrincipalDown(fl, PrincipalToAmountUp(fl, principal, multiplier).value, multiplier) == Ok(principal)
  {
    if multiplier != 1.0 {
      IndexAtLeastScale(fl, multiplier);
      FloorAfterCeil(principal, IndexOf(fl, multiplier), INDEX_SCALE);
    }
  }

  lemma {:induction false} FloorAfterCeil(principal: nat, index: nat, scale: nat)
    requires 0 < scale <= index
    ensures (index * principal + (scale - 1)) / scale * scale / index == principal
  {
    var n := index * principal;
    var a := (n + (scale - 1)) / scale;
    CeilAtMost(n, scale, a);
    FloorAtLeast(n + (scale - 1), scale, a);
    FloorAtLeast(a * scale, index, principal);
    FloorAtLeast(a * scale, index, principal + 1);
    assert (principal + 1) * index == n + index;
    assert principal * index == n;
  }

  /** Principal to amount rounded down, and back rounded up, is the identity: an amount that fits
      64 bits never makes the way back overflow. */
  lemma {:induction false} DownThenUpIsIdentity(fl: real -> real, principal: u64, multiplier: real)
    requires Ieee(fl) && multiplier >= 1.0 && PrincipalToAmountDown(fl, principal, multiplier).Ok?
    ensures AmountToPrincipalUp(fl, PrincipalToAmountDown(fl, principal, multiplier).value, multiplier) == Ok(principal)
  {
    hide Ieee, IndexOf;
    if multiplier != 1.0 {
      var index := IndexOf(fl, multiplier);
      IndexAtLeastScale(fl, multiplier);
      AmountFits(principal, index);
      WayBackFits(principal, index);
      CeilAfterFloor(principal, index, INDEX_SCALE);
    }
  }

  lemma {:induction false} WayBackFits(principal: nat, index: nat)
    requires index <= U128_MAX && index * principal < (U64_MAX + 1) * INDEX_SCALE
    ensures index * principal / INDEX_SCALE * INDEX_SCALE + (index - 1) <= U128_MAX
  {
    FloorBetween(index * principal, INDEX_SCALE);
    if principal > 0 {
      ScaleUp(1, principal, index);
    }
  }

  lemma {:induction false} CeilAfterFloor(principal: nat, index: nat, scale: nat)
    requires 0 < scale <= index
    ensures (index * principal / scale * scale + (index - 1)) / index == principal
  {
    var n := index * principal;
    var a := n / scale;
    FloorAtLeast(n, scale, a);
    FloorAtLeast(n, scale, a + 1);
    CeilAtMost(a * scale, index, principal);
    assert principal * index == n;
    assert (a + 1) * scale == a * scale + scale;
    if principal > 0 {
      CeilAtMost(a * scale, index, principal - 1);
      assert (principal - 1) * index == n - index;
    }
  }

  // ---------------------------------------------------------------- multipliers and indices

  /** A larger index never has a smaller multiplier, for all 64-bit indices. */
  lemma {:induction false} MultiplierMonotone(fl: real -> real, i: u64, j: u64)
    requires Ieee(fl) && i <= j
    ensures IndexToMultiplier(fl, i) <= IndexToMultiplier(fl, j)
  {
  }

  /** A multiplier is itself a double, within two roundings of the quotient. */
  lemma {:induction false} MultiplierIsDouble(fl: real -> real, i: u64)
    requires Ieee(fl)
    ensures var m := IndexToMultiplier(fl, i);
      && fl(m) == m >= 0.0
      && WithinHalfUlp(fl(i as real) / INDEX_SCALE as real, m)
      && WithinHalfUlp(i as real, fl(i as real))
  {
    assert fl(i as real) >= fl(0.0) == 0.0;
  }

  /** Below 2^52 rounding keeps distinct indices apart: multipliers are ordered exactly as
      the indices they come from. */
  lemma {:induction false} MultiplierOrderIsIndexOrder(fl: real -> real, i: u64, j: u64)
    requires Ieee(fl) && i < TWO_52 && j < TWO_52
    ensures IndexToMultiplier(fl, i) < IndexToMultiplier(fl, j) <==> i < j
  {
  }

  lemma {:induction false} IntegerIsExact(fl: real -> real, n: nat)
    requires Ieee(fl) && n <= 0x20_0000_0000_0000
    ensures fl(n as real) == n as real
  {
  }

  lemma {:induction false} RoundedScaledMultiplier(fl: real -> real, i: u64)
    requires Ieee(fl) && 1 <= i < TWO_52
    ensures i as real - 1.0 < fl(INDEX_SCALE as real * IndexToMultiplier(fl, i)) < i as real + 1.0
  {
  }

  /** Which multipliers have an index at all: the rounded product truncates to a negative number only
      from -1 down, and too large ones are refused; otherwise it is the product without its fraction. */
  lemma {:induction false} MultiplierToIndexCases(fl: real -> real, multiplier: real)
    requires Ieee(fl)
    ensures var w := fl(INDEX_SCALE as real * multiplier);
      match MultiplierToIndex(fl, multiplier)
      case MathUnderflow => w <= -1.0
      case MathOverflow => w > fl(U64_MAX as real) && w >= 0.0
      case Ok(i) =>
        && w > -1.0 && (w < 0.0 ==> i == 0)
        && (0.0 <= w < U64_MAX as real ==> i as real <= w < i as real + 1.0)
      case TypeConversionError => false
  {
    var w := fl(INDEX_SCALE as real * multiplier);
    assert fl(0.0) == 0.0 <= fl(U64_MAX as real);
    if w >= 0.0 {
      assert w.Floor as real <= w < w.Floor as real + 1.0;
    } else {
      assert (-w).Floor as real <= -w < (-w).Floor as real + 1.0;
    }
  }

  /** Converting an index to a multiplier and back gives the index or the one below it. */
  lemma {:induction false} IndexRoundTrip(fl: real -> real, i: u64)
    requires Ieee(fl) && 1 <= i < TWO_52
    ensures MultiplierToIndex(fl, IndexToMultiplier(fl, i)) in {Ok(i), Ok(i - 1)}
  {
    hide IndexToMultiplier, Trunc;
    RoundedScaledMultiplier(fl, i);
    TruncBetween(fl(INDEX_SCALE as real * IndexToMultiplier(fl, i)), i);
    IntegerIsExact(fl, TWO_52);
    assert fl(TWO_52 as real) <= fl(U64_MAX as real);
  }

  lemma {:induction false} TruncBetween(w: real, i: nat)
    requires i >= 1 && i as real - 1.0 < w < i as real + 1.0
    ensures Trunc(w) == i || Trunc(w) == i - 1
  {
  }
}
