/** Converting integers to `f64`, where the condition language compares them. */
module F64 {
  const TWO_53 := 0x20_0000_0000_0000

  function RoundTo(i: int, unit: int): int
    requires unit > 0
  {
    var q, r := i / unit, i % unit;
    if 2 * r < unit || (2 * r == unit && q % 2 == 0) then q * unit else (q + 1) * unit
  }

  /** Integer to `f64` and back: 53 significant bits, ties to even. */
  function RoundF64(i: int, unit: int := 1): int
    requires unit > 0
    decreases (if i < 0 then -i else i) - unit
  {
    if -TWO_53 * unit <= i <= TWO_53 * unit then RoundTo(i, unit) else RoundF64(i, 2 * unit)
  }

  /** What is assumed of a double: it is a fixed point of the rounding, and has no fraction from 2^53 on. */
  predicate IsF64(r: real) {
    if r == r.Floor as real then RoundF64(r.Floor) == r.Floor else -TWO_53 as real < r < TWO_53 as real
  }

  /** The powers of two. */
  ghost predicate IsPower(unit: int) {
    unit == 1 || (unit > 1 && unit % 2 == 0 && IsPower(unit / 2))
  }

  lemma RoundToNearest(i: int, unit: int)
    requires unit > 0
    ensures var r := RoundTo(i, unit);
            r % unit == 0 && -unit <= 2 * (r - i) <= unit &&
            (2 * (r - i) == unit || 2 * (r - i) == -unit ==> (r / unit) % 2 == 0)
  {
    var q := i / unit;
    Multiple(q, unit);
    Multiple(q + 1, unit);
    assert (q + 1) * unit == q * unit + unit;
    assert i == q * unit + i % unit;
  }

  /**
   What converting to a double does: the unit in the last place is the least power of two that leaves
   53 significant bits, the result is a nearest multiple of it, and of two nearest the even one.
   */
  lemma {:induction false} RoundsToNearest(i: int, from: int) returns (unit: int)
    requires from > 0 && IsPower(from)
    requires from == 1 || i > TWO_53 * (from / 2) || i < -TWO_53 * (from / 2)
    ensures IsPower(unit) && -9_007_199_254_740_992 * unit <= i <= 9_007_199_254_740_992 * unit
    ensures unit == 1 || i > 9_007_199_254_740_992 * (unit / 2) || i < -9_007_199_254_740_992 * (unit / 2)
    ensures unit > 0 &&
            var r := RoundF64(i, from);
            r % unit == 0 && -unit <= 2 * (r - i) <= unit &&
            (2 * (r - i) == unit || 2 * (r - i) == -unit ==> (r / unit) % 2 == 0)
    decreases (if i < 0 then -i else i) - from
  {
    hide RoundTo;
    if -TWO_53 * from <= i <= TWO_53 * from {
      unit := from;
      RoundToNearest(i, from);
    } else {
      unit := RoundsToNearest(i, 2 * from);
    }
  }

  lemma Scale(a: int, b: int, unit: int)
    requires a <= b && unit > 0
    ensures a * unit <= b * unit
  {
  }

  lemma RoundToBounds(i: int, unit: int)
    requires unit > 0
    ensures var q := i / unit; RoundTo(i, unit) == q * unit || RoundTo(i, unit) == (q + 1) * unit
    ensures (i / unit) * unit <= RoundTo(i, unit) <= (i / unit + 1) * unit
  {
    Scale(i / unit, i / unit + 1, unit);
  }

  lemma RoundToMonotone(i: int, j: int, unit: int)
    requires unit > 0 && i <= j
    ensures RoundTo(i, unit) <= RoundTo(j, unit)
  {
    var p, q := i / unit, j / unit;
    QuotientMonotone(i, j, unit);
    RoundToBounds(i, unit);
    RoundToBounds(j, unit);
    if p < q {
      Scale(p + 1, q, unit);
    } else {
      assert i % unit == i - p * unit && j % unit == j - q * unit;
      Scale(q, q + 1, unit);
    }
  }

  lemma Cancel(a: int, b: int, unit: int)
    requires unit > 0
    ensures a * unit < b * unit ==> a < b
  {
    if b <= a {
      Scale(b, a, unit);
    }
  }

  lemma QuotientBounds(i: int, unit: int)
    requires unit > 0
    ensures (i / unit) * unit <= i < (i / unit + 1) * unit
  {
    assert i == (i / unit) * unit + i % unit;
    assert (i / unit + 1) * unit == (i / unit) * unit + unit;
  }

  lemma QuotientMonotone(i: int, j: int, unit: int)
    requires unit > 0 && i <= j
    ensures i / unit <= j / unit
  {
    QuotientBounds(i, unit);
    QuotientBounds(j, unit);
    Cancel(i / unit, j / unit + 1, unit);
  }

  lemma RoundToMultiple(k: int, unit: int)
    requires unit > 0
    ensures RoundTo(k * unit, unit) == k * unit
  {
    Multiple(k, unit);
  }

  lemma Multiple(k: int, unit: int)
    requires unit > 0
    ensures (k * unit) / unit == k && (k * unit) % unit == 0
  {
    var q := (k * unit) / unit;
    QuotientBounds(k * unit, unit);
    Cancel(k, q + 1, unit);
    assert (k + 1) * unit == k * unit + unit;
    Cancel(q, k + 1, unit);
    assert k * unit == q * unit + (k * unit) % unit;
  }

  /** Above a power of two, rounding does not fall below it; likewise from the other side. */
  lemma {:induction false} RoundStaysOut(j: int, half: int)
    requires half > 0
    ensures j >= TWO_53 * half ==> RoundF64(j, 2 * half) >= TWO_53 * half
    ensures j <= -TWO_53 * half ==> RoundF64(j, 2 * half) <= -TWO_53 * half
    decreases (if j < 0 then -j else j) - half
  {
    hide RoundTo;
    var unit, k := 2 * half, TWO_53 / 2;
    assert TWO_53 * half == k * unit && -TWO_53 * half == -k * unit;
    if -TWO_53 * unit <= j <= TWO_53 * unit {
      RoundToMultiple(k, unit);
      RoundToMultiple(-k, unit);
      if j >= k * unit {
        RoundToMonotone(k * unit, j, unit);
      }
      if j <= -k * unit {
        RoundToMonotone(j, -k * unit, unit);
      }
    } else {
      RoundStaysOut(j, unit);
    }
  }

  lemma {:induction false} RoundMonotoneFrom(i: int, j: int, unit: int)
    requires unit > 0 && i <= j
    ensures RoundF64(i, unit) <= RoundF64(j, unit)
    decreases (if i < 0 then -i else i) + (if j < 0 then -j else j) - unit
  {
    hide RoundTo;
    var top := TWO_53 * unit;
    RoundToMultiple(TWO_53, unit);
    RoundToMultiple(-TWO_53, unit);
    RoundStaysOut(i, unit);
    RoundStaysOut(j, unit);
    if -top <= i <= top && -top <= j <= top {
      RoundToMonotone(i, j, unit);
    } else if -top <= i <= top {
      RoundToMonotone(i, top, unit);
    } else if -top <= j <= top {
      RoundToMonotone(-top, j, unit);
    } else {
      RoundMonotoneFrom(i, j, 2 * unit);
    }
  }

  /** The conversion keeps the order of integers, though not their differences. */
  lemma RoundMonotone(i: int, j: int)
    requires i <= j
    ensures RoundF64(i) <= RoundF64(j)
  {
    RoundMonotoneFrom(i, j, 1);
  }

  lemma RoundExact(i: int)
    requires -TWO_53 <= i <= TWO_53
    ensures RoundF64(i) == i
  {
    RoundToMultiple(i, 1);
  }

  /** An integer and a double keep their order too. */
  lemma RoundAgainstDouble(i: int, r: real)
    requires IsF64(r)
    ensures i as real <= r ==> RoundF64(i) as real <= r
    ensures r <= i as real ==> r <= RoundF64(i) as real
    ensures i as real == r ==> RoundF64(i) as real == r
  {
    hide RoundF64;
    if r == r.Floor as real {
      if i <= r.Floor {
        RoundMonotone(i, r.Floor);
      }
      if r.Floor <= i {
        RoundMonotone(r.Floor, i);
      }
    } else if -TWO_53 <= i <= TWO_53 {
      RoundExact(i);
    } else {
      RoundExact(TWO_53);
      RoundExact(-TWO_53);
      if i < -TWO_53 {
        RoundMonotone(i, -TWO_53);
      } else {
        RoundMonotone(TWO_53, i);
      }
    }
  }
}
