/** The power-of-two ladder of src/utility.h: the bit-smearing loop that finds the largest power of two
    not above a number, and the shape of the sequence of rungs. */
module Ladder {
  import opened Basics

  predicate IsPower(n: nat) {
    n == 1 || (n >= 2 && n % 2 == 0 && IsPower(n / 2))
  }

  /** Bitwise operations on numbers written in binary. */
  function Or(a: nat, b: nat): nat {
    if a == 0 && b == 0 then 0 else (if a % 2 == 1 || b % 2 == 1 then 1 else 0) + 2 * Or(a / 2, b / 2)
  }

  function And(a: nat, b: nat): nat {
    if a == 0 || b == 0 then 0 else (if a % 2 == 1 && b % 2 == 1 then 1 else 0) + 2 * And(a / 2, b / 2)
  }

  function Shr(v: nat, r: nat): nat
    decreases r, v
  {
    if r == 0 then v else Shr(v / 2, r - 1)
  }

  /** `(v & (v - 1)) == 0`, the subtraction wrapping around at 0. */
  predicate IsPowerOf2(v: nat) { v == 0 || And(v, v - 1) == 0 }

  lemma {:induction false} AndSelf(v: nat)
    ensures And(v, v) == v
    decreases v
  {
    if v == 0 {
    } else {
      AndSelf(v / 2);
    }
  }

  /** The bit trick accepts the powers of two, and 0. */
  lemma {:induction false} BitTrickExactlyWhen(v: nat)
    ensures IsPowerOf2(v) <==> v == 0 || IsPower(v)
    decreases v
  {
    if v >= 2 && v % 2 == 1 {
      AndSelf(v / 2);
    } else if v >= 2 {
      BitTrickExactlyWhen(v / 2);
    }
  }

  // ---- Smearing -----------------------------------------------------------------------------------

  function BitLength(n: nat): nat { if n == 0 then 0 else 1 + BitLength(n / 2) }

  function FloorPower(n: nat): (p: nat)
    requires n >= 1
    ensures p <= n < 2 * p && IsPower(p)
  {
    if n == 1 then 1 else 2 * FloorPower(n / 2)
  }

  /** `v` fits in `bits` bits and its `ones` highest bits are set. */
  predicate TopOnes(v: nat, bits: nat, ones: nat) {
    ones <= bits && v < Pow2(bits) && v + Pow2(bits - ones) >= Pow2(bits)
  }

  lemma {:induction false} ShrHalf(v: nat, r: nat)
    ensures Shr(v, r) / 2 == Shr(v / 2, r)
    decreases r
  {
    if r == 0 {
    } else {
      ShrHalf(v / 2, r - 1);
    }
  }

  lemma {:induction false} ShrZero(v: nat, r: nat)
    ensures Shr(v, r) == 0 <==> v < Pow2(r)
    decreases r
  {
    if r == 0 {
    } else {
      ShrZero(v / 2, r - 1);
    }
  }

  lemma {:induction false} ShrAllOnes(v: nat, bits: nat, r: nat)
    requires r <= bits && v < Pow2(bits) && v + Pow2(r) >= Pow2(bits)
    ensures Shr(v, r) == Pow2(bits - r) - 1
    decreases r
  {
    if r == 0 {
    } else {
      ShrAllOnes(v / 2, bits - 1, r - 1);
    }
  }

  lemma {:induction false} PowersGrow(a: nat, b: nat)
    requires a <= b
    ensures Pow2(a) <= Pow2(b)
    decreases b
  {
    if a == b {
    } else {
      PowersGrow(a, b - 1);
    }
  }

  /** The lowest bit gets set when the doubled block of ones reaches it. */
  lemma LowestBit(v: nat, bits: nat, r: nat)
    requires bits >= 1 && r >= 1 && 2 * r >= bits && TopOnes(v, bits, Min(r, bits))
    ensures v % 2 == 1 || Shr(v, r) % 2 == 1
  {
    hide *;
    ExceptTop(v, bits, r);
    PowerDoubles(bits);
    if r < bits {
      PowersGrow(bits - r, r);
      PowerDoubles(bits - r);
      ShrAllOnes(v, bits, r);
    }
  }

  /** One round doubles the number of leading ones. */
  lemma {:induction false} SmearDoubles(v: nat, bits: nat, r: nat)
    requires r >= 1 && TopOnes(v, bits, Min(r, bits))
    ensures TopOnes(Or(v, Shr(v, r)), bits, Min(2 * r, bits))
    decreases bits
  {
    if bits > 0 {
      var m := Min(r, bits);
      assert Pow2(bits) == 2 * Pow2(bits - 1);
      if r < bits {
        assert Pow2(bits - r) == 2 * Pow2(bits - 1 - r);
      }
      SmearDoubles(v / 2, bits - 1, r);
      ShrHalf(v, r);
      HalfOfOr(v, Shr(v, r));
      if 2 * r < bits {
        assert Pow2(bits - 2 * r) == 2 * Pow2(bits - 1 - 2 * r);
      } else {
        LowestBit(v, bits, r);
      }
    } else {
      ShrZero(0, r);
    }
  }

  lemma HalfOfOr(a: nat, b: nat)
    ensures Or(a, b) / 2 == Or(a / 2, b / 2)
    ensures Or(a, b) % 2 == 1 <==> a % 2 == 1 || b % 2 == 1
  {}

  lemma {:induction false} BitLengthBounds(n: nat)
    requires n >= 1
    ensures BitLength(n) >= 1 && Pow2(BitLength(n) - 1) <= n < Pow2(BitLength(n))
    decreases n
  {
    if n == 1 {
    } else {
      BitLengthBounds(n / 2);
    }
  }

  lemma {:induction false} FloorPowerIs(n: nat, p: nat)
    requires n >= 1 && IsPower(p) && p <= n < 2 * p
    ensures FloorPower(n) == p
    decreases n
  {
    if n == 1 {
    } else {
      FloorPowerIs(n / 2, p / 2);
    }
  }

  lemma {:induction false} Pow2IsPower(n: nat)
    ensures IsPower(Pow2(n))
    decreases n
  {
    if n == 0 {
    } else {
      Pow2IsPower(n - 1);
    }
  }

  lemma {:induction false} PowerIs(n: nat) returns (k: nat)
    requires IsPower(n)
    ensures n == Pow2(k)
    decreases n
  {
    if n == 1 {
      k := 0;
    } else {
      var half := PowerIs(n / 2);
      k := half + 1;
    }
  }

  /** The rung after `previous`, with `steps` rungs between powers of two. */
  function Next(previous: nat, steps: nat): nat
    requires steps >= 1
  {
    if previous < 2 * steps then previous + 1 else previous + FloorPower(previous) / steps
  }

  /** How a call ends: with a rung, on one of the assertions, with a shift of an int by 32 places, which
      C++ leaves undefined, or with a division by zero. */
  datatype Outcome = To(rung: nat) | AssertionFails | ShiftUndefined | DividesByZero

  /** The C++ function on every pair of arguments. The bit trick lets a `steps` of 0 through. */
  method StepFunctionPower2Ladder(previous: nat, steps: nat) returns (next: Outcome)
    ensures next == AssertionFails <==> (steps != 0 && !IsPower(steps)) || (steps == 0 && previous == 0)
    ensures next == ShiftUndefined <==>
              (steps == 0 || IsPower(steps)) && previous >= 2 * steps && previous >= 0x2_0000
    ensures next == DividesByZero <==> steps == 0 && 1 <= previous < 0x2_0000
    ensures next.To? ==> steps >= 1 && next.rung == Next(previous, steps)
  {
    hide *;
    BitTrickExactlyWhen(steps);
    if !IsPowerOf2(steps) {
      return AssertionFails;
    }
    if steps >= 1 {
      NextIs(previous, steps);
    }
    if previous < 2 * steps {
      return To(previous + 1);
    }
    var prevPower2: nat := previous / 2;
    var rshift: nat := 1;
    ghost var bits := BitLength(previous / 2);
    SmearStarts(previous / 2);
    while true
      invariant rshift in {1, 2, 4, 8, 16, 32} && TopOnes(prevPower2, bits, Min(rshift, bits))
      invariant rshift == 32 ==> bits > 16
      decreases 32 - rshift
    {
      if rshift >= 32 {
        Wide(previous);
        return ShiftUndefined;
      }
      var shifted := Shr(prevPower2, rshift);
      if shifted == 0 {
        break;
      }
      SmearStep(prevPower2, bits, rshift);
      prevPower2 := Or(prevPower2, shifted);
      rshift := rshift * 2;
    }
    SmearEnds(previous, prevPower2, rshift);
    Wide(previous);
    prevPower2 := prevPower2 + 1;
    assert IsPowerOf2(prevPower2);
    if !(prevPower2 <= previous < 2 * prevPower2) {
      return AssertionFails;
    }
    if steps == 0 {
      return DividesByZero;
    }
    assert prevPower2 == FloorPower(previous);
    return To(previous + prevPower2 / steps);
  }

  lemma NextIs(previous: nat, steps: nat)
    requires steps >= 1
    ensures Next(previous, steps) ==
            if previous < 2 * steps then previous + 1 else previous + FloorPower(previous) / steps
  {}

  lemma SmearStarts(half: nat)
    ensures TopOnes(half, BitLength(half), Min(1, BitLength(half)))
  {
    if half >= 1 {
      BitLengthBounds(half);
      PowerDoubles(BitLength(half));
    }
  }

  lemma SmearStep(v: nat, bits: nat, r: nat)
    requires r >= 1 && TopOnes(v, bits, Min(r, bits)) && Shr(v, r) != 0
    ensures bits > r && TopOnes(Or(v, Shr(v, r)), bits, Min(2 * r, bits))
  {
    ShrZero(v, r);
    if bits <= r {
      PowersGrow(bits, r);
    }
    SmearDoubles(v, bits, r);
  }

  /** At the exit every bit is set, so one more gives the power of two the two assertions ask for, except
      for 0. */
  lemma SmearEnds(previous: nat, v: nat, r: nat)
    requires r in {1, 2, 4, 8, 16}
    requires TopOnes(v, BitLength(previous / 2), Min(r, BitLength(previous / 2))) && Shr(v, r) == 0
    ensures IsPowerOf2(v + 1) && BitLength(previous / 2) <= r
    ensures if previous == 0 then v == 0 else v + 1 == FloorPower(previous)
  {
    hide Pow2, Shr;
    var bits := BitLength(previous / 2);
    ShrZero(v, r);
    AllOnesAtExit(v, bits, r);
    Pow2IsPower(bits);
    BitTrickExactlyWhen(v + 1);
    HalfPower(previous);
    if previous >= 1 {
      FloorPowerIs(previous, v + 1);
    }
  }

  lemma HalfPower(previous: nat)
    ensures previous == 0 ==> Pow2(BitLength(previous / 2)) == 1
    ensures previous >= 1 ==> Pow2(BitLength(previous / 2)) <= previous < 2 * Pow2(BitLength(previous / 2))
  {
    if previous >= 2 {
      BitLengthBounds(previous / 2);
      PowerDoubles(BitLength(previous / 2));
    }
  }

  lemma AllOnesAtExit(v: nat, bits: nat, r: nat)
    requires r >= 1 && TopOnes(v, bits, Min(r, bits)) && v < Pow2(r)
    ensures v + 1 == Pow2(bits) && bits <= r
  {
    hide *;
    ExceptTop(v, bits, r);
    if r < bits {
      PowerDoubles(bits);
      PowersGrow(r, bits - 1);
      PowersGrow(bits - r, bits - 1);
    }
  }

  /** What `TopOnes` says once the ones are all of the bits, and when they are not. */
  lemma ExceptTop(v: nat, bits: nat, r: nat)
    requires TopOnes(v, bits, Min(r, bits))
    ensures r >= bits ==> v + 1 == Pow2(bits)
    ensures r < bits ==> Pow2(bits) <= v + Pow2(bits - r) && v < Pow2(bits)
  {
    if r >= bits {
      assert bits - Min(r, bits) == 0;
    }
  }

  lemma Wide(previous: nat)
    ensures BitLength(previous / 2) > 16 <==> previous >= 0x2_0000
  {
    var bits := BitLength(previous / 2);
    if previous >= 2 {
      BitLengthBounds(previous / 2);
    }
    assert Pow2(4) == 16 && Pow2(8) == 256 && Pow2(16) == 0x1_0000;
    if bits <= 16 {
      PowersGrow(bits, 16);
    } else {
      PowersGrow(16, bits - 1);
    }
  }

  // ---- The shape of the ladder ---------------------------------------------------------------------

  function Rung(start: nat, steps: nat, k: nat): nat
    requires steps >= 1
    decreases k
  {
    if k == 0 then start else Next(Rung(start, steps, k - 1), steps)
  }

  /** Every rung is above the one before it. */
  lemma NextIsHigher(previous: nat, steps: nat)
    requires steps >= 1
    ensures previous < Next(previous, steps)
  {
    if previous >= 2 * steps {
      var p := FloorPower(previous);
      assert p >= steps;
      AtLeastOnce(p, steps);
    }
  }

  lemma AtLeastOnce(p: nat, steps: nat)
    requires steps >= 1 && p >= steps
    ensures p / steps >= 1
  {}

  lemma {:induction false} StrictlyIncreasing(start: nat, steps: nat, i: nat, j: nat)
    requires steps >= 1 && i < j
    ensures Rung(start, steps, i) < Rung(start, steps, j)
    decreases j
  {
    NextIsHigher(Rung(start, steps, j - 1), steps);
    if i == j - 1 {
    } else {
      StrictlyIncreasing(start, steps, i, j - 1);
    }
  }

  lemma {:induction false} RungsAdd(start: nat, steps: nat, i: nat, j: nat)
    requires steps >= 1
    ensures Rung(start, steps, i + j) == Rung(Rung(start, steps, i), steps, j)
    decreases j
  {
    if j == 0 {
    } else {
      RungsAdd(start, steps, i, j - 1);
    }
  }

  lemma {:induction false} PowerSplits(m: nat, s: nat)
    requires s <= m
    ensures Pow2(m) == Pow2(s) * Pow2(m - s)
    decreases s
  {
    if s == 0 {
    } else {
      PowerSplits(m - 1, s - 1);
      Doubled(Pow2(s - 1), Pow2(m - s));
    }
  }

  lemma Doubled(a: nat, b: nat)
    ensures 2 * (a * b) == (2 * a) * b
  {}

  lemma Below(j: nat, n: nat, c: nat)
    requires 1 <= j <= n && c >= 1
    ensures (j - 1) * c < n * c && (j - 1) * c + c == j * c
  {
    assert (n - (j - 1)) * c >= c by {
      assert (n - j) * c >= 0;
    }
  }

  /** From 2^m up to 2^(m+1) every step is 2^m divided by the number of steps. */
  lemma StepInside(m: nat, s: nat, previous: nat)
    requires s <= m && Pow2(m) <= previous < 2 * Pow2(m)
    ensures Next(previous, Pow2(s)) == previous + Pow2(m - s)
  {
    if m > s {
      PowersGrow(s + 1, m);
      Pow2IsPower(m);
      FloorPowerIs(previous, Pow2(m));
      PowerSplits(m, s);
      DivisionIs(Pow2(m), Pow2(s), Pow2(m - s), 0);
    }
  }

  /** Between two powers of two not below `steps` the rungs are evenly spaced, `steps` of them. */
  lemma {:induction false} EvenlySpaced(m: nat, s: nat, j: nat)
    requires s <= m && j <= Pow2(s)
    ensures Rung(Pow2(m), Pow2(s), j) == Pow2(m) + j * Pow2(m - s)
    decreases j
  {
    if j == 0 {
    } else {
      EvenlySpaced(m, s, j - 1);
      hide *;
      OneMore(m, s, j);
      OneRung(Pow2(m), Pow2(s), j);
    }
  }

  lemma OneRung(start: nat, steps: nat, k: nat)
    requires steps >= 1 && k >= 1
    ensures Rung(start, steps, k) == Next(Rung(start, steps, k - 1), steps)
  {}

  lemma OneMore(m: nat, s: nat, j: nat)
    requires s <= m && 1 <= j <= Pow2(s)
    ensures Next(Pow2(m) + (j - 1) * Pow2(m - s), Pow2(s)) == Pow2(m) + j * Pow2(m - s)
  {
    hide *;
    Below(j, Pow2(s), Pow2(m - s));
    PowerSplits(m, s);
    StepInside(m, s, Pow2(m) + (j - 1) * Pow2(m - s));
  }

  /** Exactly `steps` rungs lead from 2^m to 2^(m+1), for every 2^m that is at least `steps`. */
  lemma StepsPerOctave(m: nat, s: nat, k: nat)
    requires s <= m
    ensures Rung(Pow2(m), Pow2(s), k) == Pow2(m + 1) <==> k == Pow2(s)
  {
    EvenlySpaced(m, s, Pow2(s));
    PowerSplits(m, s);
    assert Rung(Pow2(m), Pow2(s), Pow2(s)) == 2 * Pow2(m);
    if k < Pow2(s) {
      StrictlyIncreasing(Pow2(m), Pow2(s), k, Pow2(s));
    } else if k > Pow2(s) {
      StrictlyIncreasing(Pow2(m), Pow2(s), Pow2(s), k);
    }
  }

  lemma {:induction false} SingleSteps(start: nat, steps: nat, k: nat)
    requires steps >= 1 && start + k <= 2 * steps
    ensures Rung(start, steps, k) == start + k
    decreases k
  {
    if k == 0 {
    } else {
      SingleSteps(start, steps, k - 1);
    }
  }

  /** From any start up to 2 * steps the ladder visits every power of two at or above the start. */
  lemma {:induction false} VisitsPowers(start: nat, s: nat, m: nat) returns (k: nat)
    requires 1 <= start <= 2 * Pow2(s) && start <= Pow2(m)
    ensures Rung(start, Pow2(s), k) == Pow2(m)
    decreases m
  {
    hide *;
    PowerDoubles(s + 1);
    if m <= s + 1 {
      PowersGrow(m, s + 1);
      k := Pow2(m) - start;
      SingleSteps(start, Pow2(s), k);
    } else {
      PowersGrow(s + 1, m - 1);
      var before := VisitsPowers(start, s, m - 1);
      StepsPerOctave(m - 1, s, Pow2(s));
      RungsAdd(start, Pow2(s), before, Pow2(s));
      k := before + Pow2(s);
    }
  }
}
