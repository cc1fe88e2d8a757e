/**
 Swap sizing: half the RAM, plus half per 10 GB of free disk, at most twice the RAM; and what happens
 when the script is run again on the disk it has just changed.
 */
module Swap {
  const HALF_UNIT_MB := 10240
  const MIN_MB := 256

  /** MULT_HALF: the number of half-RAM units. */
  function Units(free: nat): nat {
    if 1 + free / HALF_UNIT_MB > 4 then 4 else 1 + free / HALF_UNIT_MB
  }

  function SizeOf(mem: nat, units: nat): nat { mem * units / 2 }

  function Computed(mem: nat, free: nat): nat { SizeOf(mem, Units(free)) }

  /** What is left of a wished size when the old file is gone and the disk holds `total`. */
  function Fitted(size: nat, total: nat): nat { if size <= total then size else total }

  /** One run on a disk with `total` MB for free space and swapfile together. */
  function Step(mem: nat, total: nat, cur: nat): (next: nat)
    requires cur <= total
    ensures next <= total
  {
    var size := Computed(mem, total - cur);
    if size < MIN_MB then cur else Fitted(size, total)
  }

  /** applySwapScript: the variables in the order the script assigns them. */
  method ApplySwap(mem: nat, total: nat, cur: nat) returns (file: nat)
    requires cur <= total
    ensures file == Step(mem, total, cur)
  {
    var free := total - cur;
    var steps := free / 10240;
    var multHalf := 1 + steps;
    if multHalf > 4 {
      multHalf := 4;
    }
    var swap := mem * multHalf / 2;
    file := cur;
    if swap < 256 {
      return;
    }
    if cur != swap {
      file := 0;                       // swapoff, rm
      var left := total - file;
      if swap <= left {
        file := swap;                  // fallocate
      } else {
        file := left;                  // dd fills the disk
      }
    }
  }

  // ---------- one run ----------

  lemma UnitsRange(free: nat)
    ensures 1 <= Units(free) <= 4
    ensures (Units(free) - 1) * 10240 <= free
    ensures Units(free) < 4 ==> free < Units(free) * 10240
  {
  }

  /**
   Less than 256 MB is not worth a file: the old one stays; otherwise the wished size, or the whole disk, is the new
   file.
   */
  lemma SmallIsSkipped(mem: nat, total: nat, cur: nat)
    requires cur <= total
    ensures var wished := Computed(mem, total - cur);
            Step(mem, total, cur) == if wished < 256 then cur else if wished <= total then wished else total
  {
  }

  lemma SizeGrows(mem: nat, a: nat, b: nat)
    requires a <= b
    ensures SizeOf(mem, a) <= SizeOf(mem, b)
  {
    assert mem * a <= mem * b;
  }

  /** The computed size lies between half and twice the RAM, up to integer division. */
  lemma SizeBounds(mem: nat, free: nat)
    ensures mem / 2 <= Computed(mem, free) <= 2 * mem
  {
    UnitsRange(free);
    SizeGrows(mem, 1, Units(free));
    SizeGrows(mem, Units(free), 4);
    assert SizeOf(mem, 4) == 2 * mem;
  }

  /** More free disk never gives less swap. */
  lemma SizeMonotone(mem: nat, a: nat, b: nat)
    requires a <= b
    ensures Computed(mem, a) <= Computed(mem, b)
  {
    UnitsRange(a);
    UnitsRange(b);
    UnitsMonotone(a, b);
    SizeGrows(mem, Units(a), Units(b));
  }

  lemma UnitsMonotone(a: nat, b: nat)
    requires a <= b
    ensures Units(a) <= Units(b)
  {
  }

  // ---------- repeated runs ----------

  function Iterate(mem: nat, total: nat, cur: nat, n: nat): (r: nat)
    requires cur <= total
    ensures r <= total
  {
    if n == 0 then cur else Step(mem, total, Iterate(mem, total, cur, n - 1))
  }

  /** With at least 512 MB of RAM the script never skips, and a larger file leads to a smaller one. */
  lemma StepAntitone(mem: nat, total: nat, a: nat, b: nat)
    requires mem >= 512 && a <= b <= total
    ensures Step(mem, total, a) == Fitted(Computed(mem, total - a), total)
    ensures Step(mem, total, a) >= Step(mem, total, b)
  {
    SizeBounds(mem, total - a);
    SizeBounds(mem, total - b);
    SizeMonotone(mem, total - b, total - a);
  }

  /** The next number of units, as a function of the present one. */
  function NextUnits(mem: nat, total: nat, units: nat): nat {
    Units(total - Fitted(SizeOf(mem, units), total))
  }

  lemma NextAntitone(mem: nat, total: nat, a: nat, b: nat)
    requires a <= b
    ensures NextUnits(mem, total, a) >= NextUnits(mem, total, b)
  {
    SizeGrows(mem, a, b);
    UnitsMonotone(total - Fitted(SizeOf(mem, b), total), total - Fitted(SizeOf(mem, a), total));
  }

  function Twice(mem: nat, total: nat, units: nat): nat {
    NextUnits(mem, total, NextUnits(mem, total, units))
  }

  lemma TwiceMonotone(mem: nat, total: nat, a: nat, b: nat)
    requires a <= b
    ensures Twice(mem, total, a) <= Twice(mem, total, b)
  {
    NextAntitone(mem, total, a, b);
    NextAntitone(mem, total, NextUnits(mem, total, b), NextUnits(mem, total, a));
  }

  lemma NextRange(mem: nat, total: nat, units: nat)
    ensures 1 <= NextUnits(mem, total, units) <= 4
  {
    UnitsRange(total - Fitted(SizeOf(mem, units), total));
  }

  function UnitsAfter(mem: nat, total: nat, units: nat, n: nat): nat {
    if n == 0 then units else NextUnits(mem, total, UnitsAfter(mem, total, units, n - 1))
  }

  lemma {:induction false} UnitsAfterRange(mem: nat, total: nat, units: nat, n: nat)
    requires 1 <= units <= 4
    ensures 1 <= UnitsAfter(mem, total, units, n) <= 4
  {
    if n > 0 {
      NextRange(mem, total, UnitsAfter(mem, total, units, n - 1));
    }
  }

  lemma TwoSteps(mem: nat, total: nat, units: nat, n: nat)
    ensures UnitsAfter(mem, total, units, n + 2) == Twice(mem, total, UnitsAfter(mem, total, units, n))
  {
    assert UnitsAfter(mem, total, units, n + 1) == NextUnits(mem, total, UnitsAfter(mem, total, units, n));
  }

  /** A monotone map on four values is at a fixed point after three steps, whichever way it moves. */
  lemma FourValuesSettle(mem: nat, total: nat, x0: nat, x1: nat, x2: nat, x3: nat, x4: nat)
    requires 1 <= x0 <= 4 && 1 <= x1 <= 4 && 1 <= x2 <= 4 && 1 <= x3 <= 4 && 1 <= x4 <= 4
    requires x1 == Twice(mem, total, x0) && x2 == Twice(mem, total, x1) && x3 == Twice(mem, total, x2)
             && x4 == Twice(mem, total, x3)
    ensures x4 == x3
  {
    hide Twice;
    if x0 <= x1 {
      TwiceMonotone(mem, total, x0, x1);
      TwiceMonotone(mem, total, x1, x2);
      TwiceMonotone(mem, total, x2, x3);
    } else {
      TwiceMonotone(mem, total, x1, x0);
      TwiceMonotone(mem, total, x2, x1);
      TwiceMonotone(mem, total, x3, x2);
    }
  }

  lemma UnitsSettle(mem: nat, total: nat, units: nat)
    requires 1 <= units <= 4
    ensures UnitsAfter(mem, total, units, 8) == UnitsAfter(mem, total, units, 6)
  {
    hide Twice, UnitsAfter;
    TwoSteps(mem, total, units, 0);
    TwoSteps(mem, total, units, 2);
    TwoSteps(mem, total, units, 4);
    TwoSteps(mem, total, units, 6);
    UnitsAfterRange(mem, total, units, 0);
    UnitsAfterRange(mem, total, units, 2);
    UnitsAfterRange(mem, total, units, 4);
    UnitsAfterRange(mem, total, units, 6);
    UnitsAfterRange(mem, total, units, 8);
    FourValuesSettle(mem, total,
                     UnitsAfter(mem, total, units, 0), UnitsAfter(mem, total, units, 2),
                     UnitsAfter(mem, total, units, 4), UnitsAfter(mem, total, units, 6),
                     UnitsAfter(mem, total, units, 8));
  }

  lemma {:induction false} UnitsPeriodic(mem: nat, total: nat, units: nat, n: nat)
    requires 1 <= units <= 4 && n >= 6
    ensures UnitsAfter(mem, total, units, n + 2) == UnitsAfter(mem, total, units, n)
  {
    if n == 6 {
      UnitsSettle(mem, total, units);
    } else {
      UnitsPeriodic(mem, total, units, n - 1);
    }
  }

  /** From the first run on, the file size follows the units. */
  lemma {:induction false} SizesFollowUnits(mem: nat, total: nat, cur: nat, n: nat)
    requires mem >= 512 && cur <= total
    ensures Iterate(mem, total, cur, n + 1) == Fitted(SizeOf(mem, UnitsAfter(mem, total, Units(total - cur), n)), total)
  {
    hide SizeOf, Units;
    if n == 0 {
      StepAntitone(mem, total, cur, cur);
      assert Iterate(mem, total, cur, 0) == cur;
    } else {
      SizesFollowUnits(mem, total, cur, n - 1);
      var prior := Iterate(mem, total, cur, n);
      StepAntitone(mem, total, prior, prior);
    }
  }

  /** On a disk of fixed total size, repeated runs are periodic with period at most two from the seventh run on. */
  lemma RepeatedRunsPeriodic(mem: nat, total: nat, cur: nat, n: nat)
    requires mem >= 512 && cur <= total && n >= 7
    ensures Iterate(mem, total, cur, n + 2) == Iterate(mem, total, cur, n)
  {
    hide Step, SizeOf, Units, UnitsAfter;
    UnitsRange(total - cur);
    SizesFollowUnits(mem, total, cur, n - 1);
    SizesFollowUnits(mem, total, cur, n + 1);
    UnitsPeriodic(mem, total, Units(total - cur), n - 1);
  }

  /** A single size need not be reached: with 20 GB of RAM on a 40 GB disk the file alternates between 10 and 40 GB. */
  lemma TwoCycleExists()
    ensures Step(20480, 40960, 10240) == 40960 && Step(20480, 40960, 40960) == 10240
  {
  }
}
