/** The crossing searches of the moon almanac (bot/moon.go): a coarse scan and a bisection
    over an arbitrary value function. Instants are integer nanoseconds. */
module MoonSearch {
  import opened Text

  const BISECTION_STEPS := 60
  const PHASE_SCAN_STEP := 6 * 3600 * 1_000_000_000
  const PHASE_SCAN_SPAN := 40 * 24 * 3600 * 1_000_000_000

  /** The test the bisection compares: strictly below zero. */
  predicate Below(value: int -> real, t: int) {
    value(t) < 0.0
  }

  /** The bracket after some halvings. */
  function Narrow(lo: int, hi: int, value: int -> real, steps: nat): (r: (int, int))
    requires lo <= hi
    ensures lo <= r.0 <= r.1 <= hi
    decreases steps
  {
    if steps == 0 then (lo, hi)
    else
      var mid := lo + (hi - lo) / 2;
      if Below(value, lo) == Below(value, mid) then Narrow(mid, hi, value, steps - 1)
      else Narrow(lo, mid, value, steps - 1)
  }

  function Midpoint(lo: int, hi: int): int {
    lo + (hi - lo) / 2
  }

  /** The instant the bisection answers with. */
  function Refined(lo: int, hi: int, value: int -> real): (r: int)
    requires lo <= hi
    ensures lo <= r <= hi
  {
    var (a, b) := Narrow(lo, hi, value, BISECTION_STEPS);
    Midpoint(a, b)
  }

  /** refineMoonCrossing. */
  method RefineCrossing(lo0: int, hi0: int, value: int -> real) returns (r: int)
    requires lo0 <= hi0
    ensures r == Refined(lo0, hi0, value)
  {
    hide Narrow;
    var lo, hi := lo0, hi0;
    var loValue := value(lo);
    for k := 0 to BISECTION_STEPS
      invariant lo0 <= lo <= hi <= hi0 && loValue == value(lo)
      invariant Narrow(lo, hi, value, BISECTION_STEPS - k) == Narrow(lo0, hi0, value, BISECTION_STEPS)
    {
      var mid := lo + (hi - lo) / 2;
      var midValue := value(mid);
      NarrowUnfolds(lo, hi, value, BISECTION_STEPS - k);
      if (loValue < 0.0) == (midValue < 0.0) {
        lo, loValue := mid, midValue;
      } else {
        hi := mid;
      }
    }
    NarrowUnfolds(lo, hi, value, 0);
    r := lo + (hi - lo) / 2;
  }

  lemma NarrowUnfolds(lo: int, hi: int, value: int -> real, steps: nat)
    requires lo <= hi
    ensures var mid := lo + (hi - lo) / 2;
            && (steps == 0 ==> Narrow(lo, hi, value, steps) == (lo, hi))
            && (steps > 0 && Below(value, lo) == Below(value, mid) ==>
                  Narrow(lo, hi, value, steps) == Narrow(mid, hi, value, steps - 1))
            && (steps > 0 && Below(value, lo) != Below(value, mid) ==>
                  Narrow(lo, hi, value, steps) == Narrow(lo, mid, value, steps - 1))
  {
  }

  /** Halving a bracket no wider than 2^steps, whose ends lie on different sides of the
      test, leaves two neighbouring instants on the two sides. */
  lemma {:induction false} NarrowClosesIn(lo: int, hi: int, value: int -> real, steps: nat)
    requires lo <= hi && hi - lo <= Power2(steps)
    requires Below(value, lo) != Below(value, hi)
    ensures var (a, b) := Narrow(lo, hi, value, steps);
            && b == a + 1
            && Below(value, a) == Below(value, lo) && Below(value, b) == Below(value, hi)
    decreases steps
  {
    if steps > 0 {
      var mid := lo + (hi - lo) / 2;
      if Below(value, lo) == Below(value, mid) {
        NarrowClosesIn(mid, hi, value, steps - 1);
      } else {
        NarrowClosesIn(lo, mid, value, steps - 1);
      }
    }
  }

  /** With no change of side the bracket closes in on its high end. */
  lemma {:induction false} NarrowDriftsUp(lo: int, hi: int, value: int -> real, steps: nat)
    requires lo < hi && hi - lo <= Power2(steps)
    requires forall t :: lo <= t < hi ==> Below(value, t) == Below(value, lo)
    ensures Narrow(lo, hi, value, steps) == (hi - 1, hi)
    decreases steps
  {
    if steps > 0 {
      var mid := lo + (hi - lo) / 2;
      assert Below(value, mid) == Below(value, lo);
      NarrowDriftsUp(mid, hi, value, steps - 1);
    }
  }

  /** The answer lies in the bracket, on the low end's side, one nanosecond before the
      other side. */
  lemma RefinedIsTheCrossing(lo: int, hi: int, value: int -> real)
    requires lo <= hi && hi - lo <= Power2(60)
    requires Below(value, lo) != Below(value, hi)
    ensures var r := Refined(lo, hi, value);
            && lo <= r < hi
            && Below(value, r) == Below(value, lo) && Below(value, r + 1) != Below(value, lo)
  {
    hide Power2, Narrow;
    NarrowClosesIn(lo, hi, value, BISECTION_STEPS);
  }

  /** Without a change of side the answer is the end of the bracket, whatever happens
      at its start. */
  lemma RefinedWithoutCrossing(lo: int, hi: int, value: int -> real)
    requires lo < hi && hi - lo <= Power2(60)
    requires forall t :: lo <= t < hi ==> Below(value, t) == Below(value, lo)
    ensures Refined(lo, hi, value) == hi - 1
  {
    hide Power2, Narrow;
    NarrowDriftsUp(lo, hi, value, BISECTION_STEPS);
  }

  // ---------------------------------------------------------- the phase scan

  /** The k-th sample of the scan. */
  function Sample(after: int, k: nat): int {
    after + k * PHASE_SCAN_STEP
  }

  /** The scan's test between two neighbouring samples. */
  predicate Rises(after: int, k: nat, distance: int -> real) {
    distance(Sample(after, k)) <= 0.0 && distance(Sample(after, k + 1)) > 0.0
  }

  const PHASE_SAMPLES := PHASE_SCAN_SPAN / PHASE_SCAN_STEP

  /** The k-th pair of samples of the scan rises, and no earlier one does. */
  ghost predicate FirstRise(after: int, k: nat, distance: int -> real) {
    k < PHASE_SAMPLES && Rises(after, k, distance) && forall j :: 0 <= j < k ==> !Rises(after, j, distance)
  }

  /** nextMoonElongation: the first pair of samples that rises, refined. */
  method NextElongation(after: int, distance: int -> real) returns (found: bool, at: int)
    ensures found ==> exists k: nat ::
              FirstRise(after, k, distance) && at == Refined(Sample(after, k), Sample(after, k + 1), distance)
    ensures !found ==> forall k :: 0 <= k < PHASE_SAMPLES ==> !Rises(after, k, distance)
  {
    hide Narrow, Refined;
    var previous, previousDistance := after, distance(after);
    var limit := after + PHASE_SCAN_SPAN;
    var sample := after + PHASE_SCAN_STEP;
    ghost var k := 0;
    assert Sample(after, 0) == after && Sample(after, 1) == sample;
    while sample <= limit
      invariant k <= PHASE_SAMPLES
      invariant previous == Sample(after, k) && sample == Sample(after, k + 1)
      invariant previousDistance == distance(previous)
      invariant forall j :: 0 <= j < k ==> !Rises(after, j, distance)
      decreases limit - sample
    {
      var current := distance(sample);
      if previousDistance <= 0.0 && current > 0.0 {
        at := RefineCrossing(previous, sample, distance);
        assert FirstRise(after, k, distance);
        return true, at;
      }
      previous, previousDistance := sample, current;
      sample := sample + PHASE_SCAN_STEP;
      k := k + 1;
      assert Sample(after, k + 1) == Sample(after, k) + PHASE_SCAN_STEP;
    }
    return false, 0;
  }

  /** The scan takes 160 steps of six hours: forty days. */
  lemma ScanIsFortyDays(after: int)
    ensures PHASE_SAMPLES == 160
    ensures Sample(after, 1) == after + 21_600_000_000_000
    ensures Sample(after, PHASE_SAMPLES) == after + 40 * 86_400_000_000_000
  {
  }

  lemma ScanStepIsNarrow()
    ensures PHASE_SCAN_STEP <= Power2(BISECTION_STEPS)
  {
    PowerGrows(45, BISECTION_STEPS);
    PowerOf45();
  }

  lemma {:induction false} PowerGrows(m: nat, n: nat)
    requires m <= n
    ensures Power2(m) <= Power2(n)
  {
    if m < n { PowerGrows(m, n - 1); }
  }

  lemma PowerOf45()
    ensures Power2(45) == 0x2000_0000_0000
  {
    assert Power2(15) == 0x8000;
    PowerAdds(15, 15);
    PowerAdds(30, 15);
  }

  lemma {:induction false} PowerAdds(m: nat, n: nat)
    ensures Power2(m + n) == Power2(m) * Power2(n)
  {
    if n > 0 {
      PowerAdds(m, n - 1);
      assert Power2(m + n) == 2 * Power2(m + n - 1);
    }
  }

  /** The low end of the bracket never changes its side of the test, and the bracket closes. */
  lemma {:induction false} NarrowKeepsTheSide(lo: int, hi: int, value: int -> real, steps: nat)
    requires lo < hi && hi - lo <= Power2(steps)
    ensures var (a, b) := Narrow(lo, hi, value, steps);
            b == a + 1 && Below(value, a) == Below(value, lo)
    decreases steps
  {
    if steps > 0 {
      var mid := lo + (hi - lo) / 2;
      if Below(value, lo) == Below(value, mid) {
        NarrowKeepsTheSide(mid, hi, value, steps - 1);
      } else {
        NarrowKeepsTheSide(lo, mid, value, steps - 1);
      }
    }
  }

  /** For a pair of samples that rises, the answer is the instant the distance leaves the
      negative side exactly when the first sample is below zero: a first sample of exactly
      zero, which the scan lets through, is on the other side already. */
  lemma PhaseIsFoundExactlyWhen(after: int, k: nat, distance: int -> real)
    requires Rises(after, k, distance)
    ensures var lo, hi := Sample(after, k), Sample(after, k + 1);
            var r := Refined(lo, hi, distance);
            (lo <= r < hi && Below(distance, r) && !Below(distance, r + 1)) <==> distance(lo) < 0.0
  {
    hide Power2, Narrow;
    var lo, hi := Sample(after, k), Sample(after, k + 1);
    assert hi - lo == PHASE_SCAN_STEP;
    ScanStepIsNarrow();
    NarrowKeepsTheSide(lo, hi, distance, BISECTION_STEPS);
    if distance(lo) < 0.0 {
      hide Refined;
      RefinedIsTheCrossing(lo, hi, distance);
    }
  }

  /** A distance that is zero at the start of the scan and above zero ever after. */
  function TouchesZero(after: int): int -> real {
    t => if t <= after then 0.0 else 1.0
  }

  /** The crossing is at the first sample, and the answer is a whole scan step later. */
  lemma ZeroSampleIsAnsweredLate(after: int)
    ensures FirstRise(after, 0, TouchesZero(after))
    ensures Refined(Sample(after, 0), Sample(after, 1), TouchesZero(after)) == after + 21_600_000_000_000 - 1
  {
    hide Refined, Power2;
    ScanStepIsNarrow();
    RefinedWithoutCrossing(Sample(after, 0), Sample(after, 1), TouchesZero(after));
  }
}
