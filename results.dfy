/**
 * The pending-results view: the two totals (left folds over the results)
 * and what the view shows beside them.
 */
module Results {
  import opened Wrappers
  import opened Dose

  /** The estimates summed from the front: the first one plus the sum of the rest. */
  function CarbsFromFront(results: seq<CalculationResult>): nat {
    if results == [] then 0 else results[0].carbsEstimate + CarbsFromFront(results[1..])
  }

  /** The doses summed from the front, in tenths. */
  function InsulinFromFront(results: seq<CalculationResult>): nat {
    if results == [] then 0 else results[0].insulinDose + InsulinFromFront(results[1..])
  }

  /** Summing from the front, one more result at the back adds its values. */
  lemma {:induction false} FromFrontAppend(results: seq<CalculationResult>, r: CalculationResult)
    ensures CarbsFromFront(results + [r]) == CarbsFromFront(results) + r.carbsEstimate
    ensures InsulinFromFront(results + [r]) == InsulinFromFront(results) + r.insulinDose
    decreases |results|
  {
    if results == [] {
      assert [r][1..] == [];
    } else {
      FromFrontAppend(results[1..], r);
      assert (results + [r])[1..] == results[1..] + [r];
    }
  }

  /**
   * The carbohydrate total: the estimates added up from the first result on,
   * starting at 0, which is the plain sum of the estimates.
   */
  function TotalCarbs(results: seq<CalculationResult>): (t: nat)
    ensures t == CarbsFromFront(results)
    decreases |results|
  {
    if results == [] then 0
    else
      var prev := results[..|results| - 1];
      FromFrontAppend(prev, results[|results| - 1]);
      assert prev + [results[|results| - 1]] == results;
      TotalCarbs(prev) + results[|results| - 1].carbsEstimate
  }

  /**
   * The insulin total: the stored doses added up from the first result on,
   * starting at 0, in tenths, which is the plain sum of the doses.
   */
  function TotalInsulin(results: seq<CalculationResult>): (t: nat)
    ensures t == InsulinFromFront(results)
    decreases |results|
  {
    if results == [] then 0
    else
      var prev := results[..|results| - 1];
      FromFrontAppend(prev, results[|results| - 1]);
      assert prev + [results[|results| - 1]] == results;
      TotalInsulin(prev) + results[|results| - 1].insulinDose
  }

  /** A result as a capture makes it: the dose is the rounded quotient of its own carbs and ratio. */
  predicate Consistent(r: CalculationResult) {
    r.insulinRatio >= 1 && r.insulinDose == DoseTenths(r.carbsEstimate, r.insulinRatio)
  }

  /** Appending one result raises each total by exactly that result's value. */
  lemma TotalsOfAppend(results: seq<CalculationResult>, r: CalculationResult)
    ensures TotalCarbs(results + [r]) == TotalCarbs(results) + r.carbsEstimate
    ensures TotalInsulin(results + [r]) == TotalInsulin(results) + r.insulinDose
  {
    assert (results + [r])[..|results|] == results;
  }

  /** The totals of two runs of results add up, whatever the order of the fold. */
  lemma {:induction false} TotalsOfConcat(a: seq<CalculationResult>, b: seq<CalculationResult>)
    ensures TotalCarbs(a + b) == TotalCarbs(a) + TotalCarbs(b)
    ensures TotalInsulin(a + b) == TotalInsulin(a) + TotalInsulin(b)
    decreases |b|
  {
    if b != [] {
      var b' := b[..|b| - 1];
      var x := b[|b| - 1];
      assert a + b == (a + b') + [x];
      assert b == b' + [x];
      TotalsOfConcat(a, b');
      TotalsOfAppend(a + b', x);
      TotalsOfAppend(b', x);
    } else {
      assert a + b == a;
    }
  }

  /**
   * The insulin total is the sum of the already-rounded doses, so it can
   * drift from the rounded dose of the carbohydrate total, by at most half a
   * tenth per result.
   */
  lemma {:induction false} TotalInsulinDrift(results: seq<CalculationResult>, ratio: int)
    requires ratio >= 1
    requires forall k :: 0 <= k < |results| ==> Consistent(results[k]) && results[k].insulinRatio == ratio
    ensures 2 * Abs(TotalInsulin(results) * ratio - 10 * TotalCarbs(results)) <= |results| * ratio
    decreases |results|
  {
    if results != [] {
      var prev := results[..|results| - 1];
      var x := results[|results| - 1];
      TotalInsulinDrift(prev, ratio);
      assert Consistent(x);
      var ti, tc := TotalInsulin(prev), TotalCarbs(prev);
      var e1 := ti * ratio - 10 * tc;
      var e2 := x.insulinDose * ratio - 10 * x.carbsEstimate;
      DistributeOverSum(ti, x.insulinDose, ratio);
      DistributeOverSum(|prev|, 1, ratio);
      assert TotalInsulin(results) * ratio - 10 * TotalCarbs(results) == e1 + e2;
    }
  }

  lemma DistributeOverSum(a: int, b: int, c: int)
    ensures (a + b) * c == a * c + b * c
  {
  }

  /** Three 1 g items at ratio 1:3 total 0.9 units, while 3 g at 1:3 rounds to 1.0. */
  lemma RoundingOrderCanDiffer()
    ensures var item := CalculationResult(0, 0, "", 1, DoseTenths(1, 3), 3);
            var results := [item, item, item];
            TotalCarbs(results) == 3 && TotalInsulin(results) == 9 && DoseTenths(3, 3) == 10
  {
    var item := CalculationResult(0, 0, "", 1, DoseTenths(1, 3), 3);
    assert DoseTenths(1, 3) == 23 / 6 == 3;
    assert DoseTenths(3, 3) == 63 / 6 == 10;
    assert [item, item, item][..2] == [item, item];
    assert [item, item][..1] == [item];
    assert [item][..0] == [];
    assert TotalCarbs([item]) == 1 && TotalInsulin([item]) == 3;
    assert TotalCarbs([item, item]) == 2 && TotalInsulin([item, item]) == 6;
  }

  /** What the results view shows besides the photos. */
  datatype View = View(totalCarbs: nat, totalInsulin: nat, ratio: int, photoCount: Option<nat>)

  /**
   * The view's figures: the two totals over all the results, the first
   * result's ratio (so the view needs at least one result), and the
   * "from N photos" note, which appears only for more than one.
   */
  function ResultsView(results: seq<CalculationResult>): (v: View)
    requires |results| > 0
    ensures v.ratio == results[0].insulinRatio
    ensures v.photoCount.Some? <==> |results| > 1
    ensures v.photoCount.Some? ==> v.photoCount.value == |results|
    ensures v.totalCarbs == TotalCarbs(results) && v.totalInsulin == TotalInsulin(results)
    ensures v.totalCarbs >= results[0].carbsEstimate && v.totalInsulin >= results[0].insulinDose
  {
    View(TotalCarbs(results), TotalInsulin(results), results[0].insulinRatio,
         if |results| > 1 then Some(|results|) else None)
  }
}
