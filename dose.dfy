/**
 * The dose formula, the result record a capture produces, and the capped,
 * newest-first history of the main page. Doses are integer tenths of a unit.
 */
module Dose {
  import opened Wrappers

  /** The ratio the page starts with (1:10). */
  const DefaultRatio: int := 10

  /** How many results the page keeps. */
  const HistoryCap: nat := 10

  /**
   * One analysed photo. `insulinDose` is in tenths of a unit; `insulinRatio`
   * is the ratio in effect when the photo was analysed. `id` is the capture
   * time in milliseconds, which the page also uses as the timestamp.
   */
  datatype CalculationResult = CalculationResult(
    id: int,
    timestamp: int,
    imageUrl: string,
    carbsEstimate: nat,
    insulinDose: nat,
    insulinRatio: int)

  function Abs(x: int): nat {
    if x < 0 then -x else x
  }

  /**
   * Carbs divided by the ratio, rounded to one decimal, in tenths: the nearest tenth,
   * rounding exact halves up.
   */
  function DoseTenths(carbs: nat, ratio: int): (d: nat)
    requires ratio >= 1
    ensures 2 * Abs(d * ratio - 10 * carbs) <= ratio
  {
    var n := 20 * carbs + ratio;
    var q, rem := n / (2 * ratio), n % (2 * ratio);
    assert n == 2 * ratio * q + rem && 0 <= rem < 2 * ratio;
    assert 2 * (q * ratio - 10 * carbs) == ratio - rem;
    q
  }

  /** No other tenth is closer to carbs / ratio than the computed dose. */
  lemma DoseIsNearestTenth(carbs: nat, ratio: int, e: int)
    requires ratio >= 1
    ensures Abs(DoseTenths(carbs, ratio) * ratio - 10 * carbs) <= Abs(e * ratio - 10 * carbs)
  {
    var d := DoseTenths(carbs, ratio);
    var x, y, g := d * ratio - 10 * carbs, e * ratio - 10 * carbs, ratio * (e - d);
    assert y == x + g by {
      assert e * ratio == d * ratio + ratio * (e - d);
    }
    MulBounds(ratio, e - d);
    assert 2 * Abs(x) <= ratio;
  }

  /** For a fixed ratio, more carbohydrate never gives a smaller dose. */
  lemma DoseMonotoneInCarbs(c1: nat, c2: nat, ratio: int)
    requires ratio >= 1 && c1 <= c2
    ensures DoseTenths(c1, ratio) <= DoseTenths(c2, ratio)
  {
    DivMonotone(20 * c1 + ratio, 20 * c2 + ratio, 2 * ratio);
  }

  lemma MulBounds(k: int, d: int)
    requires k > 0
    ensures d >= 1 ==> k * d >= k
    ensures d <= -1 ==> k * d <= -k
  {
    if d >= 1 {
      assert k * d == k * (d - 1) + k;
    } else if d <= -1 {
      assert k * d == -(k * (-d - 1)) - k;
    }
  }

  lemma DivUnique(n: int, k: int, x: int, r: int)
    requires k > 0 && 0 <= r < k && n == k * x + r
    ensures n / k == x
  {
    var d := n / k - x;
    MulBounds(k, d);
    assert k * d == r - n % k;
  }

  lemma DivMonotone(a: int, b: int, k: int)
    requires 0 <= a <= b && k > 0
    ensures a / k <= b / k
  {
    var qa, ra := a / k, a % k;
    var qm, rm := (ra + b - a) / k, (ra + b - a) % k;
    assert b == k * (qa + qm) + rm;
    DivUnique(b, k, qa + qm, rm);
  }

  /** The placeholder estimate: a random whole number of grams from 10 to 59. */
  function PlaceholderCarbs(random: real): (c: nat)
    requires 0.0 <= random < 1.0
    ensures 10 <= c <= 59
  {
    (random * 50.0).Floor + 10
  }

  /** The history update: the new result in front, then cut to the cap. */
  function PushHistory(history: seq<CalculationResult>, result: CalculationResult): (h: seq<CalculationResult>)
    ensures |h| == if |history| < HistoryCap then |history| + 1 else HistoryCap
    ensures h[0] == result
    ensures h[1..] == history[..|h| - 1]
  {
    ([result] + history)[..if |history| < HistoryCap then |history| + 1 else HistoryCap]
  }

  /**
   * The history after capturing `results`, oldest capture first, starting
   * from none: never more than the cap, and the newest capture in front.
   */
  function HistoryOf(results: seq<CalculationResult>): (h: seq<CalculationResult>)
    ensures |h| == if |results| < HistoryCap then |results| else HistoryCap
    ensures results != [] ==> h[0] == results[|results| - 1]
    decreases |results|
  {
    if results == [] then []
    else PushHistory(HistoryOf(results[..|results| - 1]), results[|results| - 1])
  }

  function Reversed(s: seq<CalculationResult>): (r: seq<CalculationResult>)
    ensures |r| == |s|
    ensures forall k :: 0 <= k < |s| ==> r[k] == s[|s| - 1 - k]
  {
    if s == [] then [] else [s[|s| - 1]] + Reversed(s[..|s| - 1])
  }

  /** The history is always the ten most recent captures, newest first. */
  lemma {:induction false} HistoryIsNewestTen(results: seq<CalculationResult>)
    ensures HistoryOf(results) == Reversed(results)[..if |results| < HistoryCap then |results| else HistoryCap]
    decreases |results|
  {
    if results != [] {
      var prev := results[..|results| - 1];
      HistoryIsNewestTen(prev);
      var m := if |prev| < HistoryCap then |prev| else HistoryCap;
      var n := if |results| < HistoryCap then |results| else HistoryCap;
      var x := results[|results| - 1];
      assert Reversed(results) == [x] + Reversed(prev) by {
        assert Reversed(results)[0] == x;
        forall k | 1 <= k < |results| ensures Reversed(results)[k] == Reversed(prev)[k - 1] { }
      }
      calc {
        HistoryOf(results);
        PushHistory(Reversed(prev)[..m], x);
        ([x] + Reversed(prev)[..m])[..n];
        { assert n <= m + 1; }
        ([x] + Reversed(prev))[..n];
      }
    }
  }

  /** The main page: camera toggle, current result, history and ratio. */
  class IndexPage {
    var showCamera: bool
    var currentResult: Option<CalculationResult>
    var history: seq<CalculationResult>
    var insulinRatio: int

    constructor ()
      ensures !showCamera && currentResult == None && history == [] && insulinRatio == DefaultRatio
    {
      showCamera := false;
      currentResult := None;
      history := [];
      insulinRatio := DefaultRatio;
    }

    /** The settings panel's `onRatioChange`: results already made keep their ratio and dose. */
    method SetInsulinRatio(ratio: int)
      modifies this
      ensures insulinRatio == ratio
      ensures history == old(history) && currentResult == old(currentResult) && showCamera == old(showCamera)
    {
      insulinRatio := ratio;
    }

    /**
     * `handlePhotoCapture`, with `Math.random()` and `Date.now()` passed in
     * as `random` and `now`.
     */
    method HandlePhotoCapture(imageDataUrl: string, random: real, now: int) returns (result: CalculationResult)
      requires 0.0 <= random < 1.0
      requires insulinRatio >= 1
      modifies this
      ensures 10 <= result.carbsEstimate <= 59 && result.carbsEstimate == PlaceholderCarbs(random)
      ensures result.insulinRatio == insulinRatio == old(insulinRatio)
      ensures result.insulinDose == DoseTenths(result.carbsEstimate, result.insulinRatio)
      ensures result.id == now && result.timestamp == now && result.imageUrl == imageDataUrl
      ensures currentResult == Some(result) && !showCamera
      ensures history == PushHistory(old(history), result)
    {
      var estimatedCarbs := PlaceholderCarbs(random);
      var insulinDose := DoseTenths(estimatedCarbs, insulinRatio);
      result := CalculationResult(now, now, imageDataUrl, estimatedCarbs, insulinDose, insulinRatio);
      currentResult := Some(result);
      history := PushHistory(history, result);
      showCamera := false;
    }
  }
}
