/** The rounded five-sample mean the node emits, and the arithmetic it keeps. */
module Rounding {
  const WINDOW := 5

  type int16 = x: int | -32768 <= x < 32768

  function Sum(w: seq<int16>): int {
    if w == [] then 0 else Sum(w[..|w| - 1]) + w[|w| - 1]
  }

  /** C's `round`: to the nearest integer, halves away from zero. */
  function Round(x: real): int {
    if x >= 0.0 then (x + 0.5).Floor else -((-x + 0.5).Floor)
  }

  /** How far five times `a` is from `sum`; five times the distance of `a` from the exact mean. */
  function Miss(a: int, sum: int): (d: nat)
    ensures d == 5 * a - sum || d == sum - 5 * a
  {
    if 5 * a >= sum then 5 * a - sum else sum - 5 * a
  }

  /** The mean of a full window, rounded. It fits an int16, so the source's cast is lossless and nothing wraps. */
  function Mean(w: seq<int16>): int16
    requires |w| == WINDOW
  {
    RoundFifth(Sum(w));
    SumBounds(w, -32768, 32767);
    Round(Sum(w) as real / 5.0)
  }

  /** Halves never occur with five samples, so rounding is the floor of the sum plus two over five. */
  lemma RoundFifth(sum: int)
    ensures Round(sum as real / 5.0) == (sum + 2) / 5
    ensures Miss(Round(sum as real / 5.0), sum) <= 2
  {
    var x := sum as real / 5.0;
    if sum >= 0 {
      var q := (sum + 2) / 5;
      assert 5 * q <= sum + 2 < 5 * q + 5;
      assert (5 * q) as real <= sum as real + 2.0;
      assert q as real <= x + 0.5 < q as real + 1.0;
    } else {
      var q := (2 - sum) / 5;
      assert 5 * q <= 2 - sum < 5 * q + 5;
      assert q as real <= -x + 0.5 < q as real + 1.0;
      assert -q == (sum + 2) / 5;
    }
  }

  /** The emitted mean is strictly nearer to sum/5 than any other integer. */
  lemma MeanIsNearest(w: seq<int16>, other: int)
    requires |w| == WINDOW
    ensures Miss(Mean(w), Sum(w)) <= 2
    ensures Miss(other, Sum(w)) <= Miss(Mean(w), Sum(w)) <==> other == Mean(w)
  {
    RoundFifth(Sum(w));
  }

  lemma {:induction false} SumBounds(w: seq<int16>, lo: int, hi: int)
    requires forall i :: 0 <= i < |w| ==> lo <= w[i] <= hi
    ensures |w| * lo <= Sum(w) <= |w| * hi
  {
    if w != [] {
      SumBounds(w[..|w| - 1], lo, hi);
    }
  }

  /** The five samples of a window, added up. */
  lemma SumOfFive(w: seq<int16>)
    requires |w| == 5
    ensures Sum(w) == w[0] as int + w[1] as int + w[2] as int + w[3] as int + w[4] as int
  {
    assert w[..4][..3] == w[..3] && w[..3][..2] == w[..2] && w[..2][..1] == w[..1] && w[..1][..0] == [];
    assert Sum(w[..1]) == 0 + w[0] as int;
    assert Sum(w[..2]) == Sum(w[..1]) + w[1] as int;
    assert Sum(w[..3]) == Sum(w[..2]) + w[2] as int;
    assert Sum(w[..4]) == Sum(w[..3]) + w[3] as int;
  }

  /** The mean lies between any bounds on the window's samples. */
  lemma MeanBetween(w: seq<int16>, lo: int, hi: int)
    requires |w| == WINDOW
    requires forall i :: 0 <= i < |w| ==> lo <= w[i] <= hi
    ensures lo <= Mean(w) <= hi
  {
    SumBounds(w, lo, hi);
    RoundFifth(Sum(w));
  }

  /** A window has a negative mean exactly when its sum is below -2. */
  lemma MeanNegativeIff(w: seq<int16>)
    requires |w| == WINDOW
    ensures Mean(w) < 0 <==> Sum(w) < -2
  {
    RoundFifth(Sum(w));
  }

  lemma {:induction false} SumCons(x: int16, w: seq<int16>)
    ensures Sum([x] + w) == x + Sum(w)
  {
    if w == [] {
      assert [x] + w == [x] && [x][..0] == [];
    } else {
      var v := [x] + w;
      assert v[..|v| - 1] == [x] + w[..|w| - 1];
      SumCons(x, w[..|w| - 1]);
    }
  }

  function Distance(a: int, b: int): (d: nat)
    ensures d == a - b || d == b - a
  {
    if a >= b then a - b else b - a
  }

  /** Sliding the window by one sample moves the mean by little: the entering sample replaces the leaving one. */
  lemma MeanSlides(v: seq<int16>)
    requires |v| == WINDOW + 1
    ensures 5 * Distance(Mean(v[1..]), Mean(v[..5])) <= Distance(v[5], v[0]) + 4
  {
    var mid := v[1..5];
    assert v[..5] == [v[0]] + mid && v[1..] == mid + [v[5]];
    SumCons(v[0], mid);
    assert v[1..][..4] == mid;
    RoundFifth(Sum(v[..5]));
    RoundFifth(Sum(v[1..]));
  }
}
