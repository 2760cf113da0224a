/** `Math.round(a / b * 100)`, the progress and similarity percentage used across
    the application, in exact integer arithmetic: round half up of 100a/b. */
module Percent {

  function RoundPercent(a: nat, b: nat): (r: nat)
    requires b > 0
    ensures 2 * b * r <= 200 * a + b < 2 * b * (r + 1)
  {
    (200 * a + b) / (2 * b)
  }

  /** For a positive factor, a product is strictly smaller only with a strictly smaller multiplier. */
  lemma MulCancelLess(k: nat, x: nat, y: nat)
    requires k > 0 && k * x < k * y
    ensures x < y
  {
  }

  /** A share of a whole lies in [0, 100]; nothing gives 0 and everything gives 100. */
  lemma RoundPercentBounds(a: nat, b: nat)
    requires b > 0 && a <= b
    ensures RoundPercent(a, b) <= 100
    ensures a == 0 ==> RoundPercent(a, b) == 0
    ensures a == b ==> RoundPercent(a, b) == 100
  {
    var r := RoundPercent(a, b);
    assert 200 * a + b < 2 * b * 101;
    MulCancelLess(2 * b, r, 101);
    if a == 0 {
      assert 2 * b * r < 2 * b * 1;
      MulCancelLess(2 * b, r, 1);
    }
    if a == b {
      assert 2 * b * 99 < 201 * b;
      assert 2 * b * 99 < 2 * b * (r + 1);
      MulCancelLess(2 * b, 99, r + 1);
    }
  }

  /** Rounding reaches 100 before the whole is done: 399 of 400 shows as 100. */
  lemma RoundPercentReachesHundredEarly()
    ensures RoundPercent(399, 400) == 100
  {
  }

  /** 100 means done only when fewer than 200 items are counted: from 200 on, one
      item short already rounds to 100. */
  lemma RoundPercentHundredIffDone(a: nat, b: nat)
    requires 0 < b < 200 && a <= b
    ensures RoundPercent(a, b) == 100 <==> a == b
  {
    RoundPercentBounds(a, b);
    if a < b {
      var r := RoundPercent(a, b);
      assert 200 * a + b <= 200 * (b - 1) + b < 2 * b * 100;
      MulCancelLess(2 * b, r, 100);
    }
  }
}
