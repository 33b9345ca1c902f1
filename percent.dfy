/** Whole percentages as the screens round them, `Math.round(part / whole * 100)`. */
module Percentages {

  /**
   * `Math.round(done / total * 100)`: the whole percentage nearest to done/total, halves
   * rounded up.
   */
  function Percent(done: nat, total: nat): (r: nat)
    requires 0 < total && done <= total
    ensures r <= 100
    ensures 2 * total * r <= 200 * done + total < 2 * total * (r + 1)
  {
    RoundingBounds(done, total);
    (200 * done + total) / (2 * total)
  }

  lemma RoundingBounds(done: nat, total: nat)
    requires 0 < total && done <= total
    ensures var r := (200 * done + total) / (2 * total);
      r <= 100 && 2 * total * r <= 200 * done + total < 2 * total * (r + 1)
  {
    var a, b := 200 * done + total, 2 * total;
    var r := a / b;
    assert b * r + a % b == a && 0 <= a % b < b;
    if r > 100 {
      MulMonotone(b, 101, r);
    }
  }

  lemma MulMonotone(a: nat, x: nat, y: nat)
    requires x <= y
    ensures a * x <= a * y
  {
  }

  /** Nothing done is 0%, everything done is 100%. */
  lemma PercentEnds(total: nat)
    requires total > 0
    ensures Percent(0, total) == 0 && Percent(total, total) == 100
  {
    var r := Percent(total, total);
    if r < 100 {
      MulMonotone(2 * total, r + 1, 100);
    }
  }
}
