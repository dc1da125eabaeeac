/** The results summary of script.js `updateResultsSummary`: totals and the accuracy rate. */
module Results {

  /** `Math.round(correct / answered * 100)`, and 0 while nothing is answered: the percentage
      rounded half up, computed on integers as `(200 * correct + answered) / (2 * answered)`. */
  function Accuracy(correct: nat, answered: nat): (r: nat)
    ensures answered == 0 ==> r == 0
    ensures answered > 0 ==> 2 * answered * r <= 200 * correct + answered < 2 * answered * (r + 1)
  {
    if answered == 0 then 0
    else
      var r := (200 * correct + answered) / (2 * answered);
      DivBounds(200 * correct + answered, 2 * answered);
      r
  }

  lemma DivBounds(x: nat, d: nat)
    requires d > 0
    ensures d * (x / d) <= x < d * (x / d + 1)
  {
  }

  /** Multiplying by a positive factor keeps a strict order and nothing else. */
  lemma CancelFactor(a: nat, x: nat, y: nat)
    requires a > 0 && a * x < a * y
    ensures x < y
  {
    assert x >= y ==> a * x >= a * y;
  }

  /** The rate is a percentage: it never exceeds 100 while the correct answers are among the
      answered ones, and it is 100 when every answer is correct. */
  lemma AccuracyIsPercentage(correct: nat, answered: nat)
    requires correct <= answered
    ensures Accuracy(correct, answered) <= 100
    ensures answered > 0 && correct == answered ==> Accuracy(correct, answered) == 100
  {
    var r := Accuracy(correct, answered);
    if answered > 0 {
      CancelFactor(2 * answered, r, 101);
      if correct == answered {
        CancelFactor(2 * answered, 99, r + 1);
      }
    }
  }

  /** More correct answers out of the same number answered never lower the rate. */
  lemma AccuracyMonotonic(c1: nat, c2: nat, answered: nat)
    requires c1 <= c2
    ensures Accuracy(c1, answered) <= Accuracy(c2, answered)
  {
    if answered > 0 {
      CancelFactor(2 * answered, Accuracy(c1, answered), Accuracy(c2, answered) + 1);
    }
  }

  /** The four figures `updateResultsSummary` writes. */
  datatype Summary = Summary(total: nat, answered: nat, correct: nat, accuracy: nat)
}
