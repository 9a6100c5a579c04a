/**
 * The numbers of quiz.js that do not depend on the page: the figures
 * `showResults` displays and the size check of `generateCustomQuiz`.
 */
module Summary {
  import opened Wrappers

  /** The figures of the results screen. `percentage` is `None` where the
      source computes `Math.round(NaN)`, for an empty quiz. */
  datatype Results = Results(total: nat, correct: int, incorrect: int, percentage: Option<int>)

  /** `Math.round((correct / total) * 100)` in exact arithmetic: the nearest
      integer to `100 * correct / total`, halves rounded up, which is
      `floor((200 * correct + total) / (2 * total))`. */
  function Percentage(correct: int, total: nat): int
    requires total > 0
  {
    (200 * correct + total) / (2 * total)
  }

  /** What `showResults` computes from the quiz length and the score. */
  function ShowResults(total: nat, score: int): (r: Results)
    ensures r.total == total && r.correct == score
    ensures r.correct + r.incorrect == r.total
    ensures r.percentage.Some? <==> total > 0
  {
    Results(total, score, total - score,
      if total > 0 then Some(Percentage(score, total)) else None)
  }

  /** The percentage is the nearest integer to the exact ratio, ties going
      up: `p - 1/2 <= 100 * correct / total < p + 1/2`. */
  lemma PercentageNearest(correct: int, total: nat)
    requires total > 0
    ensures var p := Percentage(correct, total);
      2 * total * p - total <= 200 * correct < 2 * total * p + total
  {
    var p := Percentage(correct, total);
    var n := 200 * correct + total;
    var d := 2 * total;
    assert n == d * p + n % d;
    assert 0 <= n % d < d;
    assert 2 * total * p == d * p;
  }

  /** Whenever the score lies between 0 and the quiz length, the
      percentage lies between 0 and 100; it is 0 only below half a percent
      and 100 only from 99.5 percent on. */
  lemma PercentageBounds(correct: int, total: nat)
    requires total > 0 && 0 <= correct <= total
    ensures 0 <= Percentage(correct, total) <= 100
    ensures Percentage(correct, total) == 0 <==> 200 * correct < total
    ensures Percentage(correct, total) == 100 <==> 200 * correct >= 199 * total
  {
    var p := Percentage(correct, total);
    var d := 2 * total;
    PercentageNearest(correct, total);
    assert 2 * total * p == d * p;
    if p < 0 {
      MulAtLeast(d, -1, p);
    }
    if p > 100 {
      MulAtLeast(d, p, 101);
    }
    if p > 0 {
      MulAtLeast(d, p, 1);
    }
    if p < 100 {
      MulAtLeast(d, 99, p);
    }
  }

  /** `a * b >= a * k` for `a >= 0` and `b >= k`. */
  lemma MulAtLeast(a: int, b: int, k: int)
    requires a >= 0 && b >= k
    ensures a * b >= a * k
  {
    assert a * b - a * k == a * (b - k);
  }

  /** A higher score never shows a lower percentage. */
  lemma PercentageMonotone(c1: int, c2: int, total: nat)
    requires total > 0 && c1 <= c2
    ensures Percentage(c1, total) <= Percentage(c2, total)
  {
    var p1, p2 := Percentage(c1, total), Percentage(c2, total);
    var d := 2 * total;
    PercentageNearest(c1, total);
    PercentageNearest(c2, total);
    assert 2 * total * p1 == d * p1 && 2 * total * p2 == d * p2;
    if p1 > p2 {
      MulAtLeast(d, p1, p2 + 1);
    }
  }

  /** What the results screen shows for a consistent score. */
  lemma ResultsBounds(total: nat, score: int)
    requires 0 <= score <= total
    ensures var r := ShowResults(total, score);
      0 <= r.incorrect <= r.total
      && (r.percentage.Some? ==> 0 <= r.percentage.value <= 100)
  {
    if total > 0 {
      PercentageBounds(score, total);
    }
  }

  /** Outcome of `generateCustomQuiz`: refused with an error message, or a
      quiz of `size` questions, `clamped` when the request exceeded the pool
      (the source then warns that only the pool is available). */
  datatype CustomOutcome = Refused | Start(size: nat, clamped: bool)

  /** `Math.min`. */
  function Min(a: int, b: int): (m: int)
    ensures m <= a && m <= b && (m == a || m == b)
  {
    if a < b then a else b
  }

  /** The check of `generateCustomQuiz`. `num` is `parseInt` of the input
      field, `None` for `NaN`. */
  function CustomQuizSize(num: Option<int>, poolSize: nat): (r: CustomOutcome)
    ensures r.Refused? <==> num.None? || num.value < 1
    ensures r.Start? ==> (r.clamped <==> num.value > poolSize)
    ensures r.Start? ==> r.size == Min(num.value, poolSize)
  {
    match num
    case None => Refused
    case Some(n) =>
      if n < 1 then Refused
      else if n > poolSize then Start(poolSize, true)
      else Start(n, false)
  }
}
