/** Moving between the questions of a live attempt, and the progress shown for it. */
module Navigation {

  datatype Direction = Next | Prev

  /** The index is a valid position for `count` questions; with no questions only 0. */
  predicate InRange(current: int, count: int) {
    0 <= current && (current < count || current == 0)
  }

  /** `navigateQuestion`: `Next` moves forward only before the last question, `Prev`
      moves back only after the first; otherwise nothing happens. */
  function Navigate(current: int, count: int, dir: Direction): (r: int)
    ensures InRange(current, count) ==> InRange(r, count)
    ensures r == current || r == current + 1 || r == current - 1
    ensures r == current + 1 <==> dir == Next && current < count - 1
    ensures r == current - 1 <==> dir == Prev && current > 0
  {
    if dir == Next && current < count - 1 then current + 1
    else if dir == Prev && current > 0 then current - 1
    else current
  }

  /** The moves saturate: `Prev` at the first question and `Next` at the last do
      nothing, and a step forward is undone by a step back and vice versa. */
  lemma NavigateLaws(current: int, count: int)
    requires InRange(current, count)
    ensures current == 0 ==> Navigate(current, count, Prev) == 0
    ensures count > 0 && current == count - 1 ==> Navigate(current, count, Next) == current
    ensures current < count - 1 ==> Navigate(Navigate(current, count, Next), count, Prev) == current
    ensures current > 0 ==> Navigate(Navigate(current, count, Prev), count, Next) == current
  {
  }

  /** A quotient as JavaScript computes it: a finite value, or `Infinity` for a
      positive number divided by 0. */
  datatype Ratio = Share(percent: real) | Infinity

  /** `(current + 1) / count * 100`, in exact arithmetic. With no questions the index
      is 0 and the quotient is `1 / 0 * 100`, which is `Infinity`. */
  function Progress(current: int, count: int): (r: Ratio)
    requires InRange(current, count)
    ensures r.Infinity? <==> count <= 0
    ensures r.Share? ==> 0.0 < r.percent <= 100.0
    ensures r.Share? ==> (r.percent == 100.0 <==> current == count - 1)
  {
    if count <= 0 then Infinity
    else
      var p := (current + 1) as real / count as real * 100.0;
      assert p * count as real == (current + 1) as real * 100.0;
      Share(p)
  }
}
