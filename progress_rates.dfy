/**
 * The completion-rate formula of the progress screen and everything it
 * classifies: the calendar cell colour, the per-habit pie colour and the
 * 20-cell text progress bar.
 */
module ProgressRates {
  import opened Wrappers

  /**
   * `completed / total * 100 if total > 0 else 0`.  Python floats are
   * modelled as exact reals.
   */
  function CompletionRate(completed: nat, total: nat): (rate: real)
    ensures total == 0 ==> rate == 0.0
    ensures total > 0 ==> rate * (total as real) == 100.0 * (completed as real)
  {
    if total > 0 then completed as real / total as real * 100.0 else 0.0
  }

  /** For a percentage `r` of `c` out of `t`, comparing `r` with a limit `k` compares `100 * c` with `k * t`. */
  lemma PercentCompare(r: real, c: real, t: real, k: real)
    requires t > 0.0 && r * t == 100.0 * c
    ensures r < k <==> 100.0 * c < k * t
    ensures r == k <==> 100.0 * c == k * t
    ensures k < r <==> k * t < 100.0 * c
  {
  }

  /** A percentage `r` of `c` out of `t`, compared with the band limits. */
  lemma PercentBands(r: real, c: real, t: real)
    requires t > 0.0 && r * t == 100.0 * c
    ensures r == 100.0 <==> c == t
    ensures r >= 50.0 <==> 2.0 * c >= t
    ensures r > 75.0 <==> 4.0 * c > 3.0 * t
    ensures r > 0.0 <==> c > 0.0
    ensures r <= 100.0 <==> c <= t
  {
    PercentCompare(r, c, t, 100.0);
    PercentCompare(r, c, t, 50.0);
    PercentCompare(r, c, t, 75.0);
    PercentCompare(r, c, t, 0.0);
  }

  /**
   * The bands the colour rules test are integer conditions on the counts:
   * 100% means every row completed, at least 50% means at least half,
   * above 75% means more than three quarters, above 0% means at least one.
   */
  lemma RateBands(completed: nat, total: nat)
    requires total > 0
    ensures CompletionRate(completed, total) == 100.0 <==> completed == total
    ensures CompletionRate(completed, total) >= 50.0 <==> 2 * completed >= total
    ensures CompletionRate(completed, total) > 75.0 <==> 4 * completed > 3 * total
    ensures CompletionRate(completed, total) > 0.0 <==> completed > 0
    ensures completed <= total ==> 0.0 <= CompletionRate(completed, total) <= 100.0
  {
    PercentBands(CompletionRate(completed, total), completed as real, total as real);
  }

  datatype Colour = Green | Yellow | LightRed | DarkOrange | Red | Gray

  /** The Tk colour string of each colour. */
  function Hex(c: Colour): string {
    match c
    case Green => "#90EE90"
    case Yellow => "#FFD700"
    case LightRed => "#FFB6C1"
    case DarkOrange => "#FF8C00"
    case Red => "#FF0000"
    case Gray => "#E0E0E0"
  }

  /** Different colours are drawn with different colour strings. */
  lemma HexIsInjective(a: Colour, b: Colour)
    requires a != b
    ensures Hex(a) != Hex(b)
  {
    assert Hex(a)[1] != Hex(b)[1] || Hex(a)[3] != Hex(b)[3] || Hex(a)[5] != Hex(b)[5];
  }

  /** The calendar cell of a day: gray without logs, otherwise green / yellow / light red by rate. */
  function DayColour(rate: Option<real>): (c: Colour)
    ensures c == Gray <==> rate.None?
  {
    match rate
    case None => Gray
    case Some(r) => if r == 100.0 then Green else if r >= 50.0 then Yellow else LightRed
  }

  /** The slice colour of one habit in the per-habit pie, first matching band wins. */
  function PieColour(rate: real): (c: Colour)
    ensures c != Gray
    ensures c == Green <==> rate == 100.0
    ensures c == Red <==> rate <= 0.0
  {
    if rate == 100.0 then Green
    else if rate > 75.0 then LightRed
    else if rate >= 50.0 then Yellow
    else if rate > 0.0 then DarkOrange
    else Red
  }

  /**
   * A logged day is green exactly when every row was completed, yellow when
   * at least half but not all were, light red when fewer than half (0%
   * included), and never gray: gray is kept for days without rows.
   */
  lemma DayColourBands(completed: nat, total: nat)
    requires 0 < total && completed <= total
    ensures DayColour(Some(CompletionRate(completed, total))) == Green <==> completed == total
    ensures DayColour(Some(CompletionRate(completed, total))) == Yellow <==> 2 * completed >= total && completed < total
    ensures DayColour(Some(CompletionRate(completed, total))) == LightRed <==> 2 * completed < total
    ensures DayColour(Some(CompletionRate(completed, total))) != Gray
  {
    RateBands(completed, total);
  }

  /**
   * Per-habit slices: green when all rows were completed, light red above
   * three quarters, yellow from one half, dark orange above none, red at none.
   */
  lemma PieColourBands(completed: nat, total: nat)
    requires 0 < total && completed <= total
    ensures PieColour(CompletionRate(completed, total)) == Green <==> completed == total
    ensures PieColour(CompletionRate(completed, total)) == LightRed <==> 4 * completed > 3 * total && completed < total
    ensures PieColour(CompletionRate(completed, total)) == Yellow <==> 2 * completed >= total && 4 * completed <= 3 * total
    ensures PieColour(CompletionRate(completed, total)) == DarkOrange <==> 0 < completed && 2 * completed < total
    ensures PieColour(CompletionRate(completed, total)) == Red <==> completed == 0
  {
    RateBands(completed, total);
  }

  const BarLength := 20

  /** `int(bar_length * rate / 100)`: `int` truncates toward zero. */
  function FilledCells(rate: real): (n: int)
    ensures 0.0 <= rate ==> 0 <= n && n as real <= BarLength as real * rate / 100.0 < n as real + 1.0
    ensures rate <= 100.0 ==> n <= BarLength
    ensures rate < 0.0 ==> n <= 0
  {
    var x := BarLength as real * rate / 100.0;
    if x >= 0.0 then x.Floor else -((-x).Floor)
  }

  /** `"█" * filled + "░" * (bar_length - filled)`; Python repeats a string a negative number of times as "". */
  function ProgressBar(rate: real): (bar: string)
    ensures 0.0 <= rate <= 100.0 ==>
      && |bar| == BarLength
      && forall i :: 0 <= i < |bar| ==> (bar[i] == '\U{2588}' <==> i < FilledCells(rate))
  {
    var filled := FilledCells(rate);
    Repeat('\U{2588}', filled) + Repeat('\U{2591}', BarLength - filled)
  }

  function Repeat(c: char, n: int): (s: string)
    ensures |s| == if n > 0 then n else 0
    ensures forall i :: 0 <= i < |s| ==> s[i] == c
  {
    if n <= 0 then "" else [c] + Repeat(c, n - 1)
  }

  lemma FloorOfQuotient(a: nat, t: nat)
    requires t > 0
    ensures (a as real / t as real).Floor == a / t
  {
    var q, r := a / t, a % t;
    assert a == q * t + r;
    assert (a as real) / (t as real) == q as real + (r as real) / (t as real);
    assert 0.0 <= (r as real) / (t as real) < 1.0;
  }

  /**
   * The bar of a habit with `completed` of `total` rows done has
   * `20 * completed // total` filled cells and always 20 cells in all.
   */
  lemma ProgressBarCells(completed: nat, total: nat)
    requires 0 < total && completed <= total
    ensures FilledCells(CompletionRate(completed, total)) == 20 * completed / total
    ensures |ProgressBar(CompletionRate(completed, total))| == BarLength
    ensures forall i :: 0 <= i < 20 * completed / total ==> ProgressBar(CompletionRate(completed, total))[i] == '\U{2588}'
    ensures forall i :: 20 * completed / total <= i < BarLength ==> ProgressBar(CompletionRate(completed, total))[i] == '\U{2591}'
  {
    var rate := CompletionRate(completed, total);
    var c, t := completed as real, total as real;
    assert rate == c / t * 100.0;
    assert 20.0 * rate / 100.0 == (20 * completed) as real / t;
    FloorOfQuotient(20 * completed, total);
    assert 20 * completed / total <= 20 by {
      assert 20 * completed <= 20 * total;
    }
  }
}
