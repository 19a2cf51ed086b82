/** Page arithmetic shared by both habit-list screens. */
module Paging {

  /** `max(1, math.ceil(n / perPage))`: how many pages `n` habits take, an empty list still showing one page. */
  function PageCount(n: nat, perPage: nat): (pages: nat)
    requires perPage > 0
    ensures pages >= 1
    ensures n == 0 ==> pages == 1
    ensures n <= pages * perPage
    ensures n > 0 ==> (pages - 1) * perPage < n
  {
    if n == 0 then 1
    else
      var q := (n + perPage - 1) / perPage;
      var r := (n + perPage - 1) % perPage;
      assert n + perPage - 1 == q * perPage + r && 0 <= r < perPage;
      assert (q - 1) * perPage == q * perPage - perPage;
      q
  }

  lemma MulCancel(a: int, b: int, k: int)
    requires k > 0 && a * k < b * k
    ensures a < b
  {
    assert (b - a) * k == b * k - a * k;
  }

  /** The habit at index `i` sits on page `i / perPage`, which is a valid page. */
  lemma PageOfIndex(n: nat, perPage: nat, i: nat)
    requires perPage > 0 && i < n
    ensures i / perPage < PageCount(n, perPage)
    ensures (i / perPage) * perPage <= i < (i / perPage) * perPage + perPage
  {
    var p := PageCount(n, perPage);
    var q := i / perPage;
    assert i == q * perPage + i % perPage;
    MulCancel(q, p, perPage);
  }

  /** The last habit is on the last page. */
  lemma LastIndexOnLastPage(n: nat, perPage: nat)
    requires perPage > 0 && n > 0
    ensures (n - 1) / perPage == PageCount(n, perPage) - 1
  {
    var p := PageCount(n, perPage);
    var q := (n - 1) / perPage;
    PageOfIndex(n, perPage, n - 1);
    assert (q + 1) * perPage == q * perPage + perPage;
    MulCancel(p - 1, q + 1, perPage);
  }

  /** Python's `s[page * perPage : page * perPage + perPage]`, which clamps to the list's end. */
  function PageSlice<T>(s: seq<T>, page: nat, perPage: nat): (r: seq<T>)
    ensures |r| <= perPage
    ensures forall i :: 0 <= i < |r| ==> page * perPage + i < |s| && r[i] == s[page * perPage + i]
    ensures page * perPage + perPage <= |s| ==> |r| == perPage
    ensures perPage > 0 && page * perPage < |s| ==> |r| > 0
  {
    var lo := if page * perPage <= |s| then page * perPage else |s|;
    var hi := if page * perPage + perPage <= |s| then page * perPage + perPage else |s|;
    s[lo..hi]
  }

  /** Every habit appears on exactly the page `PageOfIndex` names, at its offset in that page. */
  lemma {:induction false} HabitOnItsPage<T>(s: seq<T>, perPage: nat, i: nat)
    requires perPage > 0 && i < |s|
    ensures var p := i / perPage; i - p * perPage < |PageSlice(s, p, perPage)| && PageSlice(s, p, perPage)[i - p * perPage] == s[i]
  {
    var p := i / perPage;
    PageOfIndex(|s|, perPage, i);
    var lo := p * perPage;
    assert lo <= i < lo + perPage;
    var r := PageSlice(s, p, perPage);
    assert r == s[lo..if lo + perPage <= |s| then lo + perPage else |s|];
  }

  /** A habit appended to the list is shown on the list's last page. */
  lemma AppendedOnLastPage<T>(s: seq<T>, x: T, perPage: nat)
    requires perPage > 0
    ensures x in PageSlice(s + [x], PageCount(|s| + 1, perPage) - 1, perPage)
  {
    var t := s + [x];
    LastIndexOnLastPage(|t|, perPage);
    HabitOnItsPage(t, perPage, |t| - 1);
  }

  /** A page in range starts inside a non-empty list, so it shows at least one habit. */
  lemma PageInRangeStartsInList(n: nat, perPage: nat, page: nat)
    requires perPage > 0 && n > 0 && page < PageCount(n, perPage)
    ensures page * perPage < n
  {
    var p := PageCount(n, perPage);
    assert page * perPage <= (p - 1) * perPage by {
      MulMonotone(page, p - 1, perPage);
    }
  }

  lemma MulMonotone(a: nat, b: nat, k: nat)
    requires a <= b
    ensures a * k <= b * k
  {
    assert b * k - a * k == (b - a) * k;
  }
}
