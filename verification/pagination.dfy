/**
 * Offset pagination as the list handlers compute it:
 *   offset = (page - 1) * limit,  rows [offset, offset + limit - 1] inclusive,
 *   totalPages = ceil(total / limit).
 */
module Pagination {

  /** `page` and `limit` as the handlers use them: whole numbers from 1 up. */
  type Positive = n: int | n >= 1 witness 1

  const DefaultPage: Positive := 1
  const DefaultLimit: Positive := 10

  function Min(a: int, b: int): int {
    if a <= b then a else b
  }

  function Offset(page: Positive, limit: Positive): (o: nat)
    ensures o % limit == 0 && o / limit == page - 1
    ensures o < page * limit
  {
    var o := (page - 1) * limit;
    WholePages(o, limit, page - 1);
    o
  }

  /** A multiple of `d` is that many whole `d`s and nothing over. */
  lemma WholePages(n: nat, d: Positive, k: nat)
    requires n == k * d
    ensures n % d == 0 && n / d == k
  {
    var r := n % d;
    var t := n / d;
    assert n == t * d + r && 0 <= r < d;
    assert (k - t) * d == r;
    MulSmall(k - t, d);
  }

  /** `.range(from, to)`: the rows at positions `from` to `to` inclusive that exist. */
  function Range<T>(s: seq<T>, from: nat, to: int): (r: seq<T>)
    ensures |r| == if from < |s| && from <= to then Min(to + 1, |s|) - from else 0
    ensures forall i :: 0 <= i < |r| ==> r[i] == s[from + i]
  {
    if from < |s| && from <= to then s[from..Min(to + 1, |s|)] else []
  }

  /** One page: at most `limit` rows, taken from the offset on, and empty
      exactly when the offset is past the last row. */
  function PageOf<T>(s: seq<T>, page: Positive, limit: Positive): (r: seq<T>)
    ensures |r| <= limit
    ensures r == [] <==> Offset(page, limit) >= |s|
    ensures Offset(page, limit) < |s| ==> |r| == Min(limit, |s| - Offset(page, limit))
    ensures forall i :: 0 <= i < |r| ==> r[i] == s[Offset(page, limit) + i]
    ensures |r| > 0 ==> Offset(page, limit) + |r| <= |s|
  {
    var offset := Offset(page, limit);
    Range(s, offset, offset + limit - 1)
  }

  /** `Math.ceil(n / d)`: the fewest pages of size `d` that hold `n` rows. */
  function CeilDiv(n: nat, d: Positive): (q: nat)
    ensures q * d >= n
    ensures q > 0 ==> (q - 1) * d < n
    ensures n == 0 <==> q == 0
  {
    var q := (n + d - 1) / d;
    CeilDivBounds(n, d, q);
    q
  }

  lemma CeilDivBounds(n: nat, d: Positive, q: int)
    requires q == (n + d - 1) / d
    ensures q >= 0 && q * d >= n
    ensures q > 0 ==> (q - 1) * d < n
    ensures n == 0 <==> q == 0
  {
    var m := n + d - 1;
    var rem := m % d;
    assert m == q * d + rem && 0 <= rem < d;
    assert (q - 1) * d == q * d - d;
  }

  /** Pages 1 to `n`, concatenated. */
  ghost function Pages<T>(s: seq<T>, limit: Positive, n: nat): seq<T> {
    if n == 0 then [] else Pages(s, limit, n - 1) + PageOf(s, n, limit)
  }

  /** The first `n` pages hold exactly the first `n * limit` rows, in order. */
  lemma {:induction false} PagesArePrefix<T>(s: seq<T>, limit: Positive, n: nat)
    ensures Pages(s, limit, n) == s[..Min(n * limit, |s|)]
  {
    if n > 0 {
      PagesArePrefix(s, limit, n - 1);
      var off := Offset(n, limit);
      assert off == (n - 1) * limit;
      assert off + limit == n * limit;
      var lo := Min(off, |s|);
      var hi := Min(off + limit, |s|);
      PageIsSlice(s, n, limit, lo, hi);
      assert s[..lo] + s[lo..hi] == s[..hi];
    }
  }

  /** A page is the slice of the rows from its offset to the next page's,
      both clipped to the end. */
  lemma PageIsSlice<T>(s: seq<T>, page: Positive, limit: Positive, lo: nat, hi: nat)
    requires lo == Min(Offset(page, limit), |s|) && hi == Min(Offset(page, limit) + limit, |s|)
    ensures lo <= hi <= |s|
    ensures PageOf(s, page, limit) == s[lo..hi]
  {
  }

  /** Pages 1 to `totalPages` together are the whole sequence, in order: every
      row is listed, and on exactly one page. */
  lemma PagesCoverAll<T>(s: seq<T>, limit: Positive)
    ensures Pages(s, limit, CeilDiv(|s|, limit)) == s
  {
    var n := CeilDiv(|s|, limit);
    PagesArePrefix(s, limit, n);
    assert Min(n * limit, |s|) == |s|;
  }

  predicate Distinct<T(==)>(s: seq<T>) {
    forall i, j :: 0 <= i < j < |s| ==> s[i] != s[j]
  }

  /** When no row repeats, two different pages share no row. */
  lemma PagesDisjoint<T>(s: seq<T>, limit: Positive, p: Positive, q: Positive, x: T)
    requires Distinct(s) && p < q
    ensures !(x in PageOf(s, p, limit) && x in PageOf(s, q, limit))
  {
    var a := PageOf(s, p, limit);
    var b := PageOf(s, q, limit);
    if x in a && x in b {
      var i :| 0 <= i < |a| && a[i] == x;
      var j :| 0 <= j < |b| && b[j] == x;
      OffsetsApart(p, q, limit);
    }
  }

  /** A later page starts at least one full page after an earlier one. */
  lemma OffsetsApart(p: Positive, q: Positive, limit: Positive)
    requires p < q
    ensures Offset(p, limit) + limit <= Offset(q, limit)
  {
    MulAtLeast(q - p, limit);
    assert Offset(q, limit) - Offset(p, limit) == (q - p) * limit;
  }

  lemma MulAtLeast(x: int, d: Positive)
    requires x >= 1
    ensures x * d >= d
  {
    assert x * d == (x - 1) * d + d;
    MulNonNeg(x - 1, d);
  }

  lemma MulNonNeg(x: nat, d: nat)
    ensures x * d >= 0
  {
  }

  /** The last page holds what the earlier full pages leave over: the remainder
      of `total / limit`, or a full page when it divides evenly. */
  lemma LastPageSize<T>(s: seq<T>, limit: Positive)
    requires |s| > 0
    ensures var last := CeilDiv(|s|, limit);
      && |PageOf(s, last, limit)| == |s| - (last - 1) * limit
      && |PageOf(s, last, limit)| == if |s| % limit == 0 then limit else |s| % limit
  {
    var last := CeilDiv(|s|, limit);
    var k := |s| - (last - 1) * limit;
    assert last * limit == (last - 1) * limit + limit;
    assert 0 < k <= limit;
    ModOfRemainder(|s|, limit, last - 1, k);
  }

  lemma ModOfRemainder(n: nat, d: Positive, q: nat, k: int)
    requires n == q * d + k && 0 < k <= d
    ensures n % d == if k == d then 0 else k
  {
    var k' := if k == d then 0 else k;
    var q' := if k == d then q + 1 else q;
    assert n == q' * d + k' && 0 <= k' < d;
    var r := n % d;
    var t := n / d;
    assert n == t * d + r && 0 <= r < d;
    assert (q' - t) * d == r - k';
    MulSmall(q' - t, d);
  }

  /** A multiple of `d` strictly between `-d` and `d` is zero. */
  lemma MulSmall(x: int, d: Positive)
    requires 0 - d < x * d < d
    ensures x == 0
  {
    if x >= 1 {
      MulAtLeast(x, d);
    } else if x <= -1 {
      MulAtLeast(-x, d);
    }
  }

  /** A page is empty exactly when it lies past the last one. */
  lemma PastLastPageEmpty<T>(s: seq<T>, limit: Positive, page: Positive)
    ensures PageOf(s, page, limit) == [] <==> page > CeilDiv(|s|, limit)
  {
    var n := CeilDiv(|s|, limit);
    assert Offset(page, limit) == (page - 1) * limit;
    if page > n {
      MulNonNeg(page - 1 - n, limit);
      assert (page - 1) * limit == (page - 1 - n) * limit + n * limit;
    } else {
      MulNonNeg(n - page, limit);
      assert (n - 1) * limit == (n - page) * limit + (page - 1) * limit;
    }
  }
}
