/**
 * `order('created_at', { ascending: false })`: listings come newest first.
 * The order among rows with equal timestamps is the store's choice; this model
 * fixes one such order.
 */
module Ordering {
  import opened PostStore

  predicate NewestFirst(s: seq<Post>) {
    forall i, j :: 0 <= i < j < |s| ==> s[i].createdAt >= s[j].createdAt
  }

  /** Places `p` in a newest-first sequence, after every row at least as new. */
  function Insert(p: Post, s: seq<Post>): (r: seq<Post>)
    requires NewestFirst(s)
    ensures NewestFirst(r)
    ensures multiset(r) == multiset(s) + multiset{p}
    ensures |r| == |s| + 1
  {
    if |s| == 0 then [p]
    else if p.createdAt > s[0].createdAt then
      ConsNewestFirst(p, s);
      [p] + s
    else
      var rest := Insert(p, s[1..]);
      assert s == [s[0]] + s[1..];
      forall i | 0 <= i < |rest|
        ensures rest[i].createdAt <= s[0].createdAt
      {
        assert rest[i] in multiset(rest);
        if rest[i] != p {
          assert rest[i] in multiset(s[1..]);
          var j :| 0 <= j < |s[1..]| && s[1..][j] == rest[i];
          assert rest[i] == s[j + 1];
        }
      }
      ConsNewestFirst(s[0], rest);
      assert multiset([s[0]] + rest) == multiset{s[0]} + multiset(rest);
      [s[0]] + rest
  }

  /** A row at least as new as every row of a newest-first sequence can head it. */
  lemma ConsNewestFirst(h: Post, t: seq<Post>)
    requires NewestFirst(t)
    requires forall i :: 0 <= i < |t| ==> t[i].createdAt <= h.createdAt
    ensures NewestFirst([h] + t)
  {
    var r := [h] + t;
    forall i, j | 0 <= i < j < |r|
      ensures r[i].createdAt >= r[j].createdAt
    {
      assert r[j] == t[j - 1];
      if i > 0 {
        assert r[i] == t[i - 1];
      }
    }
  }

  /** Sorts newest first; the result is a permutation of the input. */
  function SortNewestFirst(s: seq<Post>): (r: seq<Post>)
    ensures NewestFirst(r)
    ensures multiset(r) == multiset(s)
  {
    if |s| == 0 then []
    else
      assert s == [s[0]] + s[1..];
      Insert(s[0], SortNewestFirst(s[1..]))
  }

  /** A permutation holds the same rows: nothing is lost or invented by sorting. */
  lemma SortKeepsRows(s: seq<Post>, p: Post)
    ensures p in SortNewestFirst(s) <==> p in s
    ensures |SortNewestFirst(s)| == |s|
  {
    var r := SortNewestFirst(s);
    assert p in r <==> p in multiset(r);
    assert |r| == |multiset(r)|;
  }
}
