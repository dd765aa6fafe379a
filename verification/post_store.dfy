/**
 * The `posts` table, seen as a sequence of rows. Row order carries no meaning:
 * every listing sorts explicitly. Ids are handed out by the store.
 */
module PostStore {
  import opened Wrappers

  type UserId = string
  type PostId = nat

  datatype Post = Post(
    id: PostId,
    title: string,
    content: string,
    imageUrl: Option<string>,
    userId: UserId,
    username: string,
    createdAt: int,
    updatedAt: int)

  type Store = seq<Post>

  /** The primary-key constraint of the table. */
  predicate UniqueIds(s: Store) {
    forall i, j :: 0 <= i < j < |s| ==> s[i].id != s[j].id
  }

  /** Keeps the elements `keep` accepts; each kept element occurs as often as before. */
  function Filter(s: Store, keep: Post -> bool): (r: Store)
    ensures |r| <= |s|
    ensures forall x :: x in r <==> x in s && keep(x)
    ensures forall x :: multiset(r)[x] == if keep(x) then multiset(s)[x] else 0
  {
    if |s| == 0 then []
    else
      assert s == [s[0]] + s[1..];
      (if keep(s[0]) then [s[0]] else []) + Filter(s[1..], keep)
  }

  /** Filtering with a test every element passes changes nothing. */
  lemma {:induction false} FilterKeepsAll(s: Store, keep: Post -> bool)
    requires forall x :: x in s ==> keep(x)
    ensures Filter(s, keep) == s
  {
    if |s| > 0 {
      FilterKeepsAll(s[1..], keep);
    }
  }

  /** Filtering never breaks the primary-key constraint. */
  lemma {:induction false} FilterUnique(s: Store, keep: Post -> bool)
    requires UniqueIds(s)
    ensures UniqueIds(Filter(s, keep))
  {
    if |s| > 0 {
      FilterUnique(s[1..], keep);
      var rest := Filter(s[1..], keep);
      forall j | 0 <= j < |rest|
        ensures rest[j].id != s[0].id
      {
        assert rest[j] in s[1..];
      }
    }
  }

  /** `select * from posts where id = ?` with `maybeSingle()`. */
  function Find(s: Store, id: PostId): (r: Option<Post>)
    ensures r.Some? ==> r.value in s && r.value.id == id
    ensures r.None? <==> forall p :: p in s ==> p.id != id
  {
    if |s| == 0 then None
    else if s[0].id == id then Some(s[0])
    else
      assert forall p :: p in s ==> p == s[0] || p in s[1..];
      Find(s[1..], id)
  }

  /** Under the primary-key constraint a row found by id is THE row with that id. */
  lemma FindUnique(s: Store, id: PostId, p: Post)
    requires UniqueIds(s) && p in s && p.id == id
    ensures Find(s, id) == Some(p)
  {
    var q := Find(s, id).value;
    var i :| 0 <= i < |s| && s[i] == p;
    var j :| 0 <= j < |s| && s[j] == q;
    assert i == j;
  }

  /** The id the store assigns to a new row: larger than every id in use. */
  function NextId(s: Store): (n: PostId)
    ensures forall p :: p in s ==> p.id < n
  {
    if |s| == 0 then 1
    else
      assert forall p :: p in s ==> p == s[0] || p in s[1..];
      var m := NextId(s[1..]);
      if s[0].id < m then m else s[0].id + 1
  }

  /** Appending a row whose id is in no other row keeps the constraint. */
  lemma AppendUnique(s: Store, p: Post)
    requires UniqueIds(s) && forall q :: q in s ==> q.id != p.id
    ensures UniqueIds(s + [p])
  {
    forall i | 0 <= i < |s|
      ensures (s + [p])[i].id != p.id
    {
      assert s[i] in s;
    }
  }

  /** `update posts set ... where id = ?`: every row with that id becomes `q`,
      in place. When `q` keeps the id, the lookup by that id finds `q`, the
      primary-key constraint survives, and rows with other ids keep their counts. */
  function ReplaceById(s: Store, id: PostId, q: Post): (r: Store)
    ensures |r| == |s|
    ensures forall i :: 0 <= i < |s| ==> r[i] == if s[i].id == id then q else s[i]
    ensures q.id == id && Find(s, id).Some? ==> Find(r, id) == Some(q)
    ensures q.id == id && UniqueIds(s) ==> UniqueIds(r)
    ensures q.id == id ==> forall p: Post :: p.id != id ==> multiset(r)[p] == multiset(s)[p]
  {
    var r := seq(|s|, i requires 0 <= i < |s| => if s[i].id == id then q else s[i]);
    if q.id != id then r
    else
      ReplacedCounts(s, r, id, q);
      if Find(s, id).None? then r
      else ReplacedFinds(s, r, id, q); r
  }

  /** Replacing the rows with `id` by a row with that id lets the lookup find it. */
  lemma {:induction false} ReplacedFinds(s: Store, r: Store, id: PostId, q: Post)
    requires |r| == |s| && q.id == id && Find(s, id).Some?
    requires forall i :: 0 <= i < |s| ==> r[i] == if s[i].id == id then q else s[i]
    ensures Find(r, id) == Some(q)
  {
    if s[0].id != id {
      ReplacedFinds(s[1..], r[1..], id, q);
    }
  }

  /** Replacing the rows with `id` by a row with that id keeps the count of
      every row with another id. */
  lemma ReplacedCounts(s: Store, r: Store, id: PostId, q: Post)
    requires |r| == |s| && q.id == id
    requires forall i :: 0 <= i < |s| ==> r[i] == if s[i].id == id then q else s[i]
    ensures forall p: Post :: p.id != id ==> multiset(r)[p] == multiset(s)[p]
  {
    forall p: Post | p.id != id
      ensures multiset(r)[p] == multiset(s)[p]
    {
      ReplacedCount(s, r, id, q, p);
    }
  }

  lemma {:induction false} ReplacedCount(s: Store, r: Store, id: PostId, q: Post, p: Post)
    requires |r| == |s| && q.id == id && p.id != id
    requires forall i :: 0 <= i < |s| ==> r[i] == if s[i].id == id then q else s[i]
    ensures multiset(r)[p] == multiset(s)[p]
  {
    if |s| > 0 {
      ReplacedCount(s[1..], r[1..], id, q, p);
      assert s == [s[0]] + s[1..];
      assert r == [r[0]] + r[1..];
      if s[0].id == id {
        assert r[0] != p && s[0] != p;
      } else {
        assert r[0] == s[0];
      }
    }
  }

  /** Replacing twice by the same row is replacing once. */
  lemma ReplaceTwice(s: Store, id: PostId, q: Post)
    requires q.id == id
    ensures ReplaceById(ReplaceById(s, id, q), id, q) == ReplaceById(s, id, q)
  {
  }

  /** `delete from posts where id = ?`. */
  function RemoveById(s: Store, id: PostId): (r: Store)
    ensures forall p :: p in r <==> p in s && p.id != id
    ensures forall p :: multiset(r)[p] == if p.id != id then multiset(s)[p] else 0
  {
    Filter(s, (p: Post) => p.id != id)
  }
}
