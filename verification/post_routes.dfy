/**
 * The `/api/posts` router. Each handler is a function from the store, the
 * caller and the request to a response and the store afterwards. A handler
 * runs as one atomic step; the token middleware and the store's own failures
 * are outside the model.
 */
module PostRoutes {
  import opened Wrappers
  import opened Text
  import opened Validation
  import opened PostStore
  import opened Ordering
  import opened Pagination

  /** What a valid token carries. */
  datatype Identity = Identity(userId: UserId, username: string, email: string)

  /** The request as the token middleware classifies it. */
  datatype Caller = NoToken | BadToken | Authenticated(who: Identity)

  datatype ListQuery = ListQuery(search: Option<string>, page: Option<Positive>, limit: Option<Positive>)

  datatype PageInfo = PageInfo(page: Positive, limit: Positive, total: nat, totalPages: nat)

  /** The JSON bodies the router sends. */
  datatype Body =
    | Listing(posts: seq<Post>, pagination: PageInfo)
    | Record(post: Post)
    | WithPost(message: string, post: Post)
    | Note(message: string)
    | Problem(message: string, details: string)
    | Invalid(message: string, errors: Errors)
    | AuthRefused

  datatype Response = Response(status: int, body: Body)

  datatype Outcome = Outcome(response: Response, store: Store)

  const NotFound := Response(404, Problem("Post not found", "No post exists with the given ID"))
  const UpdateForbidden := Response(403, Problem("Forbidden", "You can only update your own posts"))
  const DeleteForbidden := Response(403, Problem("Forbidden", "You can only delete your own posts"))

  /** The token middleware's verdict: 401 without a token, 403 for a token
      that does not verify, nothing (go on) for a valid one. */
  function Authenticate(c: Caller): (r: Option<Response>)
    ensures r.None? <==> c.Authenticated?
    ensures r.Some? ==> r.value.status == (if c.NoToken? then 401 else 403)
  {
    match c
    case NoToken => Some(Response(401, AuthRefused))
    case BadToken => Some(Response(403, AuthRefused))
    case Authenticated(_) => None
  }

  // ---------------------------------------------------------------- listing

  /** The search test of `GET /posts`: title or author name contains the
      search text, ignoring ASCII case. */
  predicate MatchesSearch(p: Post, search: string) {
    ContainsIgnoringCase(p.title, search) || ContainsIgnoringCase(p.username, search)
  }

  /** The search test is the substring test on the lower-cased texts. */
  lemma MatchesSearchMeans(p: Post, search: string)
    ensures MatchesSearch(p, search) <==>
      IsInfix(Lower(search), Lower(p.title)) || IsInfix(Lower(search), Lower(p.username))
  {
    SearchIsInfix(p.title, search);
    SearchIsInfix(p.username, search);
  }

  function SearchFilter(search: string): Post -> bool {
    (p: Post) => MatchesSearch(p, search)
  }

  function OwnerFilter(userId: UserId): Post -> bool {
    (p: Post) => p.userId == userId
  }

  /** `.eq('user_id', userId)` keeps exactly that user's rows, each as often
      as stored. */
  lemma OwnerRows(store: Store, userId: UserId)
    ensures forall p: Post :: p in Filter(store, OwnerFilter(userId)) <==> p in store && p.userId == userId
    ensures forall p: Post :: p.userId == userId ==>
      multiset(Filter(store, OwnerFilter(userId)))[p] == multiset(store)[p]
  {
  }

  /** An empty search text filters nothing, which is why the handler can skip
      the filter when `search` is empty. */
  lemma EmptySearchKeepsAll(store: Store)
    ensures Filter(store, SearchFilter("")) == store
  {
    forall p | p in store
      ensures SearchFilter("")(p)
    {
      assert Lower("") == "";
      EmptyContained(Lower(p.title));
    }
    FilterKeepsAll(store, SearchFilter(""));
  }

  /** The rows a listing pages through: those `keep` accepts, newest first. */
  function ListView(store: Store, keep: Post -> bool): (v: seq<Post>)
    ensures NewestFirst(v)
    ensures multiset(v) == multiset(Filter(store, keep))
    ensures |v| == |Filter(store, keep)|
  {
    var v := SortNewestFirst(Filter(store, keep));
    assert |multiset(v)| == |multiset(Filter(store, keep))|;
    v
  }

  /** A page of a listing: newest first, at most `limit` rows, each one a
      stored row that `keep` accepts. */
  lemma PageOfListView(store: Store, keep: Post -> bool, page: Positive, limit: Positive)
    ensures var posts := PageOf(ListView(store, keep), page, limit);
      && NewestFirst(posts)
      && forall p :: p in posts ==> p in store && keep(p)
  {
    var view := ListView(store, keep);
    var posts := PageOf(view, page, limit);
    if |posts| > 0 {
      RunOfNewestFirst(view, posts, Offset(page, limit));
    }
    forall p | p in posts
      ensures p in store && keep(p)
    {
      ListViewRows(store, keep, p);
    }
  }

  /** A listed row is a stored row that `keep` accepts. */
  lemma ListViewRows(store: Store, keep: Post -> bool, p: Post)
    requires p in ListView(store, keep)
    ensures p in store && keep(p)
  {
    assert multiset(ListView(store, keep))[p] > 0;
  }

  /** A contiguous run of a newest-first sequence is newest first, and holds
      only rows of that sequence. */
  lemma RunOfNewestFirst(view: seq<Post>, run: seq<Post>, off: nat)
    requires NewestFirst(view)
    requires off + |run| <= |view|
    requires forall i :: 0 <= i < |run| ==> run[i] == view[off + i]
    ensures NewestFirst(run)
    ensures forall p :: p in run ==> p in view
  {
    forall i, j | 0 <= i < j < |run|
      ensures run[i].createdAt >= run[j].createdAt
    {
      assert run[i] == view[off + i] && run[j] == view[off + j];
    }
    forall p | p in run
      ensures p in view
    {
      var i :| 0 <= i < |run| && run[i] == p;
      assert p == view[off + i];
    }
  }

  /** The envelope both list handlers answer with. */
  function Paged(view: seq<Post>, page: Positive, limit: Positive): (r: Response)
    ensures r.status == 200 && r.body.Listing?
    ensures r.body.pagination == PageInfo(page, limit, |view|, CeilDiv(|view|, limit))
    ensures r.body.posts == PageOf(view, page, limit)
    ensures r.body.posts == [] <==> page > r.body.pagination.totalPages
  {
    PastLastPageEmpty(view, limit, page);
    Response(200, Listing(PageOf(view, page, limit), PageInfo(page, limit, |view|, CeilDiv(|view|, limit))))
  }

  /** `GET /posts`: the requested page of the posts matching `search`, newest
      first, with the pagination envelope; `page` and `limit` default to 1 and 10. */
  function ListPosts(store: Store, q: ListQuery): (o: Outcome)
    ensures o.store == store
    ensures o.response.status == 200 && o.response.body.Listing?
    ensures var search := q.search.GetOr("");
      var posts := o.response.body.posts;
      var info := o.response.body.pagination;
      && info.page == q.page.GetOr(DefaultPage)
      && info.limit == q.limit.GetOr(DefaultLimit)
      && info.total == |Filter(store, SearchFilter(search))|
      && info.totalPages == CeilDiv(info.total, info.limit)
      && posts == PageOf(ListView(store, SearchFilter(search)), info.page, info.limit)
      && |posts| <= info.limit
      && NewestFirst(posts)
      && forall p :: p in posts ==> p in store && MatchesSearch(p, search)
  {
    var search := q.search.GetOr("");
    var page := q.page.GetOr(DefaultPage);
    var limit := q.limit.GetOr(DefaultLimit);
    var rows := if search != "" then Filter(store, SearchFilter(search)) else store;
    EmptySearchKeepsAll(store);
    PageOfListView(store, SearchFilter(search), page, limit);
    Outcome(Paged(SortNewestFirst(rows), page, limit), store)
  }

  datatype UserListQuery = UserListQuery(page: Option<Positive>, limit: Option<Positive>)

  /** `GET /posts/user/:userId`: the same envelope over that user's posts only;
      anyone may ask. */
  function ListUserPosts(store: Store, userId: UserId, q: UserListQuery): (o: Outcome)
    ensures o.store == store
    ensures o.response.status == 200 && o.response.body.Listing?
    ensures var posts := o.response.body.posts;
      var info := o.response.body.pagination;
      && info.page == q.page.GetOr(DefaultPage)
      && info.limit == q.limit.GetOr(DefaultLimit)
      && info.total == |Filter(store, OwnerFilter(userId))|
      && info.totalPages == CeilDiv(info.total, info.limit)
      && posts == PageOf(ListView(store, OwnerFilter(userId)), info.page, info.limit)
      && |posts| <= info.limit
      && NewestFirst(posts)
      && forall p :: p in posts ==> p in store && p.userId == userId
  {
    var page := q.page.GetOr(DefaultPage);
    var limit := q.limit.GetOr(DefaultLimit);
    PageOfListView(store, OwnerFilter(userId), page, limit);
    Outcome(Paged(ListView(store, OwnerFilter(userId)), page, limit), store)
  }

  /** Page `k` of `GET /posts` is the `k`-th run of the newest-first matching
      posts, and pages 1 to `totalPages` together list every matching post
      exactly as often as it is stored, newest first. */
  lemma ListingPartitionsMatches(store: Store, search: string, limit: Positive)
    ensures var view := ListView(store, SearchFilter(search));
      && (forall k: Positive :: ListPosts(store, ListQuery(Some(search), Some(k), Some(limit))).response.body.posts
            == PageOf(view, k, limit))
      && var all := Pages(view, limit, CeilDiv(|Filter(store, SearchFilter(search))|, limit));
      && multiset(all) == multiset(Filter(store, SearchFilter(search)))
      && NewestFirst(all)
  {
    var view := ListView(store, SearchFilter(search));
    forall k: Positive
      ensures ListPosts(store, ListQuery(Some(search), Some(k), Some(limit))).response.body.posts == PageOf(view, k, limit)
    {
    }
    PagesCoverAll(view, limit);
  }

  // ---------------------------------------------------------------- single post

  /** `GET /posts/:id`: the stored row itself, or 404; reading changes nothing. */
  function GetPost(store: Store, id: PostId): (o: Outcome)
    ensures o.store == store
    ensures o.response.status == 404 <==> forall p :: p in store ==> p.id != id
    ensures o.response.status != 404 ==>
      o.response.status == 200 && o.response.body.Record? &&
      o.response.body.post in store && o.response.body.post.id == id
  {
    match Find(store, id)
    case None => Outcome(NotFound, store)
    case Some(p) => Outcome(Response(200, Record(p)), store)
  }

  /** `image_url ? image_url.trim() : null` */
  function StoredImageUrl(u: Option<string>): (r: Option<string>)
    ensures r.None? <==> Falsy(u)
    ensures r.Some? ==> IsTrimOf(r.value, u.value) && (r.value == "" <==> AllSpace(u.value))
  {
    if Falsy(u) then None else Some(Trim(u.value))
  }

  /** `POST /posts`: after the token and the body pass, a new row with the
      trimmed fields, owned by the caller whatever the body says, answered 201. */
  function CreatePost(store: Store, caller: Caller, b: PostBody, now: int): (o: Outcome)
    ensures o.response.status != 201 ==> o.store == store
    ensures !caller.Authenticated? ==> o.response.status in {401, 403}
    ensures caller.Authenticated? && |ValidatePost(b)| > 0 ==>
      o.response == Response(400, Invalid(ValidationFailed, ValidatePost(b)))
    ensures o.response.status == 201 <==> caller.Authenticated? && |ValidatePost(b)| == 0
    ensures o.response.status == 201 ==>
      o.response.body.WithPost? &&
      var p := o.response.body.post;
      && o.store == store + [p]
      && (forall q :: q in store ==> q.id != p.id)
      && p.userId == caller.who.userId && p.username == caller.who.username
      && p.title == Trim(b.title.value) && p.content == Trim(b.content.value)
      && p.imageUrl == StoredImageUrl(b.imageUrl)
      && p.createdAt == now && p.updatedAt == now
  {
    match Authenticate(caller)
    case Some(refusal) => Outcome(refusal, store)
    case None =>
      match PostGate(b)
      case Reject(status, message, details) => Outcome(Response(status, Invalid(message, details)), store)
      case Next(body) =>
        var p := Post(NextId(store), Trim(body.title.value), Trim(body.content.value),
                      StoredImageUrl(body.imageUrl), caller.who.userId, caller.who.username, now, now);
        Outcome(Response(201, WithPost("Post created successfully", p)), store + [p])
  }

  /** `PUT /posts/:id`: token, then body, then 404 for a missing row, then 403
      for someone else's row; only then are title, content and image URL
      replaced, and nothing else anywhere changes. */
  function UpdatePost(store: Store, caller: Caller, id: PostId, b: PostBody): (o: Outcome)
    ensures o.response.status != 200 ==> o.store == store
    ensures !caller.Authenticated? ==> o.response.status in {401, 403}
    ensures caller.Authenticated? && |ValidatePost(b)| > 0 ==>
      o.response == Response(400, Invalid(ValidationFailed, ValidatePost(b)))
    ensures o.response == UpdateForbidden <==>
      caller.Authenticated? && |ValidatePost(b)| == 0 &&
      Find(store, id).Some? && Find(store, id).value.userId != caller.who.userId
    ensures o.response.status == 404 <==>
      caller.Authenticated? && |ValidatePost(b)| == 0 && forall p :: p in store ==> p.id != id
    ensures o.response.status == 200 <==>
      caller.Authenticated? && |ValidatePost(b)| == 0 &&
      Find(store, id).Some? && Find(store, id).value.userId == caller.who.userId
    ensures o.response.status == 200 ==>
      o.response.body.WithPost? &&
      var q := o.response.body.post;
      var prior := Find(store, id).value;
      && q.id == prior.id && q.userId == prior.userId && q.username == prior.username
      && q.createdAt == prior.createdAt && q.updatedAt == prior.updatedAt
      && q.title == Trim(b.title.value) && q.content == Trim(b.content.value)
      && q.imageUrl == StoredImageUrl(b.imageUrl)
      && |o.store| == |store|
      && forall i :: 0 <= i < |store| ==> o.store[i] == if store[i].id == id then q else store[i]
  {
    match Authenticate(caller)
    case Some(refusal) => Outcome(refusal, store)
    case None =>
      match PostGate(b)
      case Reject(status, message, details) => Outcome(Response(status, Invalid(message, details)), store)
      case Next(body) =>
        match Find(store, id)
        case None => Outcome(NotFound, store)
        case Some(existing) =>
          if existing.userId != caller.who.userId then Outcome(UpdateForbidden, store)
          else
            var q := existing.(title := Trim(body.title.value), content := Trim(body.content.value),
                               imageUrl := StoredImageUrl(body.imageUrl));
            Outcome(Response(200, WithPost("Post updated successfully", q)), ReplaceById(store, id, q))
  }

  /** `DELETE /posts/:id`: token, then 404 for a missing row, then 403 for
      someone else's row; only then is that row, and no other, removed. */
  function DeletePost(store: Store, caller: Caller, id: PostId): (o: Outcome)
    ensures o.response.status != 200 ==> o.store == store
    ensures !caller.Authenticated? ==> o.response.status in {401, 403}
    ensures o.response.status == 404 <==>
      caller.Authenticated? && forall p :: p in store ==> p.id != id
    ensures o.response == DeleteForbidden <==>
      caller.Authenticated? && Find(store, id).Some? && Find(store, id).value.userId != caller.who.userId
    ensures o.response.status == 200 <==>
      caller.Authenticated? && Find(store, id).Some? && Find(store, id).value.userId == caller.who.userId
    ensures o.response.status == 200 ==>
      && o.response.body == Note("Post deleted successfully")
      && (forall p :: p in o.store <==> p in store && p.id != id)
      && (forall p: Post :: p.id != id ==> multiset(o.store)[p] == multiset(store)[p])
  {
    match Authenticate(caller)
    case Some(refusal) => Outcome(refusal, store)
    case None =>
      match Find(store, id)
      case None => Outcome(NotFound, store)
      case Some(existing) =>
        if existing.userId != caller.who.userId then Outcome(DeleteForbidden, store)
        else Outcome(Response(200, Note("Post deleted successfully")), RemoveById(store, id))
  }
}
