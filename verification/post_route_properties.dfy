/**
 * Properties that relate several calls of the post handlers: the create/get
 * round trip, the ownership rule, idempotence of update and delete, and the
 * primary-key invariant of the store.
 */
module PostRouteProperties {
  import opened Wrappers
  import opened Text
  import opened Patterns
  import opened Validation
  import opened PostStore
  import opened PostRoutes

  /** Owner fields in a create body have no effect: two bodies that agree on
      title, content and image URL give the same outcome. */
  lemma CreateIgnoresOwnerFields(store: Store, caller: Caller, b1: PostBody, b2: PostBody, now: int)
    requires b1.title == b2.title && b1.content == b2.content && b1.imageUrl == b2.imageUrl
    ensures CreatePost(store, caller, b1, now) == CreatePost(store, caller, b2, now)
  {
  }

  /** Creating a valid post and then fetching it by the id it got returns that
      post, carrying the creator's identity from the token. */
  lemma CreateThenGet(store: Store, who: Identity, b: PostBody, now: int)
    requires |ValidatePost(b)| == 0
    ensures var o := CreatePost(store, Authenticated(who), b, now);
      var p := o.response.body.post;
      && o.response.status == 201
      && GetPost(o.store, p.id).response == Response(200, Record(p))
      && p.userId == who.userId && p.username == who.username
      && p.title == Trim(b.title.value) && p.content == Trim(b.content.value)
  {
    var o := CreatePost(store, Authenticated(who), b, now);
    var p := o.response.body.post;
    var f := Find(o.store, p.id);
    assert f.Some? by {
      assert p in o.store;
    }
    assert f.value !in store;
  }

  /** The title and content a create stores pass validation again: trimming
      is idempotent. */
  lemma StoredTextRevalidates(store: Store, who: Identity, b: PostBody, now: int)
    requires |ValidatePost(b)| == 0
    ensures var p := CreatePost(store, Authenticated(who), b, now).response.body.post;
      var again := ValidatePost(PostBody(Some(p.title), Some(p.content), p.imageUrl, None, None));
      Title !in again && Content !in again
  {
    var p := CreatePost(store, Authenticated(who), b, now).response.body.post;
    assert p.title == Trim(b.title.value) && p.content == Trim(b.content.value);
    TrimIdempotent(b.title.value);
    TrimIdempotent(b.content.value);
    var again := ValidatePost(PostBody(Some(p.title), Some(p.content), p.imageUrl, None, None));
    assert 5 <= |Trim(p.title)| <= 120;
    assert |Trim(p.content)| >= 50;
  }

  /** The image URL is checked untrimmed but stored trimmed, so a stored URL
      need not pass the check again: `"http:// "` passes (a space is not a
      line terminator) and is stored as `"http://"`, which fails. `SampleBody`
      is a valid body with that URL (`SampleBodyValid`), so the requires can
      be met. */
  lemma StoredImageUrlMayNotRevalidate(store: Store, who: Identity, b: PostBody, now: int)
    requires |ValidatePost(b)| == 0 && b.imageUrl == Some("http:// ")
    ensures var o := CreatePost(store, Authenticated(who), b, now);
      && o.response.status == 201
      && o.response.body.post.imageUrl == Some("http://")
      && ImageUrl in ValidatePost(b.(imageUrl := o.response.body.post.imageUrl))
  {
    SampleUrlFacts();
  }

  /** Sixty characters of body text, and a title of sixteen. */
  const Filler: string := seq(60, _ => 'x')
  const SampleTitle: string := seq(16, _ => 't')

  /** A valid post body whose image URL has a trailing space. */
  const SampleBody := PostBody(Some(SampleTitle), Some(Filler), Some("http:// "), None, None)

  lemma SampleUrlFacts()
    ensures UrlRegex("http:// ") && Trim("http:// ") == "http://"
    ensures !UrlRegex("http://") && !AllSpace("http://")
  {
    SampleUrlTrims();
    SampleUrlMatches();
  }

  lemma SampleUrlTrims()
    ensures Trim("http:// ") == "http://"
  {
    assert "http:// " == [] + "http://" + " ";
    assert !IsSpace("http://"[0]) && !IsSpace("http://"[6]) && AllSpace(" ");
    TrimPadded([], "http://", " ");
  }

  lemma SampleUrlMatches()
    ensures UrlRegex("http:// ") && !UrlRegex("http://") && !AllSpace("http://")
  {
    assert "http:// "[..7] == "http://";
    assert !IsLineTerminator("http:// "[7]);
    assert !IsSpace("http://"[0]);
    UrlRegexNeedsHost();
  }

  /** `SampleBody` passes validation with the URL `"http:// "`. */
  lemma SampleBodyValid()
    ensures |ValidatePost(SampleBody)| == 0 && SampleBody.imageUrl == Some("http:// ")
  {
    SampleTextTrims();
    SampleUrlFacts();
    AcceptedBody(SampleBody, SampleTitle, Filler, "http:// ");
  }

  /** A body with a title and content of the right trimmed lengths and a URL
      that matches the pattern has no errors. */
  lemma AcceptedBody(b: PostBody, title: string, content: string, url: string)
    requires b.title == Some(title) && 5 <= |Trim(title)| <= 120
    requires b.content == Some(content) && |Trim(content)| >= 50
    requires b.imageUrl == Some(url) && UrlRegex(url)
    ensures |ValidatePost(b)| == 0
  {
    var errs := ValidatePost(b);
    assert errs.Keys == {};
  }

  lemma SampleTextTrims()
    ensures Trim(SampleTitle) == SampleTitle && |SampleTitle| == 16
    ensures Trim(Filler) == Filler && |Filler| == 60
  {
    assert SampleTitle[0] == 't' && SampleTitle[15] == 't';
    TrimOfTrimmed(SampleTitle);
    assert Filler[0] == 'x' && Filler[59] == 'x';
    TrimOfTrimmed(Filler);
  }

  /** The ownership rule: for a post owned by someone else, delete answers 403
      and an update with a valid body answers 403, both leaving the store as it
      was; validation runs first, so an invalid body answers 400 instead. */
  lemma OthersPostsAreForbidden(store: Store, who: Identity, p: Post, b: PostBody)
    requires UniqueIds(store) && p in store && p.userId != who.userId
    ensures var o := DeletePost(store, Authenticated(who), p.id);
      o.response.status == 403 && o.store == store
    ensures var o := UpdatePost(store, Authenticated(who), p.id, b);
      && (|ValidatePost(b)| == 0 ==> o.response.status == 403)
      && (|ValidatePost(b)| > 0 ==> o.response.status == 400)
      && o.store == store
  {
    FindUnique(store, p.id, p);
  }

  /** A successful delete cannot be repeated: the second one answers 404 and
      changes nothing, and the post can no longer be fetched. */
  lemma DeleteTwiceIsNotFound(store: Store, caller: Caller, id: PostId)
    requires DeletePost(store, caller, id).response.status == 200
    ensures var after := DeletePost(store, caller, id).store;
      && DeletePost(after, caller, id).response == NotFound
      && DeletePost(after, caller, id).store == after
      && GetPost(after, id).response == NotFound
  {
  }

  /** Repeating an update returns the same response and the same store. */
  lemma UpdateIdempotent(store: Store, caller: Caller, id: PostId, b: PostBody)
    ensures var o := UpdatePost(store, caller, id, b);
      UpdatePost(o.store, caller, id, b) == o
  {
    var o := UpdatePost(store, caller, id, b);
    if o.response.status == 200 {
      ReplaceTwice(store, id, o.response.body.post);
    }
  }

  /** Every handler keeps the primary-key constraint of the store. */
  lemma HandlersKeepUniqueIds(store: Store, caller: Caller, id: PostId, b: PostBody, now: int)
    requires UniqueIds(store)
    ensures UniqueIds(CreatePost(store, caller, b, now).store)
    ensures UniqueIds(UpdatePost(store, caller, id, b).store)
    ensures UniqueIds(DeletePost(store, caller, id).store)
  {
    CreateKeepsUniqueIds(store, caller, b, now);
    UpdateKeepsUniqueIds(store, caller, id, b);
    DeleteKeepsUniqueIds(store, caller, id);
  }

  lemma CreateKeepsUniqueIds(store: Store, caller: Caller, b: PostBody, now: int)
    requires UniqueIds(store)
    ensures UniqueIds(CreatePost(store, caller, b, now).store)
  {
    var c := CreatePost(store, caller, b, now);
    if c.response.status == 201 {
      AppendUnique(store, c.response.body.post);
    }
  }

  lemma UpdateKeepsUniqueIds(store: Store, caller: Caller, id: PostId, b: PostBody)
    requires UniqueIds(store)
    ensures UniqueIds(UpdatePost(store, caller, id, b).store)
  {
  }

  lemma DeleteKeepsUniqueIds(store: Store, caller: Caller, id: PostId)
    requires UniqueIds(store)
    ensures UniqueIds(DeletePost(store, caller, id).store)
  {
    FilterUnique(store, (p: Post) => p.id != id);
  }
}
