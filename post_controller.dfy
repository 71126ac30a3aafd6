/** The post controller: creating, patching and archiving posts, the author-only guard, the
    `published_at` rules, the visibility rule of `show`, and the bookkeeping of the tags'
    usage counters and the post-tag associations. The authenticated user, the clock and
    `Str::slug` are passed in. */
module PostController {
  import opened Wrappers
  import opened TagLedger

  datatype PostStatus = Draft | Published | Archived

  /** A posts row; `publishedAt` is the timestamp `now()` gave, `None` for null. */
  datatype Post = Post(
    title: string,
    content: string,
    summary: Option<string>,
    authorId: int,
    categoryId: Option<int>,
    status: PostStatus,
    publishedAt: Option<int>,
    metaDescription: Option<string>,
    featuredImage: Option<string>)

  /** The request of `store`, after validation. `status` is `None` when the key is absent;
      `tags` is `None` when it is absent or not an array. */
  datatype StoreRequest = StoreRequest(
    title: string,
    content: string,
    summary: Option<string>,
    categoryId: Option<int>,
    status: Option<PostStatus>,
    metaDescription: Option<string>,
    featuredImage: Option<string>,
    tags: Option<seq<string>>)

  /** A column of `$request->only(...)`: `Keep` when the key is absent from the request, `Put`
      with the requested value (which may be null) when it is present. */
  datatype Field<T> = Keep | Put(value: T)

  function Apply<T>(f: Field<T>, current: T): (r: T)
    ensures f.Keep? ==> r == current
    ensures f.Put? ==> r == f.value
  {
    match f
    case Keep => current
    case Put(v) => v
  }

  /** The request of `update`, after validation. */
  datatype UpdateRequest = UpdateRequest(
    title: Field<string>,
    content: Field<string>,
    summary: Field<Option<string>>,
    categoryId: Field<Option<int>>,
    status: Field<PostStatus>,
    metaDescription: Field<Option<string>>,
    featuredImage: Field<Option<string>>,
    tags: Option<seq<string>>)

  /** The row `store` creates: the status defaults to draft, and the post is dated exactly
      when the request asks for `published`; the rest is copied from the request. */
  function NewPost(req: StoreRequest, authorId: int, now: int): (p: Post)
    ensures p.authorId == authorId
    ensures p.status == (if req.status.Some? then req.status.value else Draft)
    ensures req.status.None? ==> p.status == Draft
    ensures p.publishedAt.Some? <==> p.status == Published
    ensures p.publishedAt.Some? ==> p.publishedAt.value == now
    ensures p.title == req.title && p.content == req.content && p.summary == req.summary
    ensures p.categoryId == req.categoryId && p.metaDescription == req.metaDescription
    ensures p.featuredImage == req.featuredImage
  {
    var status := if req.status.Some? then req.status.value else Draft;
    Post(req.title, req.content, req.summary, authorId, req.categoryId, status,
      if req.status == Some(Published) then Some(now) else None,
      req.metaDescription, req.featuredImage)
  }

  /** `published_at` after `update`: set to `now` only when the request puts the status
      `published` and the post has no date yet. A date is never overwritten or cleared. */
  function PublishedAtOnUpdate(current: Option<int>, status: Field<PostStatus>, now: int): (r: Option<int>)
    ensures current.Some? ==> r == current
    ensures current.None? ==> (r.Some? <==> status == Put(Published))
    ensures r.Some? ==> r == current || r == Some(now)
  {
    if status == Put(Published) && current.None? then Some(now) else current
  }

  /** The row after `$post->update($updateData)`. */
  function Patched(p: Post, req: UpdateRequest, now: int): (q: Post)
    ensures q.authorId == p.authorId
    ensures q.publishedAt == PublishedAtOnUpdate(p.publishedAt, req.status, now)
    ensures q.status == Apply(req.status, p.status)
    ensures q.title == Apply(req.title, p.title) && q.content == Apply(req.content, p.content)
    ensures q.summary == Apply(req.summary, p.summary)
    ensures q.categoryId == Apply(req.categoryId, p.categoryId)
    ensures q.metaDescription == Apply(req.metaDescription, p.metaDescription)
    ensures q.featuredImage == Apply(req.featuredImage, p.featuredImage)
  {
    Post(
      Apply(req.title, p.title),
      Apply(req.content, p.content),
      Apply(req.summary, p.summary),
      p.authorId,
      Apply(req.categoryId, p.categoryId),
      Apply(req.status, p.status),
      PublishedAtOnUpdate(p.publishedAt, req.status, now),
      Apply(req.metaDescription, p.metaDescription),
      Apply(req.featuredImage, p.featuredImage))
  }

  /** A published post always has a date. */
  ghost predicate Dated(p: Post) {
    p.status == Published ==> p.publishedAt.Some?
  }

  /** `update` keeps a published post dated, whatever the request: becoming published dates
      an undated post, and a date is never cleared. */
  lemma PatchKeepsDated(p: Post, req: UpdateRequest, now: int)
    requires Dated(p)
    ensures Dated(Patched(p, req, now))
    ensures p.publishedAt.Some? ==> Patched(p, req, now).publishedAt == p.publishedAt
  {
  }

  /** A request with none of the patchable keys leaves the row as it was. */
  lemma EmptyPatchChangesNothing(p: Post, now: int, tags: Option<seq<string>>)
    ensures Patched(p, UpdateRequest(Keep, Keep, Keep, Keep, Keep, Keep, Keep, tags), now) == p
  {
  }

  /** The author guard of `update` and `destroy`: `auth()->id() !== $post->author_id` fails
      for a guest (`None`) and for every other user. */
  predicate IsAuthor(viewer: Option<int>, p: Post) {
    viewer == Some(p.authorId)
  }

  /** The visibility rule of `show`: a published post is visible to anyone, any other post
      only to its authenticated author. */
  predicate Visible(p: Post, viewer: Option<int>) {
    p.status == Published || IsAuthor(viewer, p)
  }

  /** `show`: `None` is the 404. */
  function Show(posts: map<int, Post>, id: int, viewer: Option<int>): (r: Option<Post>)
    ensures r.Some? <==> id in posts && Visible(posts[id], viewer)
    ensures r.Some? ==> r.value == posts[id]
  {
    if id in posts && Visible(posts[id], viewer) then Some(posts[id]) else None
  }

  /** A post hidden from the viewer answers exactly as a post that does not exist. */
  lemma HiddenPostLooksMissing(posts: map<int, Post>, id: int, viewer: Option<int>)
    requires id in posts && !Visible(posts[id], viewer)
    ensures Show(posts, id, viewer) == Show(posts - {id}, id, viewer) == None
  {
  }

  /** A guest sees exactly the published posts; the author sees each of their own posts
      whatever its status; another user sees a draft or archived post of someone else as
      missing. */
  lemma ShowAudience(posts: map<int, Post>, id: int, viewer: int)
    requires id in posts
    ensures Show(posts, id, None).Some? <==> posts[id].status == Published
    ensures viewer == posts[id].authorId ==> Show(posts, id, Some(viewer)) == Some(posts[id])
    ensures viewer != posts[id].authorId && posts[id].status != Published ==>
      Show(posts, id, Some(viewer)) == None
  {
  }

  /** The tag ids associated with a post; a post never synced has none. */
  function TagsOf(postTags: map<int, set<nat>>, id: int): (s: set<nat>)
    ensures id !in postTags ==> s == {}
    ensures id in postTags ==> s == postTags[id]
  {
    if id in postTags then postTags[id] else {}
  }

  /** Every associated tag id is a row of a table of `n` tags. */
  ghost predicate AssocBounded(postTags: map<int, set<nat>>, n: int) {
    forall id, t :: id in postTags && t in postTags[id] ==> t < n
  }

  /** `sync` with ids below `m` keeps the associations bounded by a table that grew. */
  lemma SyncKeepsBounded(postTags: map<int, set<nat>>, id: int, ids: seq<nat>, n: int, m: int)
    requires AssocBounded(postTags, n) && n <= m
    requires forall k :: 0 <= k < |ids| ==> ids[k] < m
    ensures AssocBounded(postTags[id := AsSet(ids)], m)
  {
  }

  /** The posts table, the tags table and the `post_tag` pivot. */
  class Blog {
    var posts: map<int, Post>
    var nextPostId: int
    var tags: seq<Tag>
    var postTags: map<int, set<nat>>

    ghost predicate Valid()
      reads this
    {
      && (forall id :: id in posts ==> id < nextPostId)
      && (forall id :: id in postTags ==> id in posts)
      && AssocBounded(postTags, |tags|)
      && NamesUnique(tags)
      && (forall id :: id in posts ==> Dated(posts[id]))
    }

    constructor ()
      ensures Valid()
      ensures posts == map[] && tags == [] && postTags == map[]
    {
      posts := map[];
      nextPostId := 1;
      tags := [];
      postTags := map[];
    }

    /** The `foreach ($request->tags as $tagName)` loop: find or create each tag by name,
        bump its counter and collect its id, in request order. */
    method ResolveTags(names: seq<string>, slugify: string -> string) returns (ids: seq<nat>)
      modifies this`tags
      ensures Resolution(tags, ids) == Resolve(old(tags), names, slugify)
    {
      ids := [];
      var i := 0;
      while i < |names|
        invariant 0 <= i <= |names|
        invariant Resolution(tags, ids) == Resolve(old(tags), names[..i], slugify)
      {
        assert names[..i + 1][..i] == names[..i];
        var found := FirstOrCreate(tags, names[i], slugify);
        tags := Increment(found.tags, found.id);
        ids := ids + [found.id];
        i := i + 1;
      }
      assert names[..|names|] == names;
    }

    /** The `foreach ($post->tags as $tag) $tag->decrementCount()` loop over a post's
        associated tags. */
    method DecrementEach(ids: set<nat>)
      requires forall t :: t in ids ==> t < |tags|
      modifies this`tags
      ensures tags == DecrementAll(old(tags), ids)
    {
      var pending := ids;
      ghost var done: set<nat> := {};
      while pending != {}
        invariant pending + done == ids && pending !! done
        invariant tags == DecrementAll(old(tags), done)
        decreases pending
      {
        var t :| t in pending;
        DecrementAllStep(old(tags), done, t);
        tags := Decrement(tags, t);
        pending := pending - {t};
        done := done + {t};
      }
    }

    /** `store` by the authenticated user `authorId`, at time `now`. Validation is not part
        of this model. The new post's tags are the ids the resolve loop collected, as a set. */
    method Store(authorId: int, req: StoreRequest, now: int, slugify: string -> string)
      returns (id: int, status: Status)
      requires Valid()
      modifies this
      ensures Valid()
      ensures status == Created
      ensures id !in old(posts) && posts == old(posts)[id := NewPost(req, authorId, now)]
      ensures req.tags.None? ==> tags == old(tags) && postTags == old(postTags)
      ensures req.tags.Some? ==>
        var r := Resolve(old(tags), req.tags.value, slugify);
        tags == r.tags && postTags == old(postTags)[id := AsSet(r.ids)]
    {
      id := nextPostId;
      nextPostId := nextPostId + 1;
      posts := posts[id := NewPost(req, authorId, now)];
      if req.tags.Some? {
        ghost var before := tags;
        var ids := ResolveTags(req.tags.value, slugify);
        ResolveBounds(before, req.tags.value, slugify);
        SyncKeepsBounded(postTags, id, ids, |before|, |tags|);
        postTags := postTags[id := AsSet(ids)];
      }
      status := Created;
    }

    /** `update` by `userId` (`None` for a guest) at time `now`: 404 for an unknown post,
        403 unless the user is its author, and otherwise the patch; with a `tags` array,
        every associated tag is decremented, every requested one found or created and
        incremented, and the association replaced by the resolved ids. */
    method Update(userId: Option<int>, id: int, req: UpdateRequest, now: int, slugify: string -> string)
      returns (status: Status)
      requires Valid()
      modifies this
      ensures Valid()
      ensures id !in old(posts) ==> status == NotFound
      ensures id in old(posts) && !IsAuthor(userId, old(posts)[id]) ==> status == Forbidden
      ensures status != Ok ==>
        posts == old(posts) && tags == old(tags) && postTags == old(postTags)
      ensures id in old(posts) && IsAuthor(userId, old(posts)[id]) ==> (
        && status == Ok
        && posts == old(posts)[id := Patched(old(posts)[id], req, now)]
        && (req.tags.None? ==> tags == old(tags) && postTags == old(postTags))
        && (req.tags.Some? ==>
              var r := Resolve(DecrementAll(old(tags), TagsOf(old(postTags), id)), req.tags.value, slugify);
              tags == r.tags && postTags == old(postTags)[id := AsSet(r.ids)]))
    {
      if id !in posts {
        return NotFound;
      }
      if !IsAuthor(userId, posts[id]) {
        return Forbidden;
      }
      PatchKeepsDated(posts[id], req, now);
      posts := posts[id := Patched(posts[id], req, now)];
      if req.tags.Some? {
        var associated := TagsOf(postTags, id);
        DecrementEach(associated);
        ghost var decremented := tags;
        DecrementAllKeepsNames(old(tags), associated);
        var ids := ResolveTags(req.tags.value, slugify);
        ResolveBounds(decremented, req.tags.value, slugify);
        SyncKeepsBounded(postTags, id, ids, |decremented|, |tags|);
        postTags := postTags[id := AsSet(ids)];
      }
      status := Ok;
    }

    /** `destroy` by `userId`: 404 for an unknown post, 403 unless the user is its author;
        otherwise the row is kept with the status `archived`, each associated tag loses one,
        and the association is left in place. */
    method Destroy(userId: Option<int>, id: int) returns (status: Status)
      requires Valid()
      modifies this
      ensures Valid()
      ensures id !in old(posts) ==> status == NotFound
      ensures id in old(posts) && !IsAuthor(userId, old(posts)[id]) ==> status == Forbidden
      ensures status != Ok ==>
        posts == old(posts) && tags == old(tags) && postTags == old(postTags)
      ensures id in old(posts) && IsAuthor(userId, old(posts)[id]) ==> (
        && status == Ok
        && posts == old(posts)[id := old(posts)[id].(status := Archived)]
        && tags == DecrementAll(old(tags), TagsOf(old(postTags), id))
        && postTags == old(postTags))
    {
      if id !in posts {
        return NotFound;
      }
      if !IsAuthor(userId, posts[id]) {
        return Forbidden;
      }
      posts := posts[id := posts[id].(status := Archived)];
      DecrementAllKeepsNames(tags, TagsOf(postTags, id));
      DecrementEach(TagsOf(postTags, id));
      status := Ok;
    }
  }
}
