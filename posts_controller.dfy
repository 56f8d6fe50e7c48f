/**
  The create, delete and update handlers of the posts router
  (controllers/posts.js), as methods of an in-memory store.

  The caller's identity is given as an `Option<UserId>`. `None` stands for
  every request the handlers answer or reject as "token missing or
  invalid": a verified token whose payload carries no user id (the
  handlers' own 401 test), and a missing, malformed or expired token, on
  which `jwt.verify` throws before that test and error middleware answers;
  the model folds both into the same 401 answer. Checking the token's
  signature and expiry is not part of this model. Blog ids are handed out
  by the store (the document database assigns them in the source).
*/
module PostsController {
  import opened Wrappers

  type UserId = string
  type BlogId = nat

  /**
    A stored blog. `user` is `None` when the blog was saved with a null
    owner, which happens when the caller's user record does not exist.
  */
  datatype Blog = Blog(title: string, author: Option<string>, url: string, likes: int, user: Option<UserId>)

  /** A request body; every field may be absent. */
  datatype Body = Body(title: Option<string>, author: Option<string>, url: Option<string>, likes: Option<int>)

  /** What a handler answers. `Crash` is a TypeError from reading a property of `null`. */
  datatype Response =
    | Created(id: BlogId, blog: Blog)
    | NoContent
    | Updated(blog: Blog)
    | TokenMissingOrInvalid
    | OnlyCreatorCanDelete
    | TitleOrUrlMissing
    | Crash

  /** The HTTP status of an answer; the status sent after a crash is up to the framework. */
  function Status(r: Response): (code: int)
    requires !r.Crash?
    ensures code >= 400 <==> r.TokenMissingOrInvalid? || r.OnlyCreatorCanDelete? || r.TitleOrUrlMissing?
    ensures r.Created? ==> code == 201
    ensures r.NoContent? ==> code == 204
    ensures r.Updated? ==> code == 200
    ensures r.TitleOrUrlMissing? ==> code == 400
    ensures code == 401 <==> r.TokenMissingOrInvalid? || r.OnlyCreatorCanDelete?
  {
    match r
    case Created(_, _) => 201
    case NoContent => 204
    case Updated(_) => 200
    case TokenMissingOrInvalid => 401
    case OnlyCreatorCanDelete => 401
    case TitleOrUrlMissing => 400
  }

  /** JavaScript truthiness of an optional string: present and not empty. */
  predicate Truthy(s: Option<string>)
  {
    s.Some? && s.value != ""
  }

  /**
    `ids.filter(b => b !== id)`: the list without any occurrence of `id`,
    the other ids kept in order. (The source compares `b.id.toString()` with
    the request id; the string form of a stored id depends on the database
    driver, so the evident intent, dropping the deleted id, is modelled.)
  */
  function Without(ids: seq<BlogId>, id: BlogId): (r: seq<BlogId>)
    ensures multiset(r) == multiset(ids)[id := 0]
    ensures forall x :: x in r <==> x in ids && x != id
    ensures |r| <= |ids|
    ensures id !in ids ==> r == ids
  {
    if ids == [] then []
    else
      var init, last := ids[..|ids| - 1], ids[|ids| - 1];
      assert ids == init + [last];
      assert multiset(ids) == multiset(init) + multiset{last};
      if last == id then Without(init, id)
      else Without(init, id) + [last]
  }

  /** The filter of one id keeps it exactly when it differs from the deleted id. */
  lemma WithoutSingle(x: BlogId, id: BlogId)
    ensures Without([x], id) == if x == id then [] else [x]
  {
    assert [x][..0] == [];
  }

  /** The filter works element by element: it distributes over concatenation. */
  lemma {:induction false} WithoutConcat(a: seq<BlogId>, b: seq<BlogId>, id: BlogId)
    ensures Without(a + b, id) == Without(a, id) + Without(b, id)
  {
    if b == [] {
      assert a + b == a;
    } else {
      var init, last := b[..|b| - 1], b[|b| - 1];
      assert (a + b)[..|a + b| - 1] == a + init;
      assert (a + b)[|a + b| - 1] == last;
      WithoutConcat(a, init, id);
    }
  }

  /**
    Deleting the blog just created gives the creator back the list it had:
    ids are fresh, so the new id occurred nowhere before.
  */
  lemma {:induction false} WithoutUndoesAppend(ids: seq<BlogId>, id: BlogId)
    requires id !in ids
    ensures Without(ids + [id], id) == ids
  {
    assert (ids + [id])[..|ids + [id]| - 1] == ids;
  }

  /**
    Ids are handed out once; a blog with an owner is listed by that owner;
    a user lists only blogs that the user owns, or that were deleted.
  */
  ghost predicate StoreInvariant(blogs: map<BlogId, Blog>, users: map<UserId, seq<BlogId>>, nextId: BlogId)
  {
    && (forall id | id in blogs :: id < nextId)
    && (forall u, x | u in users && x in users[u] :: x < nextId)
    && (forall id | id in blogs && blogs[id].user.Some? ::
          blogs[id].user.value in users && id in users[blogs[id].user.value])
    && (forall u, x | u in users && x in users[u] && x in blogs :: blogs[x].user == Some(u))
  }

  /** Saving a blog owned by a known user under the next id, and listing it, keeps the invariant. */
  lemma CreateKeepsInvariant(blogs: map<BlogId, Blog>, users: map<UserId, seq<BlogId>>, nextId: BlogId, blog: Blog)
    requires StoreInvariant(blogs, users, nextId)
    requires blog.user.Some? && blog.user.value in users
    ensures StoreInvariant(blogs[nextId := blog], users[blog.user.value := users[blog.user.value] + [nextId]], nextId + 1)
  {
  }

  /** Saving an ownerless blog under the next id keeps the invariant. */
  lemma CrashedCreateKeepsInvariant(blogs: map<BlogId, Blog>, users: map<UserId, seq<BlogId>>, nextId: BlogId, blog: Blog)
    requires StoreInvariant(blogs, users, nextId)
    requires blog.user.None?
    ensures StoreInvariant(blogs[nextId := blog], users, nextId + 1)
  {
  }

  /**
    Removing an owned blog and dropping its id from its owner's list keeps
    the invariant; no other user's list holds the id.
  */
  lemma DeleteKeepsInvariant(blogs: map<BlogId, Blog>, users: map<UserId, seq<BlogId>>, nextId: BlogId, id: BlogId)
    requires StoreInvariant(blogs, users, nextId)
    requires id in blogs && blogs[id].user.Some?
    ensures var u := blogs[id].user.value;
            && StoreInvariant(blogs - {id}, users[u := Without(users[u], id)], nextId)
            && forall v | v in users && v != u :: id !in users[v]
  {
  }

  /** Replacing a blog by one with the same owner keeps the invariant. */
  lemma UpdateKeepsInvariant(blogs: map<BlogId, Blog>, users: map<UserId, seq<BlogId>>, nextId: BlogId, id: BlogId, blog: Blog)
    requires StoreInvariant(blogs, users, nextId)
    requires id in blogs && blog.user == blogs[id].user
    ensures StoreInvariant(blogs[id := blog], users, nextId)
  {
  }

  class Store {
    /** The blog collection. */
    var blogs: map<BlogId, Blog>
    /** Each user's `blogs` array: the ids of the blogs the user created. */
    var users: map<UserId, seq<BlogId>>
    /** The id the next saved blog receives. */
    var nextId: BlogId

    ghost predicate Valid()
      reads this
    {
      StoreInvariant(blogs, users, nextId)
    }

    /** An empty blog collection; each of `accounts` has an empty list. */
    constructor (accounts: set<UserId>)
      ensures Valid()
      ensures blogs == map[] && nextId == 0
      ensures users == map u | u in accounts :: []
    {
      blogs := map[];
      users := map u | u in accounts :: [];
      nextId := 0;
    }

    /**
      `post '/'`: the token is checked first, then title and url; a falsy
      `likes` becomes 0; the blog is saved with the caller as owner and its
      id appended to the caller's list.
    */
    method Create(caller: Option<UserId>, body: Body) returns (r: Response)
      requires Valid()
      modifies this
      ensures Valid()
      ensures caller.None? ==> r == TokenMissingOrInvalid && unchanged(this)
      ensures caller.Some? && !(Truthy(body.url) && Truthy(body.title)) ==>
                r == TitleOrUrlMissing && unchanged(this)
      ensures caller.Some? && Truthy(body.url) && Truthy(body.title) ==>
                && old(nextId) !in old(blogs)
                && blogs.Keys == old(blogs).Keys + {old(nextId)}
                && |blogs| == |old(blogs)| + 1
                && (forall id | id in old(blogs) :: blogs[id] == old(blogs)[id])
                && blogs[old(nextId)].title == body.title.value
                && blogs[old(nextId)].url == body.url.value
                && blogs[old(nextId)].author == body.author
                && (body.likes.None? || body.likes == Some(0) ==> blogs[old(nextId)].likes == 0)
                && (body.likes.Some? && body.likes != Some(0) ==> blogs[old(nextId)].likes == body.likes.value)
      ensures caller.Some? && Truthy(body.url) && Truthy(body.title) && caller.value in old(users) ==>
                && r == Created(old(nextId), blogs[old(nextId)])
                && blogs[old(nextId)].user == caller
                && users == old(users)[caller.value := old(users)[caller.value] + [old(nextId)]]
      ensures caller.Some? && Truthy(body.url) && Truthy(body.title) && caller.value !in old(users) ==>
                && r == Crash
                && blogs[old(nextId)].user.None?
                && users == old(users)
    {
      if caller.None? {
        return TokenMissingOrInvalid;
      }
      var u := caller.value;
      if !Truthy(body.url) || !Truthy(body.title) {
        return TitleOrUrlMissing;
      }
      var likes := if body.likes.None? || body.likes.value == 0 then 0 else body.likes.value;
      var id := nextId;
      nextId := nextId + 1;
      if u !in users {
        // `User.findById` gave null: the blog is saved with a null owner,
        // then `user.blogs` throws.
        var blog := Blog(body.title.value, body.author, body.url.value, likes, None);
        CrashedCreateKeepsInvariant(blogs, users, id, blog);
        blogs := blogs[id := blog];
        return Crash;
      }
      var blog := Blog(body.title.value, body.author, body.url.value, likes, Some(u));
      CreateKeepsInvariant(blogs, users, id, blog);
      blogs := blogs[id := blog];
      users := users[u := users[u] + [id]];
      r := Created(id, blog);
    }

    /**
      `delete '/:id'`: the token is checked first; the blog's owner is then
      compared with the caller; only the owner may delete, and the id leaves
      the owner's list. A missing blog, a blog without owner or a caller
      without user record is dereferenced as `null`.
    */
    method Delete(caller: Option<UserId>, id: BlogId) returns (r: Response)
      requires Valid()
      modifies this
      ensures Valid()
      ensures caller.None? ==> r == TokenMissingOrInvalid && unchanged(this)
      ensures caller.Some? && (id !in old(blogs) || old(blogs)[id].user.None? || caller.value !in old(users)) ==>
                r == Crash && unchanged(this)
      ensures caller.Some? && id in old(blogs) && old(blogs)[id].user.Some? && caller.value in old(users) &&
              old(blogs)[id].user != caller ==>
                r == OnlyCreatorCanDelete && unchanged(this)
      ensures caller.Some? && id in old(blogs) && old(blogs)[id].user == caller && caller.value in old(users) ==>
                && r == NoContent
                && blogs == old(blogs) - {id}
                && |blogs| == |old(blogs)| - 1
                && users == old(users)[caller.value := Without(old(users)[caller.value], id)]
                && nextId == old(nextId)
                && (forall v | v in users :: id !in users[v])
    {
      if caller.None? {
        return TokenMissingOrInvalid;
      }
      var u := caller.value;
      if id !in blogs || blogs[id].user.None? || u !in users {
        return Crash;
      }
      if blogs[id].user.value != u {
        return OnlyCreatorCanDelete;
      }
      DeleteKeepsInvariant(blogs, users, nextId, id);
      blogs := blogs - {id};
      users := users[u := Without(users[u], id)];
      r := NoContent;
    }

    /**
      `put '/:id'`: no token or owner check; the fields present in the body
      overwrite the stored ones. A missing id makes the update yield `null`,
      which is then dereferenced.
    */
    method Update(id: BlogId, body: Body) returns (r: Response)
      requires Valid()
      modifies this
      ensures Valid()
      ensures id !in old(blogs) ==> r == Crash && unchanged(this)
      ensures id in old(blogs) ==>
                && r.Updated?
                && blogs == old(blogs)[id := r.blog]
                && users == old(users) && nextId == old(nextId)
                && r.blog.user == old(blogs)[id].user
                && r.blog.title == (if body.title.Some? then body.title.value else old(blogs)[id].title)
                && r.blog.author == (if body.author.Some? then body.author else old(blogs)[id].author)
                && r.blog.url == (if body.url.Some? then body.url.value else old(blogs)[id].url)
                && r.blog.likes == (if body.likes.Some? then body.likes.value else old(blogs)[id].likes)
    {
      if id !in blogs {
        return Crash;
      }
      var b := blogs[id];
      var updated := Blog(
        if body.title.Some? then body.title.value else b.title,
        if body.author.Some? then body.author else b.author,
        if body.url.Some? then body.url.value else b.url,
        if body.likes.Some? then body.likes.value else b.likes,
        b.user);
      UpdateKeepsInvariant(blogs, users, nextId, id, updated);
      blogs := blogs[id := updated];
      r := Updated(updated);
    }
  }
}
