/** The post table: its where-clause builder, lookups, counts, listings and the
    statements that insert, update, pin and delete posts. */
module GroupPostQueries {
  import opened Common
  import opened Tables
  import opened Model
  import opened Database

  // ---------------------------------------------------------------------------
  // WHERE

  /** The parameters of the where-clause builder; `None` is an omitted parameter.
      `isPinned` is compared with undefined, so `Some(false)` is a real filter. */
  datatype PostFilter = PostFilter(
    id: Option<Id>, groupId: Option<Id>, authorId: Option<Id>, postType: Option<PostType>, isPinned: Option<bool>)

  /** One SQL condition the builder pushes. */
  datatype Cond =
    | IdEq(id: Id)
    | GroupIdEq(groupId: Id)
    | AuthorIdEq(authorId: Id)
    | TypeEq(postType: PostType)
    | PinnedEq(isPinned: bool)

  /** `eq(authorId, a)` is never true of a post whose author column is null. */
  predicate Holds(c: Cond, p: GroupPost)
  {
    match c
    case IdEq(i) => p.id == i
    case GroupIdEq(g) => p.groupId == g
    case AuthorIdEq(a) => p.authorId == Some(a)
    case TypeEq(t) => p.postType == t
    case PinnedEq(b) => p.isPinned == b
  }

  predicate AllHold(conditions: seq<Cond>, p: GroupPost)
  {
    forall i :: 0 <= i < |conditions| ==> Holds(conditions[i], p)
  }

  predicate Satisfies(w: Option<seq<Cond>>, p: GroupPost)
  {
    w.None? || AllHold(w.value, p)
  }

  /** What a filter means: the post satisfies every parameter that was supplied. */
  predicate Matches(f: PostFilter, p: GroupPost)
  {
    && (f.id.Some? ==> p.id == f.id.value)
    && (f.groupId.Some? ==> p.groupId == f.groupId.value)
    && (f.authorId.Some? ==> p.authorId == Some(f.authorId.value))
    && (f.postType.Some? ==> p.postType == f.postType.value)
    && (f.isPinned.Some? ==> p.isPinned == f.isPinned.value)
  }

  predicate NoFilter(f: PostFilter)
  {
    f.id.None? && f.groupId.None? && f.authorId.None? && f.postType.None? && f.isPinned.None?
  }

  function Where(f: PostFilter): GroupPost -> bool
  {
    (p: GroupPost) => Matches(f, p)
  }

  lemma {:induction false} Push(conditions: seq<Cond>, c: Cond)
    ensures forall p :: AllHold(conditions + [c], p) <==> AllHold(conditions, p) && Holds(c, p)
  {
    forall p | AllHold(conditions + [c], p)
      ensures AllHold(conditions, p) && Holds(c, p)
    {
      assert forall i :: 0 <= i < |conditions| ==> (conditions + [c])[i] == conditions[i];
      assert (conditions + [c])[|conditions|] == c;
    }
  }

  /** Pushes one condition per supplied parameter; no conditions gives no clause. */
  method BuildWhereClause(f: PostFilter) returns (w: Option<seq<Cond>>)
    ensures w.None? <==> NoFilter(f)
    ensures forall p :: Satisfies(w, p) <==> Matches(f, p)
  {
    var conditions: seq<Cond> := [];
    if f.id.Some? {
      Push(conditions, IdEq(f.id.value));
      conditions := conditions + [IdEq(f.id.value)];
    }
    assert forall p :: AllHold(conditions, p) <==> (f.id.Some? ==> p.id == f.id.value);
    ghost var before := conditions;
    if f.groupId.Some? {
      Push(conditions, GroupIdEq(f.groupId.value));
      conditions := conditions + [GroupIdEq(f.groupId.value)];
    }
    assert forall p :: AllHold(conditions, p) <==> AllHold(before, p) && (f.groupId.Some? ==> p.groupId == f.groupId.value);
    before := conditions;
    if f.authorId.Some? {
      Push(conditions, AuthorIdEq(f.authorId.value));
      conditions := conditions + [AuthorIdEq(f.authorId.value)];
    }
    assert forall p :: AllHold(conditions, p) <==> AllHold(before, p) && (f.authorId.Some? ==> p.authorId == Some(f.authorId.value));
    before := conditions;
    if f.postType.Some? {
      Push(conditions, TypeEq(f.postType.value));
      conditions := conditions + [TypeEq(f.postType.value)];
    }
    assert forall p :: AllHold(conditions, p) <==> AllHold(before, p) && (f.postType.Some? ==> p.postType == f.postType.value);
    before := conditions;
    if f.isPinned.Some? {
      Push(conditions, PinnedEq(f.isPinned.value));
      conditions := conditions + [PinnedEq(f.isPinned.value)];
    }
    assert forall p :: AllHold(conditions, p) <==> AllHold(before, p) && (f.isPinned.Some? ==> p.isPinned == f.isPinned.value);
    if |conditions| > 0 {
      w := Some(conditions);
    } else {
      w := None;
    }
  }

  // ---------------------------------------------------------------------------
  // Lookups and counts

  function HasId(id: Id): GroupPost -> bool
  {
    (p: GroupPost) => p.id == id
  }

  /** `findById` (and `findByIdWithAuthor` without the author join). */
  function FindById(rows: seq<GroupPost>, id: Id): (r: Option<GroupPost>)
    ensures r.Some? ==> r.value in rows && r.value.id == id
    ensures r.None? <==> forall i :: 0 <= i < |rows| ==> rows[i].id != id
  {
    Find(rows, HasId(id))
  }

  /** The filter `findByGroup` and `countByGroup` build for a group. */
  function GroupFilter(groupId: Id, postType: Option<PostType>, authorId: Option<Id>, isPinned: Option<bool>): PostFilter
  {
    PostFilter(None, Some(groupId), authorId, postType, isPinned)
  }

  function AuthorFilter(authorId: Id, postType: Option<PostType>, isPinned: Option<bool>): PostFilter
  {
    PostFilter(None, None, Some(authorId), postType, isPinned)
  }

  /** `desc(isPinned), desc(createdAt)`: `true` sorts before `false`. */
  function PinnedThenNewest(p: GroupPost): Key
  {
    Key(if p.isPinned then 0 else 1, -p.createdAt)
  }

  /** `desc(createdAt)`. */
  function Newest(p: GroupPost): Key
  {
    Key(-p.createdAt, 0)
  }

  /** All rows `findByGroup` selects, in its order, before the window. */
  function PostsOf(rows: seq<GroupPost>, groupId: Id, postType: Option<PostType>, isPinned: Option<bool>): seq<GroupPost>
  {
    Listing(rows, Where(GroupFilter(groupId, postType, None, isPinned)), PinnedThenNewest)
  }

  /** `findByGroup`: one page of the group's posts, pinned posts first and newer
      posts first within each part. */
  function FindByGroup(rows: seq<GroupPost>, groupId: Id, postType: Option<PostType>, isPinned: Option<bool>,
                       limit: Option<int>, offset: Option<int>): (r: Option<seq<GroupPost>>)
    ensures r.None? <==> Default(limit, 20) < 0 || Default(offset, 0) < 0
    ensures r.Some? ==> forall k :: 0 <= k < |r.value| ==>
      r.value[k] in rows && r.value[k].groupId == groupId
      && (postType.Some? ==> r.value[k].postType == postType.value)
      && (isPinned.Some? ==> r.value[k].isPinned == isPinned.value)
    ensures r.Some? ==> forall i, j :: 0 <= i < j < |r.value| ==>
      (r.value[j].isPinned ==> r.value[i].isPinned)
      && (r.value[i].isPinned == r.value[j].isPinned ==> r.value[i].createdAt >= r.value[j].createdAt)
    ensures r.Some? ==> IsWindow(r.value, PostsOf(rows, groupId, postType, isPinned), Default(limit, 20), Default(offset, 0))
  {
    var all := PostsOf(rows, groupId, postType, isPinned);
    var r := Page(all, Default(limit, 20), Default(offset, 0));
    if r.Some? then
      PageKeepsOrder(all, PinnedThenNewest, Default(limit, 20), Default(offset, 0));
      r
    else r
  }

  /** All rows `findByAuthor` selects, newest first. */
  function PostsBy(rows: seq<GroupPost>, authorId: Id): seq<GroupPost>
  {
    Listing(rows, Where(AuthorFilter(authorId, None, None)), Newest)
  }

  /** `findByAuthor`: one page of that author's posts, newest first. */
  function FindByAuthor(rows: seq<GroupPost>, authorId: Id, limit: Option<int>, offset: Option<int>): (r: Option<seq<GroupPost>>)
    ensures r.None? <==> Default(limit, 20) < 0 || Default(offset, 0) < 0
    ensures r.Some? ==> forall k :: 0 <= k < |r.value| ==> r.value[k] in rows && r.value[k].authorId == Some(authorId)
    ensures r.Some? ==> forall i, j :: 0 <= i < j < |r.value| ==> r.value[i].createdAt >= r.value[j].createdAt
    ensures r.Some? ==> IsWindow(r.value, PostsBy(rows, authorId), Default(limit, 20), Default(offset, 0))
  {
    var all := PostsBy(rows, authorId);
    var r := Page(all, Default(limit, 20), Default(offset, 0));
    if r.Some? then
      PageKeepsOrder(all, Newest, Default(limit, 20), Default(offset, 0));
      r
    else r
  }

  /** `countByGroup`: without an author filter it counts exactly the rows the
      corresponding `findByGroup` listing holds. */
  function CountByGroup(rows: seq<GroupPost>, groupId: Id, postType: Option<PostType>, authorId: Option<Id>,
                        isPinned: Option<bool>): (n: nat)
    ensures authorId.None? ==> n == |PostsOf(rows, groupId, postType, isPinned)|
    ensures n > 0 <==> exists i :: 0 <= i < |rows| && Matches(GroupFilter(groupId, postType, authorId, isPinned), rows[i])
  {
    CountPositive(rows, Where(GroupFilter(groupId, postType, authorId, isPinned)));
    Count(rows, Where(GroupFilter(groupId, postType, authorId, isPinned)))
  }

  /** `countByAuthor`: without further filters it counts the `findByAuthor` listing. */
  function CountByAuthor(rows: seq<GroupPost>, authorId: Id, postType: Option<PostType>, isPinned: Option<bool>): (n: nat)
    ensures postType.None? && isPinned.None? ==> n == |PostsBy(rows, authorId)|
    ensures n > 0 <==> exists i :: 0 <= i < |rows| && Matches(AuthorFilter(authorId, postType, isPinned), rows[i])
  {
    CountPositive(rows, Where(AuthorFilter(authorId, postType, isPinned)));
    Count(rows, Where(AuthorFilter(authorId, postType, isPinned)))
  }

  /** `existsInGroup`. */
  function ExistsInGroup(rows: seq<GroupPost>, id: Id, groupId: Id): (b: bool)
    ensures b <==> exists i :: 0 <= i < |rows| && rows[i].id == id && rows[i].groupId == groupId
  {
    Find(rows, Where(PostFilter(Some(id), Some(groupId), None, None, None))).Some?
  }

  /** `isAuthor`. */
  function IsAuthor(rows: seq<GroupPost>, id: Id, authorId: Id): (b: bool)
    ensures b <==> exists i :: 0 <= i < |rows| && rows[i].id == id && rows[i].authorId == Some(authorId)
  {
    Find(rows, Where(PostFilter(Some(id), None, Some(authorId), None, None))).Some?
  }

  // ---------------------------------------------------------------------------
  // Statements

  /** `update ... set({ ...data, updatedAt })`: undefined fields are left alone. */
  function SetContent(title: Option<string>, content: Option<string>, now: int): GroupPost -> GroupPost
  {
    (p: GroupPost) => p.(title := Default(title, p.title), content := Default(content, p.content), updatedAt := now)
  }

  function Updated(rows: seq<GroupPost>, id: Id, title: Option<string>, content: Option<string>, now: int): seq<GroupPost>
  {
    UpdateKey(rows, PostId, id, SetContent(title, content, now))
  }

  function SetPinned(isPinned: bool, now: int): GroupPost -> GroupPost
  {
    (p: GroupPost) => p.(isPinned := isPinned, updatedAt := now)
  }

  function PinToggled(rows: seq<GroupPost>, id: Id, isPinned: bool, now: int): seq<GroupPost>
  {
    UpdateKey(rows, PostId, id, SetPinned(isPinned, now))
  }

  function Deleted(rows: seq<GroupPost>, id: Id): seq<GroupPost>
  {
    DeleteKey(rows, PostId, id)
  }

  /** `create`: inserts a post under a fresh id and returns it. */
  method Create(db: Store, groupId: Id, authorId: Option<Id>, title: string, content: string, postType: PostType,
                isPinned: bool, createdAt: int, updatedAt: int) returns (post: GroupPost)
    modifies db
    ensures post == GroupPost(old(db.nextId), groupId, authorId, title, content, postType, isPinned, createdAt, updatedAt)
    ensures db.State() == old(db.State()).(posts := old(db.posts) + [post], nextId := old(db.nextId) + 1)
  {
    var id := db.FreshId();
    post := GroupPost(id, groupId, authorId, title, content, postType, isPinned, createdAt, updatedAt);
    db.posts := db.posts + [post];
  }

  /** `update`: rewrites the post, or throws "Post not found" (`None`) and changes nothing. */
  method Update(db: Store, id: Id, title: Option<string>, content: Option<string>, now: int) returns (post: Option<GroupPost>)
    modifies db
    ensures FindById(old(db.posts), id).None? ==> post.None? && db.State() == old(db.State())
    ensures FindById(old(db.posts), id).Some? ==>
      db.State() == old(db.State()).(posts := Updated(old(db.posts), id, title, content, now))
      && post == FindById(db.posts, id) && post.Some?
  {
    if FindById(db.posts, id).None? {
      post := None;
    } else {
      db.posts := Updated(db.posts, id, title, content, now);
      post := FindById(db.posts, id);
      UpdateKeepsId(old(db.posts), id, SetContent(title, content, now));
    }
  }

  /** `togglePin`: sets the flag, or throws "Post not found" (`None`) and changes nothing. */
  method TogglePin(db: Store, id: Id, isPinned: bool, now: int) returns (post: Option<GroupPost>)
    modifies db
    ensures FindById(old(db.posts), id).None? ==> post.None? && db.State() == old(db.State())
    ensures FindById(old(db.posts), id).Some? ==>
      db.State() == old(db.State()).(posts := PinToggled(old(db.posts), id, isPinned, now))
      && post == FindById(db.posts, id) && post.Some?
  {
    if FindById(db.posts, id).None? {
      post := None;
    } else {
      db.posts := PinToggled(db.posts, id, isPinned, now);
      post := FindById(db.posts, id);
      UpdateKeepsId(old(db.posts), id, SetPinned(isPinned, now));
    }
  }

  /** `delete`: removes the post and returns it, or throws "Post not found" (`None`). */
  method Delete(db: Store, id: Id) returns (post: Option<GroupPost>)
    modifies db
    ensures post == FindById(old(db.posts), id)
    ensures post.None? ==> db.State() == old(db.State())
    ensures post.Some? ==> db.State() == old(db.State()).(posts := Deleted(old(db.posts), id))
  {
    post := FindById(db.posts, id);
    if post.Some? {
      db.posts := Deleted(db.posts, id);
    }
  }

  /** An update by id whose rewrite keeps the id leaves a row with that id behind. */
  lemma {:induction false} UpdateKeepsId(rows: seq<GroupPost>, id: Id, f: GroupPost -> GroupPost)
    requires forall p :: f(p).id == p.id
    requires exists i :: 0 <= i < |rows| && rows[i].id == id
    ensures exists i :: 0 <= i < |UpdateKey(rows, PostId, id, f)| && UpdateKey(rows, PostId, id, f)[i].id == id
  {
    var i :| 0 <= i < |rows| && rows[i].id == id;
    assert UpdateKey(rows, PostId, id, f)[i] == f(rows[i]);
  }

  // ---------------------------------------------------------------------------
  // Properties of the statements

  /** `togglePin` sets `isPinned` (and `updatedAt`) on the row with that id only. */
  lemma {:induction false} TogglePinOnlyThatRow(rows: seq<GroupPost>, id: Id, isPinned: bool, now: int)
    ensures |PinToggled(rows, id, isPinned, now)| == |rows|
    ensures forall i :: 0 <= i < |rows| ==>
      var n := PinToggled(rows, id, isPinned, now)[i];
      if rows[i].id == id then n == rows[i].(isPinned := isPinned, updatedAt := now) else n == rows[i]
  {
  }

  /** `update` rewrites the supplied fields of the row with that id only. */
  lemma {:induction false} UpdateOnlyThatRow(rows: seq<GroupPost>, id: Id, title: Option<string>, content: Option<string>, now: int)
    ensures |Updated(rows, id, title, content, now)| == |rows|
    ensures forall i :: 0 <= i < |rows| ==>
      var n := Updated(rows, id, title, content, now)[i];
      if rows[i].id == id then
        n.title == (if title.Some? then title.value else rows[i].title)
        && n.content == (if content.Some? then content.value else rows[i].content)
        && n == rows[i].(title := n.title, content := n.content, updatedAt := now)
      else n == rows[i]
  {
  }

  /** `delete` removes exactly the row with that id. */
  lemma {:induction false} DeleteOnlyThatRow(rows: seq<GroupPost>, i: nat)
    requires i < |rows| && UniqueKeys(rows, PostId)
    ensures Deleted(rows, rows[i].id) == rows[..i] + rows[i + 1..]
  {
    DeleteKeyUnique(rows, PostId, i);
  }
}
