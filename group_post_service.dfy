/** The post service: creating posts (announcements only by group admins),
    reading and listing them, updating and deleting them (author or group
    admin), and pinning them (group admin, at most `MaxPinnedPosts` pinned
    posts per group). As in the group service, each state-changing operation
    is a specification function over the store and a method proved to agree
    with it; `caller` is what `getCurrentUser` returned and `now` the clock. */
module GroupPostService {
  import opened Common
  import opened Tables
  import opened Model
  import opened Database
  import GQ = GroupQueries
  import MQ = GroupMemberQueries
  import PQ = GroupPostQueries

  type PostResponse<T> = Response<T, PostState>

  /** `MAX_PINNED_POSTS`. */
  const MaxPinnedPosts: nat := 3

  /** The number of pinned posts of a group, as `togglePin` counts them. */
  function PinnedCount(posts: seq<GroupPost>, groupId: Id): nat
  {
    PQ.CountByGroup(posts, groupId, None, None, Some(true))
  }

  /** The post `create` inserts. */
  function NewPost(id: Id, groupId: Id, authorId: Id, title: string, content: string, postType: PostType, now: int): GroupPost
  {
    GroupPost(id, groupId, Some(authorId), title, content, postType, false, now, now)
  }

  // ---------------------------------------------------------------------------
  // create

  function CreateSpec(s: Db, caller: Option<SessionUser>, groupId: Id, title: string, content: string,
                      postType: PostType, now: int): (Db, PostResponse<GroupPost>)
  {
    if caller.None? then (s, Fail(PostState.Unauthorized))
    else if GQ.FindById(s.groups, groupId).None? then (s, Fail(PostState.GroupNotFound))
    else
      var membership := MQ.FindByGroupAndUser(s.members, groupId, caller.value.id);
      if membership.None? || membership.value.status != MemberStatus.Approved then (s, Fail(PostState.Forbidden))
      else if postType == PostType.Announcement && membership.value.role != MemberRole.Admin then (s, Fail(PostState.Forbidden))
      else
        var post := NewPost(s.nextId, groupId, caller.value.id, title, content, postType, now);
        (s.(posts := s.posts + [post], nextId := s.nextId + 1), Response(true, Some(post), PostState.CreateSuccess))
  }

  /** `create`: an approved member of an existing group posts; an announcement
      needs the member to be an admin. New posts are never pinned. */
  method Create(db: Store, caller: Option<SessionUser>, groupId: Id, title: string, content: string,
                postType: PostType, now: int) returns (r: PostResponse<GroupPost>)
    modifies db
    ensures (db.State(), r) == CreateSpec(old(db.State()), caller, groupId, title, content, postType, now)
  {
    if caller.None? {
      return Fail(PostState.Unauthorized);
    }
    var user := caller.value;
    var group := GQ.FindById(db.groups, groupId);
    if group.None? {
      return Fail(PostState.GroupNotFound);
    }
    var membership := MQ.FindByGroupAndUser(db.members, groupId, user.id);
    if membership.None? || membership.value.status != MemberStatus.Approved {
      return Fail(PostState.Forbidden);
    }
    if postType == PostType.Announcement {
      var isAdmin := membership.value.role == MemberRole.Admin;
      if !isAdmin {
        return Fail(PostState.Forbidden);
      }
    }
    var post := PQ.Create(db, groupId, Some(user.id), title, content, postType, false, now, now);
    r := Response(true, Some(post), PostState.CreateSuccess);
  }

  // ---------------------------------------------------------------------------
  // Reads

  /** `getById`: the post, or `NOT_FOUND`; no caller is needed. */
  function GetById(s: Db, id: Id): (r: PostResponse<GroupPost>)
    ensures r.success <==> exists i :: 0 <= i < |s.posts| && s.posts[i].id == id
    ensures r.success ==> r.state == PostState.GetSuccess && r.data.Some? && r.data.value in s.posts && r.data.value.id == id
    ensures !r.success ==> r == Fail(PostState.NotFound)
  {
    match PQ.FindById(s.posts, id)
    case None => Fail(PostState.NotFound)
    case Some(p) => Response(true, Some(p), PostState.GetSuccess)
  }

  /** `listByGroup`: page 1 and 20 per page by default, pinned posts first;
      the total counts the group's posts of that type. A group of any status
      is listed; no caller is needed. */
  function ListByGroup(s: Db, groupId: Id, postType: Option<PostType>, page: Option<int>, pageSize: Option<int>)
    : (r: PostResponse<PageData<GroupPost>>)
    ensures (forall i :: 0 <= i < |s.groups| ==> s.groups[i].id != groupId) ==> r == Fail(PostState.GroupNotFound)
    ensures r.success <==> ((exists i :: 0 <= i < |s.groups| && s.groups[i].id == groupId)
                          && Default(pageSize, 20) >= 0 && PageOffset(Default(page, 1), Default(pageSize, 20)) >= 0)
    ensures r.success ==> (r.state == PostState.GetSuccess && r.data.Some?
      && r.data.value.total == |PQ.PostsOf(s.posts, groupId, postType, None)|
      && r.data.value.page == Default(page, 1) && r.data.value.pageSize == Default(pageSize, 20)
      && |r.data.value.items| <= r.data.value.pageSize
      && (forall k :: 0 <= k < |r.data.value.items| ==>
            r.data.value.items[k] in s.posts && r.data.value.items[k].groupId == groupId
            && (postType.Some? ==> r.data.value.items[k].postType == postType.value))
      && (forall i, j :: 0 <= i < j < |r.data.value.items| ==>
            (r.data.value.items[j].isPinned ==> r.data.value.items[i].isPinned)
            && (r.data.value.items[i].isPinned == r.data.value.items[j].isPinned ==>
                  r.data.value.items[i].createdAt >= r.data.value.items[j].createdAt))
      && IsWindow(r.data.value.items, PQ.PostsOf(s.posts, groupId, postType, None),
                  r.data.value.pageSize, PageOffset(r.data.value.page, r.data.value.pageSize)))
  {
    var p := Default(page, 1);
    var size := Default(pageSize, 20);
    if GQ.FindById(s.groups, groupId).None? then Fail(PostState.GroupNotFound)
    else match PQ.FindByGroup(s.posts, groupId, postType, None, Some(size), Some(PageOffset(p, size)))
      case None => Fail(PostState.ServerError)
      case Some(items) =>
        Response(true, Some(PageData(items, PQ.CountByGroup(s.posts, groupId, postType, None, None), p, size)), PostState.GetSuccess)
  }

  /** `listByAuthor`: one page of the author's posts across all groups, newest
      first; the total counts all of them. */
  function ListByAuthor(s: Db, authorId: Id, page: Option<int>, pageSize: Option<int>)
    : (r: PostResponse<PageData<GroupPost>>)
    ensures r.success <==> Default(pageSize, 20) >= 0 && PageOffset(Default(page, 1), Default(pageSize, 20)) >= 0
    ensures !r.success ==> r == Fail(PostState.ServerError)
    ensures r.success ==> (r.state == PostState.GetSuccess && r.data.Some?
      && r.data.value.total == |PQ.PostsBy(s.posts, authorId)|
      && r.data.value.page == Default(page, 1) && r.data.value.pageSize == Default(pageSize, 20)
      && |r.data.value.items| <= r.data.value.pageSize
      && (forall k :: 0 <= k < |r.data.value.items| ==>
            r.data.value.items[k] in s.posts && r.data.value.items[k].authorId == Some(authorId))
      && (forall i, j :: 0 <= i < j < |r.data.value.items| ==>
            r.data.value.items[i].createdAt >= r.data.value.items[j].createdAt)
      && IsWindow(r.data.value.items, PQ.PostsBy(s.posts, authorId),
                  r.data.value.pageSize, PageOffset(r.data.value.page, r.data.value.pageSize)))
  {
    var p := Default(page, 1);
    var size := Default(pageSize, 20);
    match PQ.FindByAuthor(s.posts, authorId, Some(size), Some(PageOffset(p, size)))
    case None => Fail(PostState.ServerError)
    case Some(items) =>
      Response(true, Some(PageData(items, PQ.CountByAuthor(s.posts, authorId, None, None), p, size)), PostState.GetSuccess)
  }

  /** `getAnnouncements`: the first page (10 by default) of the group's
      announcements, pinned ones first; the total counts all of them. */
  function GetAnnouncements(s: Db, groupId: Id, pageSize: Option<int>): (r: PostResponse<PageData<GroupPost>>)
    ensures (forall i :: 0 <= i < |s.groups| ==> s.groups[i].id != groupId) ==> r == Fail(PostState.GroupNotFound)
    ensures r.success <==> (exists i :: 0 <= i < |s.groups| && s.groups[i].id == groupId) && Default(pageSize, 10) >= 0
    ensures r.success ==> (r.state == PostState.GetSuccess && r.data.Some?
      && r.data.value.total == |PQ.PostsOf(s.posts, groupId, Some(PostType.Announcement), None)|
      && r.data.value.page == 1 && r.data.value.pageSize == Default(pageSize, 10)
      && |r.data.value.items| == Min(r.data.value.pageSize, r.data.value.total)
      && (forall k :: 0 <= k < |r.data.value.items| ==>
            r.data.value.items[k] in s.posts && r.data.value.items[k].groupId == groupId
            && r.data.value.items[k].postType == PostType.Announcement)
      && (forall i, j :: 0 <= i < j < |r.data.value.items| ==>
            (r.data.value.items[j].isPinned ==> r.data.value.items[i].isPinned)
            && (r.data.value.items[i].isPinned == r.data.value.items[j].isPinned ==>
                  r.data.value.items[i].createdAt >= r.data.value.items[j].createdAt))
      && IsWindow(r.data.value.items, PQ.PostsOf(s.posts, groupId, Some(PostType.Announcement), None),
                  r.data.value.pageSize, 0))
  {
    var size := Default(pageSize, 10);
    if GQ.FindById(s.groups, groupId).None? then Fail(PostState.GroupNotFound)
    else match PQ.FindByGroup(s.posts, groupId, Some(PostType.Announcement), None, Some(size), Some(0))
      case None => Fail(PostState.ServerError)
      case Some(items) =>
        Response(true, Some(PageData(items, PQ.CountByGroup(s.posts, groupId, Some(PostType.Announcement), None, None), 1, size)),
                 PostState.GetSuccess)
  }

  // ---------------------------------------------------------------------------
  // Author-or-admin operations

  /** `canModify`: the post exists and the user wrote it or is an approved
      admin of its group. A post whose author was deleted has no author. */
  function CanModify(s: Db, postId: Id, userId: Id): (b: bool)
    ensures b ==> exists i :: 0 <= i < |s.posts| && s.posts[i].id == postId
                    && (s.posts[i].authorId == Some(userId) || MQ.IsRole(s.members, s.posts[i].groupId, userId, MemberRole.Admin))
    ensures (forall i :: 0 <= i < |s.posts| ==> s.posts[i].id != postId) ==> !b
  {
    match PQ.FindById(s.posts, postId)
    case None => false
    case Some(post) =>
      if post.authorId == Some(userId) then true
      else MQ.IsRole(s.members, post.groupId, userId, MemberRole.Admin)
  }

  function UpdateSpec(s: Db, caller: Option<SessionUser>, id: Id, title: Option<string>, content: Option<string>, now: int)
    : (Db, PostResponse<()>)
  {
    if caller.None? then (s, Fail(PostState.Unauthorized))
    else match PQ.FindById(s.posts, id)
      case None => (s, Fail(PostState.NotFound))
      case Some(post) =>
        var isAuthor := post.authorId == Some(caller.value.id);
        var isAdmin := !isAuthor && MQ.IsRole(s.members, post.groupId, caller.value.id, MemberRole.Admin);
        if !isAuthor && !isAdmin then (s, Fail(PostState.Forbidden))
        else (s.(posts := PQ.Updated(s.posts, id, title, content, now)), Response(true, None, PostState.UpdateSuccess))
  }

  /** `update`: the author or an approved admin of the post's group rewrites
      the supplied fields. The group admin check runs only for a non-author. */
  method Update(db: Store, caller: Option<SessionUser>, id: Id, title: Option<string>, content: Option<string>, now: int)
    returns (r: PostResponse<()>)
    modifies db
    ensures (db.State(), r) == UpdateSpec(old(db.State()), caller, id, title, content, now)
  {
    if caller.None? {
      return Fail(PostState.Unauthorized);
    }
    var post := PQ.FindById(db.posts, id);
    if post.None? {
      return Fail(PostState.NotFound);
    }
    var isAuthor := post.value.authorId == Some(caller.value.id);
    var isAdmin := false;
    if !isAuthor {
      isAdmin := MQ.IsRole(db.members, post.value.groupId, caller.value.id, MemberRole.Admin);
    }
    if !isAuthor && !isAdmin {
      return Fail(PostState.Forbidden);
    }
    var updated := PQ.Update(db, id, title, content, now);
    r := Response(true, None, PostState.UpdateSuccess);
  }

  /** `delete`, with a successful deletion reported as a success. */
  function DeleteSpec(s: Db, caller: Option<SessionUser>, id: Id): (Db, PostResponse<()>)
  {
    if caller.None? then (s, Fail(PostState.Unauthorized))
    else match PQ.FindById(s.posts, id)
      case None => (s, Fail(PostState.NotFound))
      case Some(post) =>
        var isAuthor := post.authorId == Some(caller.value.id);
        var isAdmin := !isAuthor && MQ.IsRole(s.members, post.groupId, caller.value.id, MemberRole.Admin);
        if !isAuthor && !isAdmin then (s, Fail(PostState.Forbidden))
        else (s.(posts := PQ.Deleted(s.posts, id)), Response(true, None, PostState.DeleteSuccess))
  }

  /** `delete` as the service writes it: the same decisions, but the deletion
      is answered with `DELETE_SUCCESS` under `success: false`. */
  function DeleteSpecAsWritten(s: Db, caller: Option<SessionUser>, id: Id): (Db, PostResponse<()>)
  {
    var (t, r) := DeleteSpec(s, caller, id);
    (t, if r.state == PostState.DeleteSuccess then r.(success := false) else r)
  }

  /** `delete`: the author or an approved admin of the post's group removes
      it, and the answer is the one the service writes. */
  method Delete(db: Store, caller: Option<SessionUser>, id: Id) returns (r: PostResponse<()>)
    modifies db
    ensures (db.State(), r) == DeleteSpecAsWritten(old(db.State()), caller, id)
  {
    if caller.None? {
      return Fail(PostState.Unauthorized);
    }
    var post := PQ.FindById(db.posts, id);
    if post.None? {
      return Fail(PostState.NotFound);
    }
    var isAuthor := post.value.authorId == Some(caller.value.id);
    var isAdmin := false;
    if !isAuthor {
      isAdmin := MQ.IsRole(db.members, post.value.groupId, caller.value.id, MemberRole.Admin);
    }
    if !isAuthor && !isAdmin {
      return Fail(PostState.Forbidden);
    }
    var deleted := PQ.Delete(db, id);
    r := Response(false, None, PostState.DeleteSuccess);
  }

  // ---------------------------------------------------------------------------
  // togglePin

  function TogglePinSpec(s: Db, caller: Option<SessionUser>, id: Id, isPinned: bool, now: int): (Db, PostResponse<()>)
  {
    if caller.None? then (s, Fail(PostState.Unauthorized))
    else match PQ.FindById(s.posts, id)
      case None => (s, Fail(PostState.NotFound))
      case Some(post) =>
        if !MQ.IsRole(s.members, post.groupId, caller.value.id, MemberRole.Admin) then (s, Fail(PostState.Forbidden))
        else if isPinned && !post.isPinned && PinnedCount(s.posts, post.groupId) >= MaxPinnedPosts then
          (s, Fail(PostState.PinLimitReached))
        else
          (s.(posts := PQ.PinToggled(s.posts, id, isPinned, now)),
           Response(true, None, if isPinned then PostState.PinSuccess else PostState.UnpinSuccess))
  }

  /** `togglePin`: an approved admin of the post's group sets its pinned flag;
      pinning a post that is not yet pinned is refused once the group already
      has `MaxPinnedPosts` pinned posts. */
  method TogglePin(db: Store, caller: Option<SessionUser>, id: Id, isPinned: bool, now: int) returns (r: PostResponse<()>)
    modifies db
    ensures (db.State(), r) == TogglePinSpec(old(db.State()), caller, id, isPinned, now)
  {
    if caller.None? {
      return Fail(PostState.Unauthorized);
    }
    var post := PQ.FindById(db.posts, id);
    if post.None? {
      return Fail(PostState.NotFound);
    }
    var isAdmin := MQ.IsRole(db.members, post.value.groupId, caller.value.id, MemberRole.Admin);
    if !isAdmin {
      return Fail(PostState.Forbidden);
    }
    if isPinned && !post.value.isPinned {
      var pinnedCount := PQ.CountByGroup(db.posts, post.value.groupId, None, None, Some(true));
      if pinnedCount >= MaxPinnedPosts {
        return Fail(PostState.PinLimitReached);
      }
    }
    var toggled := PQ.TogglePin(db, id, isPinned, now);
    r := Response(true, None, if isPinned then PostState.PinSuccess else PostState.UnpinSuccess);
  }
}
