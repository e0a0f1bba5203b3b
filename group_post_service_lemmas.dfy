/** What the post service promises, stated over the rows of the store. */
module GroupPostServiceLemmas {
  import opened Common
  import opened Tables
  import opened Model
  import opened Database
  import MQ = GroupMemberQueries
  import PQ = GroupPostQueries
  import opened GroupPostService

  /** `listByGroup` skips no post: with a positive page size, every post of an
      existing group, of the requested type, is on some page. */
  lemma {:induction false} ListByGroupShowsEvery(s: Db, groupId: Id, postType: Option<PostType>, size: int, i: nat)
    requires size > 0 && i < |s.posts| && s.posts[i].groupId == groupId
    requires postType.Some? ==> s.posts[i].postType == postType.value
    requires exists j :: 0 <= j < |s.groups| && s.groups[j].id == groupId
    ensures exists page :: page >= 1 && ListByGroup(s, groupId, postType, Some(page), Some(size)).success
                           && s.posts[i] in ListByGroup(s, groupId, postType, Some(page), Some(size)).data.value.items
  {
    var listing := PQ.PostsOf(s.posts, groupId, postType, None);
    ListingPagesCover(s.posts, PQ.Where(PQ.GroupFilter(groupId, postType, None, None)), PQ.PinnedThenNewest, i, size);
    var page :| page >= 1 && Page(listing, size, PageOffset(page, size)).Some?
                && s.posts[i] in Page(listing, size, PageOffset(page, size)).value;
    var r := ListByGroup(s, groupId, postType, Some(page), Some(size));
    WindowUnique(r.data.value.items, Page(listing, size, PageOffset(page, size)).value, listing, size, PageOffset(page, size));
  }

  /** The caller's approved membership of the group that allows this kind of
      post: any approved membership for a discussion, an approved admin one
      for an announcement. */
  predicate MayPost(s: Db, groupId: Id, userId: Id, postType: PostType)
  {
    exists i :: 0 <= i < |s.members| && s.members[i].groupId == groupId && s.members[i].userId == userId
      && s.members[i].status == MemberStatus.Approved
      && (postType == PostType.Announcement ==> s.members[i].role == MemberRole.Admin)
  }

  /** `create` succeeds exactly for an approved member of an existing group
      (an admin, for an announcement), and then adds one unpinned post by the
      caller under a fresh id; otherwise nothing changes. */
  lemma {:induction false} CreateOutcomes(s: Db, caller: Option<SessionUser>, groupId: Id, title: string, content: string,
                       postType: PostType, now: int)
    requires UniqueKeys(s.members, MemberPair)
    ensures var (t, r) := CreateSpec(s, caller, groupId, title, content, postType, now);
      && (!r.success ==> t == s && r.data.None?)
      && (caller.None? ==> r == Fail(PostState.Unauthorized))
      && (caller.Some? && !HasGroup(s.groups, groupId) ==> r == Fail(PostState.GroupNotFound))
      && (r.success <==> caller.Some? && HasGroup(s.groups, groupId) && MayPost(s, groupId, caller.value.id, postType))
      && (r.success ==> (
            && r.state == PostState.CreateSuccess
            && r.data == Some(GroupPost(s.nextId, groupId, Some(caller.value.id), title, content, postType, false, now, now))
            && t == s.(posts := s.posts + [r.data.value], nextId := s.nextId + 1)))
  {
    if caller.Some? {
      var m := MQ.FindByGroupAndUser(s.members, groupId, caller.value.id);
      if m.Some? {
        var k :| 0 <= k < |s.members| && s.members[k] == m.value;
        forall i | 0 <= i < |s.members| && s.members[i].groupId == groupId && s.members[i].userId == caller.value.id
          ensures i == k
        {
          assert MemberPair(s.members[i]) == MemberPair(s.members[k]);
        }
      }
    }
  }

  /** The author-or-admin test, row by row: with unique post ids,
      `canModify` holds exactly when the post exists and the user wrote it or
      is an approved admin of its group. */
  lemma {:induction false} CanModifyRows(s: Db, postId: Id, userId: Id)
    requires UniqueKeys(s.posts, PostId)
    ensures CanModify(s, postId, userId) <==> exists i :: (0 <= i < |s.posts| && s.posts[i].id == postId
              && (s.posts[i].authorId == Some(userId) || MQ.IsRole(s.members, s.posts[i].groupId, userId, MemberRole.Admin)))
  {
    var p := PQ.FindById(s.posts, postId);
    if p.Some? {
      var k :| 0 <= k < |s.posts| && s.posts[k] == p.value;
      forall i | 0 <= i < |s.posts| && s.posts[i].id == postId
        ensures i == k
      {
        assert PostId(s.posts[i]) == PostId(s.posts[k]);
      }
    }
  }

  /** `update` and `delete` are allowed exactly when `canModify` says so for
      the caller; a refused call changes nothing. */
  lemma {:induction false} ModifyNeedsCanModify(s: Db, caller: Option<SessionUser>, id: Id, title: Option<string>,
                             content: Option<string>, now: int)
    ensures var (t, r) := UpdateSpec(s, caller, id, title, content, now);
      && (r.success <==> caller.Some? && CanModify(s, id, caller.value.id))
      && (!r.success ==> t == s)
      && (r.success ==> r.state == PostState.UpdateSuccess && t == s.(posts := PQ.Updated(s.posts, id, title, content, now)))
    ensures var (t, r) := DeleteSpec(s, caller, id);
      && (r.success <==> caller.Some? && CanModify(s, id, caller.value.id))
      && (!r.success ==> t == s)
      && (r.success ==> r.state == PostState.DeleteSuccess && t == s.(posts := PQ.Deleted(s.posts, id)))
    ensures caller.Some? && (forall i :: 0 <= i < |s.posts| ==> s.posts[i].id != id) ==>
      UpdateSpec(s, caller, id, title, content, now).1 == Fail(PostState.NotFound)
      && DeleteSpec(s, caller, id).1 == Fail(PostState.NotFound)
  {
  }

  /** As written, `delete` never reports success, not even when it deleted
      the post: it deletes in the same cases as the corrected `DeleteSpec`. */
  lemma {:induction false} DeleteAsWrittenReportsFailure(s: Db, caller: Option<SessionUser>, id: Id)
    ensures !DeleteSpecAsWritten(s, caller, id).1.success
    ensures DeleteSpecAsWritten(s, caller, id).0 == DeleteSpec(s, caller, id).0
    ensures DeleteSpecAsWritten(s, caller, id).1.state == DeleteSpec(s, caller, id).1.state
    ensures DeleteSpecAsWritten(s, caller, id).1.state == PostState.DeleteSuccess <==> DeleteSpec(s, caller, id).1.success
  {
  }

  /** A concrete case: the author deleting their own post is told both
      `DELETE_SUCCESS` and `success: false`. */
  lemma {:induction false} DeleteOwnPostAsWritten()
    ensures var post := GroupPost(1, 0, Some(7), "t", "c", PostType.Discussion, false, 0, 0);
      var s := EmptyDb.(groups := [Group(0, "g", "g", None, GroupCategory.Club, None, GroupStatus.Approved, true, None, 0, 0)],
                        posts := [post], nextId := 2);
      var caller := Some(SessionUser(7, "a@b", None, UserRole.Student, 1));
      && DeleteSpecAsWritten(s, caller, 1).1 == Response(false, None, PostState.DeleteSuccess)
      && DeleteSpecAsWritten(s, caller, 1).0.posts == []
  {
  }

  /** `togglePin`, row by row: an approved admin of the post's group sets the
      flag on that post alone, unless it pins a post that is not yet pinned
      in a group that already has `MaxPinnedPosts` pinned posts. */
  lemma {:induction false} TogglePinOutcomes(s: Db, caller: Option<SessionUser>, id: Id, isPinned: bool, now: int)
    requires UniqueKeys(s.posts, PostId)
    ensures var (t, r) := TogglePinSpec(s, caller, id, isPinned, now);
      && (!r.success ==> t == s)
      && (r.success ==> r.state == (if isPinned then PostState.PinSuccess else PostState.UnpinSuccess))
      && (r.success <==> caller.Some? && exists i :: (0 <= i < |s.posts| && s.posts[i].id == id
            && MQ.IsRole(s.members, s.posts[i].groupId, caller.value.id, MemberRole.Admin)
            && !(isPinned && !s.posts[i].isPinned && PinnedCount(s.posts, s.posts[i].groupId) >= MaxPinnedPosts)))
      && (r.success ==> exists i :: (0 <= i < |s.posts| && s.posts[i].id == id
            && t == s.(posts := s.posts[i := s.posts[i].(isPinned := isPinned, updatedAt := now)])))
  {
    var p := PQ.FindById(s.posts, id);
    if p.Some? {
      var k :| 0 <= k < |s.posts| && s.posts[k] == p.value;
      forall i | 0 <= i < |s.posts| && s.posts[i].id == id
        ensures i == k
      {
        assert PostId(s.posts[i]) == PostId(s.posts[k]);
      }
      UpdateKeyUnique(s.posts, PostId, k, PQ.SetPinned(isPinned, now));
    }
  }

  /** Unpinning, and re-pinning a post that is already pinned, never reach
      the pin limit. */
  lemma {:induction false} PinLimitOnlyForNewPins(s: Db, caller: Option<SessionUser>, id: Id, isPinned: bool, now: int)
    ensures TogglePinSpec(s, caller, id, isPinned, now).1.state == PostState.PinLimitReached ==>
      isPinned && exists i :: 0 <= i < |s.posts| && s.posts[i].id == id && !s.posts[i].isPinned
  {
  }

  /** No group of these posts has more than `MaxPinnedPosts` pinned posts. */
  ghost predicate PinLimitOf(posts: seq<GroupPost>)
  {
    forall g :: PinnedCount(posts, g) <= MaxPinnedPosts
  }

  ghost predicate PinLimit(s: Db)
  {
    PinLimitOf(s.posts)
  }

  /** Rewriting one post keeps the pin limit if it changes neither its group
      nor its flag, or unpins it, or pins it in a group below the limit. */
  lemma {:induction false} RewriteKeepsPinLimit(posts: seq<GroupPost>, k: nat, y: GroupPost)
    requires k < |posts| && PinLimitOf(posts)
    requires y.groupId == posts[k].groupId
    requires y.isPinned && !posts[k].isPinned ==> PinnedCount(posts, y.groupId) < MaxPinnedPosts
    ensures PinLimitOf(posts[k := y])
  {
    var t := posts[k := y];
    forall g
      ensures PinnedCount(t, g) <= MaxPinnedPosts
    {
      CountUpdate(posts, k, y, PQ.Where(PQ.GroupFilter(g, None, None, Some(true))));
      assert PinnedCount(posts, g) <= MaxPinnedPosts;
    }
  }

  /** Setting the flag of one post by its unique id keeps the pin limit,
      unless it pins a new post in a group at the limit. */
  lemma {:induction false} PinToggledKeeps(posts: seq<GroupPost>, k: nat, isPinned: bool, now: int)
    requires k < |posts| && UniqueKeys(posts, PostId) && PinLimitOf(posts)
    requires isPinned && !posts[k].isPinned ==> PinnedCount(posts, posts[k].groupId) < MaxPinnedPosts
    ensures PinLimitOf(PQ.PinToggled(posts, posts[k].id, isPinned, now))
  {
    UpdateKeyUnique(posts, PostId, k, PQ.SetPinned(isPinned, now));
    RewriteKeepsPinLimit(posts, k, PQ.SetPinned(isPinned, now)(posts[k]));
  }

  /** `togglePin` keeps the pin limit. */
  lemma {:induction false} TogglePinKeepsPinLimit(s: Db, caller: Option<SessionUser>, id: Id, isPinned: bool, now: int)
    requires UniqueKeys(s.posts, PostId)
    requires PinLimit(s)
    ensures PinLimit(TogglePinSpec(s, caller, id, isPinned, now).0)
  {
    if caller.Some? {
      var p := PQ.FindById(s.posts, id);
      if p.Some? && MQ.IsRole(s.members, p.value.groupId, caller.value.id, MemberRole.Admin)
         && !(isPinned && !p.value.isPinned && PinnedCount(s.posts, p.value.groupId) >= MaxPinnedPosts) {
        var k :| 0 <= k < |s.posts| && s.posts[k] == p.value;
        PinToggledKeeps(s.posts, k, isPinned, now);
      }
    }
  }
}
