/** What the group service promises, stated over the rows of the store
    rather than through the queries the service calls. */
module GroupServiceLemmas {
  import opened Common
  import opened Tables
  import opened Model
  import opened Database
  import GQ = GroupQueries
  import MQ = GroupMemberQueries
  import opened GroupService

  /** `t` is `s` with exactly the new group `g`, created by `user`, and the
      user's approved admin membership of it added. */
  ghost predicate CreatedWithAdmin(s: Db, t: Db, g: Group, user: SessionUser, now: int)
  {
    && g.id == s.nextId && g.status == GroupStatus.Pending && g.creatorId == Some(user.id)
    && g.rejectedReason.None? && g.createdAt == now && g.updatedAt == now
    && t == s.(groups := s.groups + [g],
               members := s.members + [GroupMember(s.nextId + 1, g.id, user.id, MemberRole.Admin, MemberStatus.Approved, now, now)],
               nextId := s.nextId + 2)
  }

  /** An approved group holds the slug. */
  predicate SlugApproved(s: Db, slug: string)
  {
    exists i :: 0 <= i < |s.groups| && s.groups[i].slug == slug && s.groups[i].status == GroupStatus.Approved
  }

  /** Under the foreign keys no membership can point at the id the next
      group will get. */
  lemma {:induction false} FreshGroupHasNoMembers(s: Db)
    requires GroupRefs(s) && KeysBelow(s.groups, GroupId, s.nextId)
    ensures forall i :: 0 <= i < |s.members| ==> s.members[i].groupId != s.nextId
  {
    forall i | 0 <= i < |s.members|
      ensures s.members[i].groupId != s.nextId
    {
      var j :| 0 <= j < |s.groups| && s.groups[j].id == s.members[i].groupId;
      assert GroupId(s.groups[j]) < s.nextId;
    }
  }

  /** A slug `findBySlug` finds is reported as taken and changes nothing. */
  lemma {:induction false} CreateSlugFound(s: Db, caller: Option<SessionUser>, name: string, slug: string, description: Option<string>,
                       category: GroupCategory, isPublic: bool, now: int)
    requires caller.Some? && GQ.FindBySlug(s.groups, s.members, slug).Some?
    ensures CreateSpec(s, caller, name, slug, description, category, isPublic, now) == (s, Fail(GroupState.AlreadyExists))
  {
  }

  /** `findBySlug` finds a slug some approved group holds. */
  lemma {:induction false} SlugApprovedFound(s: Db, slug: string)
    requires SlugApproved(s, slug)
    ensures GQ.FindBySlug(s.groups, s.members, slug).Some?
  {
    var i :| 0 <= i < |s.groups| && s.groups[i].slug == slug && s.groups[i].status == GroupStatus.Approved;
  }

  /** Under the foreign keys the membership insert cannot fail, so every
      refusal of `create` leaves the store as it was and returns no group. */
  lemma {:induction false} CreateFailureUnchanged(s: Db, caller: Option<SessionUser>, name: string, slug: string, description: Option<string>,
                       category: GroupCategory, isPublic: bool, now: int)
    requires GroupRefs(s) && KeysBelow(s.groups, GroupId, s.nextId)
    ensures var (t, r) := CreateSpec(s, caller, name, slug, description, category, isPublic, now);
      !r.success ==> t == s && r.data.None?
  {
    FreshGroupHasNoMembers(s);
  }

  /** The two inserts of `create` are not atomic: when the membership insert
      is rejected, the group row stays, without an admin, and the caller is
      told the creation failed. */
  lemma {:induction false} CreateLeavesGroupWithoutAdmin(s: Db, user: SessionUser, name: string, slug: string,
                       description: Option<string>, category: GroupCategory, isPublic: bool, now: int, i: nat)
    requires forall k :: 0 <= k < |s.groups| ==> s.groups[k].slug != slug
    requires i < |s.members| && s.members[i].groupId == s.nextId && s.members[i].userId == user.id
    ensures var (t, r) := CreateSpec(s, Some(user), name, slug, description, category, isPublic, now);
      && r == Fail(GroupState.ServerError)
      && t.members == s.members && |t.groups| == |s.groups| + 1
      && t.groups[|s.groups|].id == s.nextId && t.groups[|s.groups|].slug == slug
  {
    assert MemberPair(s.members[i]) == (s.nextId, user.id);
  }

  /** `create` refuses: no caller is unauthorised, a slug held by an approved
      group is reported as taken, every refusal returns no group, and under
      the foreign keys every refusal leaves the store as it was. */
  lemma {:induction false} CreateRefusals(s: Db, caller: Option<SessionUser>, name: string, slug: string, description: Option<string>,
                       category: GroupCategory, isPublic: bool, now: int)
    ensures var (t, r) := CreateSpec(s, caller, name, slug, description, category, isPublic, now);
      && (caller.None? ==> t == s && r == Fail(GroupState.Unauthorized))
      && (caller.Some? && SlugApproved(s, slug) ==>
            t == s && r == Fail(GroupState.AlreadyExists))
      && (!r.success ==> r.data.None? && t.members == s.members)
      && (!r.success && GroupRefs(s) && KeysBelow(s.groups, GroupId, s.nextId) ==> t == s)
  {
    if caller.Some? && SlugApproved(s, slug) {
      SlugApprovedFound(s, slug);
      CreateSlugFound(s, caller, name, slug, description, category, isPublic, now);
    }
    if GroupRefs(s) && KeysBelow(s.groups, GroupId, s.nextId) {
      CreateFailureUnchanged(s, caller, name, slug, description, category, isPublic, now);
    }
  }

  /** `create` succeeds exactly when there is a caller and no group of any
      status holds the slug; then the group and its creator's approved admin
      membership are both added. */
  lemma {:induction false} CreateSucceeds(s: Db, caller: Option<SessionUser>, name: string, slug: string, description: Option<string>,
                       category: GroupCategory, isPublic: bool, now: int)
    requires GroupRefs(s) && KeysBelow(s.groups, GroupId, s.nextId)
    ensures var (t, r) := CreateSpec(s, caller, name, slug, description, category, isPublic, now);
      && (r.success <==> caller.Some? && forall i :: 0 <= i < |s.groups| ==> s.groups[i].slug != slug)
      && (r.success ==> (
            && r.state == GroupState.CreateSuccess && r.data.Some?
            && r.data.value.name == name && r.data.value.slug == slug && r.data.value.description == description
            && r.data.value.category == category && r.data.value.isPublic == isPublic
            && CreatedWithAdmin(s, t, r.data.value, caller.value, now)))
  {
    FreshGroupHasNoMembers(s);
  }

  /** `delete`: only the creator or an approved admin of an existing group may
      delete it, and then the group, its memberships and its posts go. */
  lemma {:induction false} DeleteOutcomes(s: Db, caller: Option<SessionUser>, id: Id)
    requires UniqueKeys(s.groups, GroupId)
    ensures var (t, r) := DeleteSpec(s, caller, id);
      && (!r.success ==> t == s)
      && (caller.Some? && !HasGroup(s.groups, id) ==> r == Fail(GroupState.NotFound))
      && (r.success <==> caller.Some? && exists i :: (0 <= i < |s.groups| && s.groups[i].id == id
            && (s.groups[i].creatorId == Some(caller.value.id) || IsAdmin(s, id, caller.value.id))))
      && (r.success ==> r.state == GroupState.DeleteSuccess && t == GQ.DeletedFrom(s, id))
  {
    var (t, r) := DeleteSpec(s, caller, id);
    if caller.Some? && GQ.FindById(s.groups, id).Some? {
      var g := GQ.FindById(s.groups, id).value;
      var k :| 0 <= k < |s.groups| && s.groups[k] == g;
      forall i | 0 <= i < |s.groups| && s.groups[i].id == id
        ensures s.groups[i] == g
      {
        assert GroupId(s.groups[i]) == GroupId(s.groups[k]);
      }
    }
  }

  /** `update`: a caller who is not an approved admin of the group changes nothing. */
  lemma {:induction false} UpdateNeedsAdmin(s: Db, caller: Option<SessionUser>, id: Id, name: Option<string>, description: Option<string>,
                         isPublic: Option<bool>, now: int)
    ensures var (t, r) := UpdateSpec(s, caller, id, name, description, isPublic, now);
      && (r.success <==> caller.Some? && exists i :: (0 <= i < |s.members| && s.members[i].groupId == id
            && s.members[i].userId == caller.value.id && s.members[i].role == MemberRole.Admin
            && s.members[i].status == MemberStatus.Approved))
      && (!r.success ==> t == s)
      && (r.success ==> t.groups == GQ.InfoUpdated(s.groups, id, name, description, isPublic, now) && t == s.(groups := t.groups))
  {
  }

  /** The row `approveGroup` rewrites. */
  function Reviewed(g: Group, approved: bool, reason: Option<string>, now: int): Group
  {
    g.(status := if approved then GroupStatus.Approved else GroupStatus.Rejected,
       rejectedReason := if approved then None else reason, updatedAt := now)
  }

  /** `approveGroup`: a missing group is not found; a group that is not
      pending is already reviewed and stays as it is; a pending group becomes
      approved or rejected, with the reason kept only for a rejection. No
      reviewer role is demanded of the caller. */
  lemma {:induction false} ApproveGroupOutcomes(s: Db, caller: Option<SessionUser>, id: Id, approved: bool, reason: Option<string>, now: int)
    requires UniqueKeys(s.groups, GroupId)
    ensures var (t, r) := ApproveGroupSpec(s, caller, id, approved, reason, now);
      && (!r.success ==> t == s)
      && (caller.Some? && !HasGroup(s.groups, id) ==> r == Fail(GroupState.NotFound))
      && (forall i :: 0 <= i < |s.groups| && s.groups[i].id == id && s.groups[i].status != GroupStatus.Pending && caller.Some?
            ==> r == Fail(GroupState.InvalidStatus))
      && (r.success <==> caller.Some? && exists i :: 0 <= i < |s.groups| && s.groups[i].id == id && s.groups[i].status == GroupStatus.Pending)
      && (r.success ==> (
            && r.state == (if approved then GroupState.ApproveSuccess else GroupState.RejectSuccess)
            && exists i :: (0 <= i < |s.groups| && s.groups[i].id == id
                 && t == s.(groups := s.groups[i := Reviewed(s.groups[i], approved, reason, now)]))))
  {
    var (t, r) := ApproveGroupSpec(s, caller, id, approved, reason, now);
    if caller.Some? && GQ.FindById(s.groups, id).Some? {
      var g := GQ.FindById(s.groups, id).value;
      var k :| 0 <= k < |s.groups| && s.groups[k] == g;
      forall i | 0 <= i < |s.groups| && s.groups[i].id == id
        ensures i == k
      {
        assert GroupId(s.groups[i]) == GroupId(s.groups[k]);
      }
      UpdateKeyUnique(s.groups, GroupId, k, GQ.SetStatus(if approved then GroupStatus.Approved else GroupStatus.Rejected, reason, now));
    }
  }

  /** A group is reviewed at most once: after a successful review, reviewing
      it again fails with `INVALID_STATUS` and changes nothing. */
  lemma {:induction false} ReviewOnlyOnce(s: Db, caller: Option<SessionUser>, id: Id, approved: bool, reason: Option<string>, now: int,
                       caller2: Option<SessionUser>, approved2: bool, reason2: Option<string>, now2: int)
    requires UniqueKeys(s.groups, GroupId)
    requires ApproveGroupSpec(s, caller, id, approved, reason, now).1.success
    requires caller2.Some?
    ensures var t := ApproveGroupSpec(s, caller, id, approved, reason, now).0;
      ApproveGroupSpec(t, caller2, id, approved2, reason2, now2) == (t, Fail(GroupState.InvalidStatus))
  {
    ApproveGroupOutcomes(s, caller, id, approved, reason, now);
    var t := ApproveGroupSpec(s, caller, id, approved, reason, now).0;
    var i :| 0 <= i < |s.groups| && s.groups[i].id == id && t == s.(groups := s.groups[i := Reviewed(s.groups[i], approved, reason, now)]);
    UpdateAtUnique(s.groups, GroupId, i, Reviewed(s.groups[i], approved, reason, now));
    assert t.groups[i].id == id && t.groups[i].status != GroupStatus.Pending;
    ApproveGroupOutcomes(t, caller2, id, approved2, reason2, now2);
  }

  /** The membership `joinGroup` inserts. */
  function Joined(s: Db, g: Group, user: SessionUser, now: int): GroupMember
  {
    GroupMember(s.nextId, g.id, user.id, MemberRole.Member,
                if g.isPublic then MemberStatus.Approved else MemberStatus.Pending, now, now)
  }

  /** `joinGroup`: a pending request is reported as already submitted, an
      approved membership as already existing, and a rejected one runs into
      the unique (group, user) constraint. Without any, the caller becomes a
      member: approved at once in a public group (`JOIN_SUCCESS`), pending in
      a private one (a success reported as `ALREADY_SUBMIT`). */
  lemma {:induction false} JoinGroupOutcomes(s: Db, caller: Option<SessionUser>, groupId: Id, now: int)
    requires UniqueKeys(s.members, MemberPair)
    ensures var (t, r) := JoinGroupSpec(s, caller, groupId, now);
      && (!r.success ==> t == s)
      && (caller.Some? && !HasGroup(s.groups, groupId) ==> r == Fail(MemberState.GroupNotFound))
      && (forall i :: (0 <= i < |s.members| && caller.Some? && HasGroup(s.groups, groupId)
            && s.members[i].groupId == groupId && s.members[i].userId == caller.value.id) ==>
              r == Fail(match s.members[i].status
                        case Pending => MemberState.AlreadySubmit
                        case Approved => MemberState.AlreadyExists
                        case Rejected => MemberState.ServerError))
      && (r.success <==> (caller.Some? && HasGroup(s.groups, groupId)
            && forall i :: 0 <= i < |s.members| ==> !(s.members[i].groupId == groupId && s.members[i].userId == caller.value.id)))
      && (r.success ==> exists j :: (0 <= j < |s.groups| && s.groups[j].id == groupId
            && r.data == Some(Joined(s, s.groups[j], caller.value, now))
            && r.state == (if s.groups[j].isPublic then MemberState.JoinSuccess else MemberState.AlreadySubmit)
            && t == s.(members := s.members + [Joined(s, s.groups[j], caller.value, now)], nextId := s.nextId + 1)))
  {
    var (t, r) := JoinGroupSpec(s, caller, groupId, now);
    if caller.Some? && GQ.FindById(s.groups, groupId).Some? {
      var e := MQ.FindByGroupAndUser(s.members, groupId, caller.value.id);
      if e.Some? {
        var k :| 0 <= k < |s.members| && s.members[k] == e.value;
        forall i | 0 <= i < |s.members| && s.members[i].groupId == groupId && s.members[i].userId == caller.value.id
          ensures i == k
        {
          assert MemberPair(s.members[i]) == MemberPair(s.members[k]);
        }
      }
    }
  }

  /** The last approved admin cannot leave: an admin's leave is refused
      while the group has at most one approved admin. */
  lemma {:induction false} LeaveRefusesLastAdmin(s: Db, user: SessionUser, groupId: Id, i: nat)
    requires UniqueKeys(s.members, MemberPair)
    requires i < |s.members| && s.members[i].groupId == groupId && s.members[i].userId == user.id
    requires s.members[i].role == MemberRole.Admin && AdminCount(s.members, groupId) <= 1
    ensures LeaveGroupSpec(s, Some(user), groupId) == (s, Fail(MemberState.LastAdmin))
  {
    var m := MQ.FindByGroupAndUser(s.members, groupId, user.id).value;
    var k :| 0 <= k < |s.members| && s.members[k] == m;
    assert MemberPair(s.members[i]) == MemberPair(s.members[k]);
  }

  /** `leaveGroup` otherwise removes exactly the caller's membership. */
  lemma {:induction false} LeaveOutcome(s: Db, caller: Option<SessionUser>, groupId: Id)
    requires UniqueKeys(s.members, MemberId)
    ensures var (t, r) := LeaveGroupSpec(s, caller, groupId);
      && (!r.success ==> t == s)
      && (caller.Some? && (forall i :: 0 <= i < |s.members| ==> !(s.members[i].groupId == groupId && s.members[i].userId == caller.value.id)) ==>
            r == Fail(MemberState.NotFound))
      && (r.success ==> r.state == MemberState.LeaveSuccess && exists i :: (0 <= i < |s.members|
            && s.members[i].groupId == groupId && s.members[i].userId == caller.value.id
            && (s.members[i].role == MemberRole.Admin ==> AdminCount(s.members, groupId) >= 2)
            && t == s.(members := s.members[..i] + s.members[i+1..])))
  {
    var (t, r) := LeaveGroupSpec(s, caller, groupId);
    if r.success {
      var m := MQ.FindByGroupAndUser(s.members, groupId, caller.value.id).value;
      var k :| 0 <= k < |s.members| && s.members[k] == m;
      DeleteKeyUnique(s.members, MemberId, k);
    }
  }

  /** The membership operations on a row by id (`updateMemberRole`,
      `removeMember`, `approveMember`) demand that the caller be an approved
      admin of that row's group. */
  ghost predicate AdminOfRowGroup(s: Db, caller: Option<SessionUser>, memberId: Id)
  {
    caller.Some? && exists i :: (0 <= i < |s.members| && s.members[i].id == memberId
      && MQ.IsRole(s.members, s.members[i].groupId, caller.value.id, MemberRole.Admin))
  }

  lemma {:induction false} RowOperationsNeedAdmin(s: Db, caller: Option<SessionUser>, memberId: Id, role: MemberRole, now: int)
    requires UniqueKeys(s.members, MemberId)
    ensures UpdateMemberRoleSpec(s, caller, memberId, role, now).1.success ==> AdminOfRowGroup(s, caller, memberId)
    ensures RemoveMemberSpec(s, caller, memberId).1.success ==> AdminOfRowGroup(s, caller, memberId)
    ensures ApproveMemberSpec(s, caller, memberId, now).1.success ==> AdminOfRowGroup(s, caller, memberId)
    ensures caller.Some? && (forall i :: 0 <= i < |s.members| && s.members[i].id == memberId ==>
              !MQ.IsRole(s.members, s.members[i].groupId, caller.value.id, MemberRole.Admin)) ==>
      && UpdateMemberRoleSpec(s, caller, memberId, role, now).1.state in {MemberState.Forbidden, MemberState.NotFound}
      && RemoveMemberSpec(s, caller, memberId).1.state in {MemberState.Forbidden, MemberState.NotFound}
      && ApproveMemberSpec(s, caller, memberId, now).1.state in {MemberState.Forbidden, MemberState.NotFound}
  {
    if caller.Some? && MQ.FindById(s.members, memberId).Some? {
      var m := MQ.FindById(s.members, memberId).value;
      var k :| 0 <= k < |s.members| && s.members[k] == m;
    }
  }

  /** The last approved admin can neither be removed nor demote themself. */
  lemma {:induction false} RowOperationsRefuseLastAdmin(s: Db, user: SessionUser, i: nat, now: int)
    requires UniqueKeys(s.members, MemberId)
    requires i < |s.members| && s.members[i].role == MemberRole.Admin
    requires MQ.IsRole(s.members, s.members[i].groupId, user.id, MemberRole.Admin)
    requires AdminCount(s.members, s.members[i].groupId) <= 1
    ensures RemoveMemberSpec(s, Some(user), s.members[i].id) == (s, Fail(MemberState.LastAdmin))
    ensures s.members[i].userId == user.id ==>
      UpdateMemberRoleSpec(s, Some(user), s.members[i].id, MemberRole.Member, now) == (s, Fail(MemberState.LastAdmin))
  {
    var m := MQ.FindById(s.members, s.members[i].id).value;
    var k :| 0 <= k < |s.members| && s.members[k] == m;
    assert MemberId(s.members[i]) == MemberId(s.members[k]);
  }

  /** `approveMember`: only a pending request is approved, which sets its
      status and its join time; anything else is `INVALID_STATUS`. */
  lemma {:induction false} ApproveMemberOutcome(s: Db, caller: Option<SessionUser>, memberId: Id, now: int)
    requires UniqueKeys(s.members, MemberId)
    ensures var (t, r) := ApproveMemberSpec(s, caller, memberId, now);
      && (!r.success ==> t == s)
      && (r.success ==> r.state == MemberState.ApproveSuccess && exists i :: (0 <= i < |s.members|
            && s.members[i].id == memberId && s.members[i].status == MemberStatus.Pending
            && t == s.(members := s.members[i := s.members[i].(status := MemberStatus.Approved, joinedAt := now, updatedAt := now)])))
      && (AdminOfRowGroup(s, caller, memberId) ==>
            (r.success <==> exists i :: 0 <= i < |s.members| && s.members[i].id == memberId && s.members[i].status == MemberStatus.Pending))
  {
    var (t, r) := ApproveMemberSpec(s, caller, memberId, now);
    if caller.Some? && MQ.FindById(s.members, memberId).Some? {
      var m := MQ.FindById(s.members, memberId).value;
      var k :| 0 <= k < |s.members| && s.members[k] == m;
      forall i | 0 <= i < |s.members| && s.members[i].id == memberId
        ensures i == k
      {
        assert MemberId(s.members[i]) == MemberId(s.members[k]);
      }
      UpdateKeyUnique(s.members, MemberId, k, MQ.SetStatus(MemberStatus.Approved, now));
    }
  }

  /** `listApproved` skips no group: with a positive page size, every approved
      group that passes the category and search filters is on some page. */
  lemma {:induction false} ListApprovedShowsEvery(s: Db, category: Option<GroupCategory>, search: Option<string>, size: int, i: nat)
    requires size > 0 && i < |s.groups| && s.groups[i].status == GroupStatus.Approved
    requires category.Some? ==> s.groups[i].category == category.value
    requires Truthy(search) ==> GQ.SearchHolds(search.value, s.groups[i])
    ensures exists page :: page >= 1 && ListApproved(s, category, search, Some(page), Some(size)).success
                           && s.groups[i] in ListApproved(s, category, search, Some(page), Some(size)).data.value.items
  {
    var listing := GQ.ApprovedListing(s.groups, category, search);
    ListingPagesCover(s.groups, GQ.Where(GQ.ApprovedFilter(category, search)), GQ.Newest, i, size);
    var page :| page >= 1 && Page(listing, size, PageOffset(page, size)).Some?
                && s.groups[i] in Page(listing, size, PageOffset(page, size)).value;
    var r := ListApproved(s, category, search, Some(page), Some(size));
    WindowUnique(r.data.value.items, Page(listing, size, PageOffset(page, size)).value, listing, size, PageOffset(page, size));
  }

  /** `getMembers` on a public group skips no member: with a positive page
      size, every membership that passes the status and role filters is on
      some page. */
  lemma {:induction false} GetMembersShowsEvery(s: Db, user: SessionUser, status: Option<MemberStatus>, role: Option<MemberRole>,
                                                size: int, j: nat, i: nat)
    requires UniqueKeys(s.groups, GroupId) && j < |s.groups| && s.groups[j].isPublic
    requires size > 0 && i < |s.members| && s.members[i].groupId == s.groups[j].id
    requires status.Some? ==> s.members[i].status == status.value
    requires role.Some? ==> s.members[i].role == role.value
    ensures exists page :: page >= 1 && GetMembers(s, Some(user), s.groups[j].id, status, role, Some(page), Some(size)).success
              && s.members[i] in GetMembers(s, Some(user), s.groups[j].id, status, role, Some(page), Some(size)).data.value.items
  {
    var groupId := s.groups[j].id;
    GroupFoundAt(s.groups, j);
    var listing := MQ.MembersOf(s.members, groupId, status, role);
    ListingPagesCover(s.members, MQ.Where(MQ.GroupFilter(groupId, status, role)), MQ.RoleThenJoined, i, size);
    var page :| page >= 1 && Page(listing, size, PageOffset(page, size)).Some?
                && s.members[i] in Page(listing, size, PageOffset(page, size)).value;
    var r := GetMembers(s, Some(user), groupId, status, role, Some(page), Some(size));
    WindowUnique(r.data.value.items, Page(listing, size, PageOffset(page, size)).value, listing, size, PageOffset(page, size));
  }

  /** `getMembers`: the members of an approved private group are hidden from
      everyone but its approved members. */
  lemma {:induction false} GetMembersPrivacy(s: Db, caller: Option<SessionUser>, groupId: Id, status: Option<MemberStatus>,
                          role: Option<MemberRole>, page: Option<int>, pageSize: Option<int>, j: nat)
    requires UniqueKeys(s.groups, GroupId) && UniqueKeys(s.members, MemberPair)
    requires j < |s.groups| && s.groups[j].id == groupId && !s.groups[j].isPublic && s.groups[j].status == GroupStatus.Approved
    requires caller.Some?
    ensures var r := GetMembers(s, caller, groupId, status, role, page, pageSize);
      r.state == MemberState.Forbidden <==>
        forall i :: 0 <= i < |s.members| && s.members[i].groupId == groupId && s.members[i].userId == caller.value.id ==>
          s.members[i].status != MemberStatus.Approved
  {
    GroupFoundAt(s.groups, j);
    MembershipApproved(s.members, groupId, caller.value.id);
  }

  /** With unique ids, `findById` finds the group at index `j`. */
  lemma {:induction false} GroupFoundAt(groups: seq<Group>, j: nat)
    requires UniqueKeys(groups, GroupId) && j < |groups|
    ensures GQ.FindById(groups, groups[j].id) == Some(groups[j])
  {
    var g := GQ.FindById(groups, groups[j].id).value;
    var k :| 0 <= k < |groups| && groups[k] == g;
    assert GroupId(groups[j]) == GroupId(groups[k]);
  }

  /** With unique (group, user) pairs, the membership `findByGroupAndUser`
      returns is approved exactly when the user has an approved membership. */
  lemma {:induction false} MembershipApproved(members: seq<GroupMember>, groupId: Id, userId: Id)
    requires UniqueKeys(members, MemberPair)
    ensures var e := MQ.FindByGroupAndUser(members, groupId, userId);
      (e.Some? && e.value.status == MemberStatus.Approved) <==>
        exists i :: 0 <= i < |members| && members[i].groupId == groupId && members[i].userId == userId
                    && members[i].status == MemberStatus.Approved
  {
    var e := MQ.FindByGroupAndUser(members, groupId, userId);
    if e.Some? {
      var h :| 0 <= h < |members| && members[h] == e.value;
      forall i | 0 <= i < |members| && members[i].groupId == groupId && members[i].userId == userId
        ensures i == h
      {
        assert MemberPair(members[i]) == MemberPair(members[h]);
      }
    }
  }
}
