/** The group service: creating, reviewing, updating and deleting groups,
    listing them, and the membership operations (join, leave, list, change
    role, remove, approve). Each operation is a specification function from
    the store before the call to the store after it and the response, and a
    method that performs the same steps on the `Store` and is proved to
    agree with it. The caller is what `getCurrentUser` returned (`None` when
    nobody is signed in); `now` is the clock. */
module GroupService {
  import opened Common
  import opened Tables
  import opened Model
  import opened Database
  import GQ = GroupQueries
  import MQ = GroupMemberQueries

  type GroupResponse<T> = Response<T, GroupState>
  type MemberResponse<T> = Response<T, MemberState>

  /** The number of approved admins of a group, as the last-admin checks count them. */
  function AdminCount(members: seq<GroupMember>, groupId: Id): nat
  {
    MQ.CountByGroup(members, groupId, Some(MemberStatus.Approved), Some(MemberRole.Admin))
  }

  /** `isRole(groupId, userId, 'admin')`. */
  predicate IsAdmin(s: Db, groupId: Id, userId: Id)
  {
    MQ.IsRole(s.members, groupId, userId, MemberRole.Admin)
  }

  // ---------------------------------------------------------------------------
  // create

  function CreateSpec(s: Db, caller: Option<SessionUser>, name: string, slug: string, description: Option<string>,
                      category: GroupCategory, isPublic: bool, now: int): (Db, GroupResponse<Group>)
  {
    if caller.None? then (s, Fail(GroupState.Unauthorized))
    else if GQ.FindBySlug(s.groups, s.members, slug).Some? then (s, Fail(GroupState.AlreadyExists))
    else
      var g := GQ.NewGroup(s.nextId, name, slug, description, category, isPublic, Some(caller.value.id), GroupStatus.Pending, now);
      match GQ.Inserted(s.groups, g)
      case None => (s, Fail(GroupState.ServerError))
      case Some(groups) =>
        var m := MQ.NewMember(s.nextId + 1, g.id, caller.value.id, MemberRole.Admin, MemberStatus.Approved, Some(now), now);
        match MQ.Inserted(s.members, m)
        case None => (s.(groups := groups, nextId := s.nextId + 1), Fail(GroupState.ServerError))
        case Some(members) =>
          (s.(groups := groups, members := members, nextId := s.nextId + 2), Response(true, Some(g), GroupState.CreateSuccess))
  }

  /** `create`: the group is inserted, then its creator's admin membership.
      The callback handed to `db.transaction` ignores its transaction handle
      and both inserts go through the pooled connection, so a failed second
      insert leaves the new group in place. */
  method Create(db: Store, caller: Option<SessionUser>, name: string, slug: string, description: Option<string>,
                category: GroupCategory, isPublic: bool, now: int) returns (r: GroupResponse<Group>)
    modifies db
    ensures (db.State(), r) == CreateSpec(old(db.State()), caller, name, slug, description, category, isPublic, now)
  {
    if caller.None? {
      return Fail(GroupState.Unauthorized);
    }
    var user := caller.value;
    var existing := GQ.FindBySlug(db.groups, db.members, slug);
    if existing.Some? {
      return Fail(GroupState.AlreadyExists);
    }
    var group := GQ.Create(db, name, slug, description, category, isPublic, Some(user.id), GroupStatus.Pending, now);
    if group.None? {
      return Fail(GroupState.ServerError);
    }
    var member := MQ.Create(db, group.value.id, user.id, MemberRole.Admin, MemberStatus.Approved, Some(now), now);
    if member.None? {
      return Fail(GroupState.ServerError);
    }
    r := Response(true, group, GroupState.CreateSuccess);
  }

  // ---------------------------------------------------------------------------
  // delete

  function DeleteSpec(s: Db, caller: Option<SessionUser>, id: Id): (Db, GroupResponse<()>)
  {
    if caller.None? then (s, Fail(GroupState.Unauthorized))
    else match GQ.FindById(s.groups, id)
      case None => (s, Fail(GroupState.NotFound))
      case Some(g) =>
        if g.creatorId != Some(caller.value.id) && !IsAdmin(s, id, caller.value.id) then (s, Fail(GroupState.Forbidden))
        else (GQ.DeletedFrom(s, id), Response(true, None, GroupState.DeleteSuccess))
  }

  /** `delete`: the creator or an approved admin deletes the group (and, by
      cascade, its memberships and posts). */
  method Delete(db: Store, caller: Option<SessionUser>, id: Id) returns (r: GroupResponse<()>)
    modifies db
    ensures (db.State(), r) == DeleteSpec(old(db.State()), caller, id)
  {
    if caller.None? {
      return Fail(GroupState.Unauthorized);
    }
    var user := caller.value;
    var group := GQ.FindById(db.groups, id);
    if group.None? {
      return Fail(GroupState.NotFound);
    }
    if group.value.creatorId != Some(user.id) {
      var isAdmin := MQ.IsRole(db.members, id, user.id, MemberRole.Admin);
      if !isAdmin {
        return Fail(GroupState.Forbidden);
      }
    }
    GQ.Delete(db, id);
    r := Response(true, None, GroupState.DeleteSuccess);
  }

  // ---------------------------------------------------------------------------
  // getBySlug

  /** `getBySlug`: only an approved group is found, with its statistics. */
  function GetBySlug(s: Db, slug: string): (r: GroupResponse<GroupWithStats>)
    ensures r.success <==> exists i :: 0 <= i < |s.groups| && s.groups[i].slug == slug && s.groups[i].status == GroupStatus.Approved
    ensures r.success ==> (r.state == GroupState.GetSuccess && r.data.Some?
      && r.data.value.group in s.groups && r.data.value.group.slug == slug
      && r.data.value.group.status == GroupStatus.Approved
      && r.data.value.memberCount == |MQ.MembersOf(s.members, r.data.value.group.id, Some(MemberStatus.Approved), None)|)
    ensures !r.success ==> r == Fail(GroupState.NotFound)
  {
    var group := GQ.FindBySlug(s.groups, s.members, slug);
    if group.None? || group.value.group.status != GroupStatus.Approved then Fail(GroupState.NotFound)
    else Response(true, group, GroupState.GetSuccess)
  }

  // ---------------------------------------------------------------------------
  // update

  function UpdateSpec(s: Db, caller: Option<SessionUser>, id: Id, name: Option<string>, description: Option<string>,
                      isPublic: Option<bool>, now: int): (Db, GroupResponse<()>)
  {
    if caller.None? then (s, Fail(GroupState.Unauthorized))
    else if !IsAdmin(s, id, caller.value.id) then (s, Fail(GroupState.Forbidden))
    else (s.(groups := GQ.InfoUpdated(s.groups, id, name, description, isPublic, now)), Response(true, None, GroupState.UpdateSuccess))
  }

  /** `update`: only an approved admin of the group may change its information. */
  method Update(db: Store, caller: Option<SessionUser>, id: Id, name: Option<string>, description: Option<string>,
                isPublic: Option<bool>, now: int) returns (r: GroupResponse<()>)
    modifies db
    ensures (db.State(), r) == UpdateSpec(old(db.State()), caller, id, name, description, isPublic, now)
  {
    if caller.None? {
      return Fail(GroupState.Unauthorized);
    }
    var isAdmin := MQ.IsRole(db.members, id, caller.value.id, MemberRole.Admin);
    if !isAdmin {
      return Fail(GroupState.Forbidden);
    }
    GQ.Update(db, id, name, description, isPublic, now);
    r := Response(true, None, GroupState.UpdateSuccess);
  }

  // ---------------------------------------------------------------------------
  // Listings

  /** `listApproved`: page 1 and 20 per page by default; the total counts the
      whole filtered listing. A page below 1 makes the offset negative and
      the query fail. */
  function ListApproved(s: Db, category: Option<GroupCategory>, search: Option<string>,
                        page: Option<int>, pageSize: Option<int>): (r: GroupResponse<PageData<Group>>)
    ensures r.success <==> Default(pageSize, 20) >= 0 && PageOffset(Default(page, 1), Default(pageSize, 20)) >= 0
    ensures !r.success ==> r == Fail(GroupState.ServerError)
    ensures r.success ==> (r.state == GroupState.GetSuccess && r.data.Some?
      && r.data.value.total == |GQ.ApprovedListing(s.groups, category, search)|
      && r.data.value.page == Default(page, 1) && r.data.value.pageSize == Default(pageSize, 20)
      && (forall k :: 0 <= k < |r.data.value.items| ==>
            r.data.value.items[k] in s.groups && r.data.value.items[k].status == GroupStatus.Approved
            && (category.Some? ==> r.data.value.items[k].category == category.value)
            && (Truthy(search) ==> GQ.SearchHolds(search.value, r.data.value.items[k])))
      && (forall i, j :: 0 <= i < j < |r.data.value.items| ==>
            r.data.value.items[i].createdAt >= r.data.value.items[j].createdAt)
      && |r.data.value.items| <= r.data.value.pageSize
      && IsWindow(r.data.value.items, GQ.ApprovedListing(s.groups, category, search),
                  r.data.value.pageSize, PageOffset(r.data.value.page, r.data.value.pageSize)))
  {
    var p := Default(page, 1);
    var size := Default(pageSize, 20);
    match GQ.ListApproved(s.groups, category, search, Some(size), Some(PageOffset(p, size)))
    case None => Fail(GroupState.ServerError)
    case Some(items) =>
      Response(true, Some(PageData(items, GQ.Count(s.groups, Some(GroupStatus.Approved), category, search), p, size)), GroupState.GetSuccess)
  }

  /** The memberships whose group exists and is approved. */
  function GroupApproved(groups: seq<Group>): GroupMember -> bool
  {
    (m: GroupMember) => GQ.FindById(groups, m.groupId).Some? && GQ.FindById(groups, m.groupId).value.status == GroupStatus.Approved
  }

  /** `listMyGroups`: one page of the caller's memberships (approved ones by
      default), of which only those in approved groups are kept; the total
      counts the caller's memberships with the given status, or all of them
      when none is given. */
  function ListMyGroups(s: Db, caller: Option<SessionUser>, status: Option<MemberStatus>,
                        page: Option<int>, pageSize: Option<int>): (r: MemberResponse<PageData<GroupMember>>)
    ensures caller.None? ==> r == Fail(MemberState.Unauthorized)
    ensures caller.Some? ==> (r.success <==> Default(pageSize, 20) >= 0 && PageOffset(Default(page, 1), Default(pageSize, 20)) >= 0)
    ensures r.success ==> (r.data.Some? && caller.Some? && r.state == MemberState.GetSuccess
      && r.data.value.total == MQ.CountByUser(s.members, caller.value.id, status, None)
      && r.data.value.page == Default(page, 1) && r.data.value.pageSize == Default(pageSize, 20)
      && (forall k :: 0 <= k < |r.data.value.items| ==>
            var m := r.data.value.items[k];
            m in s.members && m.userId == caller.value.id && m.status == Default(status, MemberStatus.Approved)
            && (exists j :: 0 <= j < |s.groups| && s.groups[j].id == m.groupId && s.groups[j].status == GroupStatus.Approved))
      && (forall i, j :: 0 <= i < j < |r.data.value.items| ==>
            r.data.value.items[i].joinedAt >= r.data.value.items[j].joinedAt))
    ensures r.success ==>
      r.data.value.items == Filter(Page(MQ.GroupsOf(s.members, caller.value.id, status), r.data.value.pageSize,
                                        PageOffset(r.data.value.page, r.data.value.pageSize)).value, GroupApproved(s.groups))
  {
    if caller.None? then Fail(MemberState.Unauthorized)
    else
      var p := Default(page, 1);
      var size := Default(pageSize, 20);
      match MQ.FindGroupsByUser(s.members, caller.value.id, status, Some(size), Some(PageOffset(p, size)))
      case None => Fail(MemberState.ServerError)
      case Some(memberships) =>
        var items := Filter(memberships, GroupApproved(s.groups));
        PageKeepsOrder(MQ.GroupsOf(s.members, caller.value.id, status), MQ.NewestJoinedFirst, size, PageOffset(p, size));
        FilterKeepsOrder(memberships, GroupApproved(s.groups), MQ.NewestJoinedFirst);
        Response(true, Some(PageData(items, MQ.CountByUser(s.members, caller.value.id, status, None), p, size)), MemberState.GetSuccess)
  }

  /** `listPending`: any signed-in caller (the reviewer-role check is a TODO
      in the source) sees the pending groups, oldest first. */
  function ListPending(s: Db, caller: Option<SessionUser>, page: Option<int>, pageSize: Option<int>)
    : (r: GroupResponse<PageData<Group>>)
    ensures caller.None? ==> r == Fail(GroupState.Unauthorized)
    ensures caller.Some? ==> (r.success <==> Default(pageSize, 20) >= 0 && PageOffset(Default(page, 1), Default(pageSize, 20)) >= 0)
    ensures r.success ==> (r.data.Some? && r.state == GroupState.GetSuccess
      && r.data.value.total == |GQ.PendingListing(s.groups)|
      && r.data.value.page == Default(page, 1) && r.data.value.pageSize == Default(pageSize, 20)
      && (forall k :: 0 <= k < |r.data.value.items| ==>
            r.data.value.items[k] in s.groups && r.data.value.items[k].status == GroupStatus.Pending)
      && (forall i, j :: 0 <= i < j < |r.data.value.items| ==>
            r.data.value.items[i].createdAt <= r.data.value.items[j].createdAt)
      && IsWindow(r.data.value.items, GQ.PendingListing(s.groups),
                  r.data.value.pageSize, PageOffset(r.data.value.page, r.data.value.pageSize)))
  {
    if caller.None? then Fail(GroupState.Unauthorized)
    else
      var p := Default(page, 1);
      var size := Default(pageSize, 20);
      match GQ.ListPending(s.groups, Some(size), Some(PageOffset(p, size)))
      case None => Fail(GroupState.ServerError)
      case Some(items) =>
        Response(true, Some(PageData(items, GQ.Count(s.groups, Some(GroupStatus.Pending), None, None), p, size)), GroupState.GetSuccess)
  }

  // ---------------------------------------------------------------------------
  // approveGroup

  function ApproveGroupSpec(s: Db, caller: Option<SessionUser>, id: Id, approved: bool, reason: Option<string>, now: int)
    : (Db, GroupResponse<()>)
  {
    if caller.None? then (s, Fail(GroupState.Unauthorized))
    else match GQ.FindById(s.groups, id)
      case None => (s, Fail(GroupState.NotFound))
      case Some(g) =>
        if g.status != GroupStatus.Pending then (s, Fail(GroupState.InvalidStatus))
        else
          var status := if approved then GroupStatus.Approved else GroupStatus.Rejected;
          (s.(groups := GQ.StatusUpdated(s.groups, id, status, reason, now)),
           Response(true, None, if approved then GroupState.ApproveSuccess else GroupState.RejectSuccess))
  }

  /** `approveGroup`: reviews a pending group; any signed-in caller may. */
  method ApproveGroup(db: Store, caller: Option<SessionUser>, id: Id, approved: bool, reason: Option<string>, now: int)
    returns (r: GroupResponse<()>)
    modifies db
    ensures (db.State(), r) == ApproveGroupSpec(old(db.State()), caller, id, approved, reason, now)
  {
    if caller.None? {
      return Fail(GroupState.Unauthorized);
    }
    var group := GQ.FindById(db.groups, id);
    if group.None? {
      return Fail(GroupState.NotFound);
    }
    if group.value.status != GroupStatus.Pending {
      return Fail(GroupState.InvalidStatus);
    }
    var status := if approved then GroupStatus.Approved else GroupStatus.Rejected;
    GQ.UpdateStatus(db, id, status, reason, now);
    if status == GroupStatus.Approved {
      r := Response(true, None, GroupState.ApproveSuccess);
    } else {
      r := Response(true, None, GroupState.RejectSuccess);
    }
  }

  // ---------------------------------------------------------------------------
  // joinGroup

  function JoinGroupSpec(s: Db, caller: Option<SessionUser>, groupId: Id, now: int): (Db, MemberResponse<GroupMember>)
  {
    if caller.None? then (s, Fail(MemberState.Unauthorized))
    else match GQ.FindById(s.groups, groupId)
      case None => (s, Fail(MemberState.GroupNotFound))
      case Some(g) =>
        var existing := MQ.FindByGroupAndUser(s.members, groupId, caller.value.id);
        if existing.Some? && existing.value.status == MemberStatus.Pending then (s, Fail(MemberState.AlreadySubmit))
        else if existing.Some? && existing.value.status == MemberStatus.Approved then (s, Fail(MemberState.AlreadyExists))
        else
          var status := if g.isPublic then MemberStatus.Approved else MemberStatus.Pending;
          var joinedAt := if status == MemberStatus.Approved then Some(now) else None;
          var m := MQ.NewMember(s.nextId, groupId, caller.value.id, MemberRole.Member, status, joinedAt, now);
          match MQ.Inserted(s.members, m)
          case None => (s, Fail(MemberState.ServerError))
          case Some(members) =>
            (s.(members := members, nextId := s.nextId + 1),
             Response(true, Some(m), if g.isPublic then MemberState.JoinSuccess else MemberState.AlreadySubmit))
  }

  /** `joinGroup`: joins a public group at once, or files a pending request
      for a private one. */
  method JoinGroup(db: Store, caller: Option<SessionUser>, groupId: Id, now: int) returns (r: MemberResponse<GroupMember>)
    modifies db
    ensures (db.State(), r) == JoinGroupSpec(old(db.State()), caller, groupId, now)
  {
    if caller.None? {
      return Fail(MemberState.Unauthorized);
    }
    var user := caller.value;
    var group := GQ.FindById(db.groups, groupId);
    if group.None? {
      return Fail(MemberState.GroupNotFound);
    }
    var existing := MQ.FindByGroupAndUser(db.members, groupId, user.id);
    if existing.Some? && existing.value.status == MemberStatus.Pending {
      return Fail(MemberState.AlreadySubmit);
    }
    if existing.Some? && existing.value.status == MemberStatus.Approved {
      return Fail(MemberState.AlreadyExists);
    }
    var initialStatus := if group.value.isPublic then MemberStatus.Approved else MemberStatus.Pending;
    var joinedAt := if initialStatus == MemberStatus.Approved then Some(now) else None;
    var membership := MQ.Create(db, groupId, user.id, MemberRole.Member, initialStatus, joinedAt, now);
    if membership.None? {
      return Fail(MemberState.ServerError);
    }
    if initialStatus == MemberStatus.Approved {
      r := Response(true, membership, MemberState.JoinSuccess);
    } else {
      r := Response(true, membership, MemberState.AlreadySubmit);
    }
  }

  // ---------------------------------------------------------------------------
  // leaveGroup

  function LeaveGroupSpec(s: Db, caller: Option<SessionUser>, groupId: Id): (Db, MemberResponse<()>)
  {
    if caller.None? then (s, Fail(MemberState.Unauthorized))
    else match MQ.FindByGroupAndUser(s.members, groupId, caller.value.id)
      case None => (s, Fail(MemberState.NotFound))
      case Some(m) =>
        if m.role == MemberRole.Admin && AdminCount(s.members, groupId) <= 1 then (s, Fail(MemberState.LastAdmin))
        else (s.(members := MQ.Deleted(s.members, m.id)), Response(true, None, MemberState.LeaveSuccess))
  }

  /** `leaveGroup`: the caller's membership goes, unless it is the group's last admin. */
  method LeaveGroup(db: Store, caller: Option<SessionUser>, groupId: Id) returns (r: MemberResponse<()>)
    modifies db
    ensures (db.State(), r) == LeaveGroupSpec(old(db.State()), caller, groupId)
  {
    if caller.None? {
      return Fail(MemberState.Unauthorized);
    }
    var membership := MQ.FindByGroupAndUser(db.members, groupId, caller.value.id);
    if membership.None? {
      return Fail(MemberState.NotFound);
    }
    if membership.value.role == MemberRole.Admin {
      var adminCount := MQ.CountByGroup(db.members, groupId, Some(MemberStatus.Approved), Some(MemberRole.Admin));
      if adminCount <= 1 {
        return Fail(MemberState.LastAdmin);
      }
    }
    MQ.Delete(db, membership.value.id);
    r := Response(true, None, MemberState.LeaveSuccess);
  }

  // ---------------------------------------------------------------------------
  // getMembers

  /** `getMembers`: an approved private group shows its members only to its
      approved members. The page is filtered by status and role, but the
      total by status only. */
  function GetMembers(s: Db, caller: Option<SessionUser>, groupId: Id, status: Option<MemberStatus>, role: Option<MemberRole>,
                      page: Option<int>, pageSize: Option<int>): (r: MemberResponse<PageData<GroupMember>>)
    ensures caller.None? ==> r == Fail(MemberState.Unauthorized)
    ensures caller.Some? && (forall i :: 0 <= i < |s.groups| ==> s.groups[i].id != groupId) ==> r == Fail(MemberState.GroupNotFound)
    ensures r.success ==> (r.data.Some? && r.state == MemberState.GetSuccess
      && r.data.value.total == MQ.CountByGroup(s.members, groupId, status, None)
      && r.data.value.page == Default(page, 1) && r.data.value.pageSize == Default(pageSize, 50)
      && (forall k :: 0 <= k < |r.data.value.items| ==>
            r.data.value.items[k] in s.members && r.data.value.items[k].groupId == groupId
            && (status.Some? ==> r.data.value.items[k].status == status.value)
            && (role.Some? ==> r.data.value.items[k].role == role.value))
      && (forall i, j :: 0 <= i < j < |r.data.value.items| ==>
            RoleRank(r.data.value.items[i].role) < RoleRank(r.data.value.items[j].role)
            || (r.data.value.items[i].role == r.data.value.items[j].role
                && r.data.value.items[i].joinedAt <= r.data.value.items[j].joinedAt))
      && IsWindow(r.data.value.items, MQ.MembersOf(s.members, groupId, status, role),
                  r.data.value.pageSize, PageOffset(r.data.value.page, r.data.value.pageSize))
      && (exists i :: 0 <= i < |s.groups| && s.groups[i].id == groupId
            && (!s.groups[i].isPublic && s.groups[i].status == GroupStatus.Approved ==>
                 exists j :: 0 <= j < |s.members| && s.members[j].groupId == groupId
                   && s.members[j].userId == caller.value.id && s.members[j].status == MemberStatus.Approved)))
  {
    if caller.None? then Fail(MemberState.Unauthorized)
    else match GQ.FindById(s.groups, groupId)
      case None => Fail(MemberState.GroupNotFound)
      case Some(g) =>
        var membership := MQ.FindByGroupAndUser(s.members, groupId, caller.value.id);
        if !g.isPublic && g.status == GroupStatus.Approved && (membership.None? || membership.value.status != MemberStatus.Approved) then
          Fail(MemberState.Forbidden)
        else
          var p := Default(page, 1);
          var size := Default(pageSize, 50);
          match MQ.FindMembersByGroup(s.members, groupId, status, role, Some(size), Some(PageOffset(p, size)))
          case None => Fail(MemberState.ServerError)
          case Some(items) =>
            Response(true, Some(PageData(items, MQ.CountByGroup(s.members, groupId, status, None), p, size)), MemberState.GetSuccess)
  }

  // ---------------------------------------------------------------------------
  // updateMemberRole

  function UpdateMemberRoleSpec(s: Db, caller: Option<SessionUser>, memberId: Id, role: MemberRole, now: int)
    : (Db, MemberResponse<()>)
  {
    if caller.None? then (s, Fail(MemberState.Unauthorized))
    else match MQ.FindById(s.members, memberId)
      case None => (s, Fail(MemberState.NotFound))
      case Some(m) =>
        if !IsAdmin(s, m.groupId, caller.value.id) then (s, Fail(MemberState.Forbidden))
        else if m.userId == caller.value.id && role == MemberRole.Member && AdminCount(s.members, m.groupId) <= 1 then
          (s, Fail(MemberState.LastAdmin))
        else (s.(members := MQ.RoleUpdated(s.members, memberId, role, now)), Response(true, None, MemberState.UpdateSuccess))
  }

  /** `updateMemberRole`: an approved admin changes a member's role; the last
      admin may not demote themself. */
  method UpdateMemberRole(db: Store, caller: Option<SessionUser>, memberId: Id, role: MemberRole, now: int)
    returns (r: MemberResponse<()>)
    modifies db
    ensures (db.State(), r) == UpdateMemberRoleSpec(old(db.State()), caller, memberId, role, now)
  {
    if caller.None? {
      return Fail(MemberState.Unauthorized);
    }
    var user := caller.value;
    var membership := MQ.FindById(db.members, memberId);
    if membership.None? {
      return Fail(MemberState.NotFound);
    }
    var isAdmin := MQ.IsRole(db.members, membership.value.groupId, user.id, MemberRole.Admin);
    if !isAdmin {
      return Fail(MemberState.Forbidden);
    }
    if membership.value.userId == user.id && role == MemberRole.Member {
      var adminCount := MQ.CountByGroup(db.members, membership.value.groupId, Some(MemberStatus.Approved), Some(MemberRole.Admin));
      if adminCount <= 1 {
        return Fail(MemberState.LastAdmin);
      }
    }
    MQ.UpdateRole(db, memberId, role, now);
    r := Response(true, None, MemberState.UpdateSuccess);
  }

  // ---------------------------------------------------------------------------
  // removeMember

  function RemoveMemberSpec(s: Db, caller: Option<SessionUser>, memberId: Id): (Db, MemberResponse<()>)
  {
    if caller.None? then (s, Fail(MemberState.Unauthorized))
    else match MQ.FindById(s.members, memberId)
      case None => (s, Fail(MemberState.NotFound))
      case Some(m) =>
        if !IsAdmin(s, m.groupId, caller.value.id) then (s, Fail(MemberState.Forbidden))
        else if m.role == MemberRole.Admin && AdminCount(s.members, m.groupId) <= 1 then (s, Fail(MemberState.LastAdmin))
        else (s.(members := MQ.Deleted(s.members, memberId)), Response(true, None, MemberState.DeleteSuccess))
  }

  /** `removeMember`: an approved admin removes a membership, but never the last admin. */
  method RemoveMember(db: Store, caller: Option<SessionUser>, memberId: Id) returns (r: MemberResponse<()>)
    modifies db
    ensures (db.State(), r) == RemoveMemberSpec(old(db.State()), caller, memberId)
  {
    if caller.None? {
      return Fail(MemberState.Unauthorized);
    }
    var membership := MQ.FindById(db.members, memberId);
    if membership.None? {
      return Fail(MemberState.NotFound);
    }
    var isAdmin := MQ.IsRole(db.members, membership.value.groupId, caller.value.id, MemberRole.Admin);
    if !isAdmin {
      return Fail(MemberState.Forbidden);
    }
    if membership.value.role == MemberRole.Admin {
      var adminCount := MQ.CountByGroup(db.members, membership.value.groupId, Some(MemberStatus.Approved), Some(MemberRole.Admin));
      if adminCount <= 1 {
        return Fail(MemberState.LastAdmin);
      }
    }
    MQ.Delete(db, memberId);
    r := Response(true, None, MemberState.DeleteSuccess);
  }

  // ---------------------------------------------------------------------------
  // approveMember

  function ApproveMemberSpec(s: Db, caller: Option<SessionUser>, memberId: Id, now: int): (Db, MemberResponse<()>)
  {
    if caller.None? then (s, Fail(MemberState.Unauthorized))
    else match MQ.FindById(s.members, memberId)
      case None => (s, Fail(MemberState.NotFound))
      case Some(m) =>
        if !IsAdmin(s, m.groupId, caller.value.id) then (s, Fail(MemberState.Forbidden))
        else if m.status != MemberStatus.Pending then (s, Fail(MemberState.InvalidStatus))
        else (s.(members := MQ.StatusUpdated(s.members, memberId, MemberStatus.Approved, now)),
              Response(true, None, MemberState.ApproveSuccess))
  }

  /** `approveMember`: an approved admin accepts a pending request. The
      update returns nothing, so the response carries no data. */
  method ApproveMember(db: Store, caller: Option<SessionUser>, memberId: Id, now: int) returns (r: MemberResponse<()>)
    modifies db
    ensures (db.State(), r) == ApproveMemberSpec(old(db.State()), caller, memberId, now)
  {
    if caller.None? {
      return Fail(MemberState.Unauthorized);
    }
    var membership := MQ.FindById(db.members, memberId);
    if membership.None? {
      return Fail(MemberState.NotFound);
    }
    var isAdmin := MQ.IsRole(db.members, membership.value.groupId, caller.value.id, MemberRole.Admin);
    if !isAdmin {
      return Fail(MemberState.Forbidden);
    }
    if membership.value.status != MemberStatus.Pending {
      return Fail(MemberState.InvalidStatus);
    }
    MQ.UpdateStatus(db, memberId, MemberStatus.Approved, now);
    r := Response(true, None, MemberState.ApproveSuccess);
  }
}
