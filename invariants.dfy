/** The invariants every state-changing operation keeps: the schema's
    constraints, at most `MaxPinnedPosts` pinned posts per group, at least one
    approved admin in every group, and a reviewed group's status never
    changing again. Each operation has its own preservation lemma; `Step`
    gathers the operations and `Run` replays a sequence of them from the
    empty store. Callers are arbitrary: nothing here relies on who is signed in. */
module Invariants {
  import opened Common
  import opened Tables
  import opened Model
  import opened Database
  import GQ = GroupQueries
  import MQ = GroupMemberQueries
  import PQ = GroupPostQueries
  import Auth = AuthService
  import GS = GroupService
  import PS = GroupPostService
  import FS = FeedbackService
  import UserQueries
  import GSL = GroupServiceLemmas
  import opened GroupPostServiceLemmas

  // ---------------------------------------------------------------------------
  // The invariants

  /** The row is an approved admin of its group (what `AdminCount` counts). */
  function AdminOf(groupId: Id): GroupMember -> bool
  {
    MQ.Where(MQ.GroupFilter(groupId, Some(MemberStatus.Approved), Some(MemberRole.Admin)))
  }

  /** Every group has at least one approved admin. (Stated with `Count`
      rather than `AdminCount`, whose contract would let the solver chase
      groups and members around the foreign keys without end.) */
  ghost predicate EveryGroupHasAdmin(groups: seq<Group>, members: seq<GroupMember>)
  {
    forall j :: 0 <= j < |groups| ==> Count(members, AdminOf(groups[j].id)) >= 1
  }

  ghost predicate Invariant(s: Db)
  {
    Constraints(s) && PinLimit(s) && EveryGroupHasAdmin(s.groups, s.members)
  }

  /** A group that has been approved or rejected keeps that status for as
      long as it exists. */
  ghost predicate ReviewsFinal(s: Db, t: Db)
  {
    forall i, j :: (0 <= i < |s.groups| && 0 <= j < |t.groups| && t.groups[j].id == s.groups[i].id
      && s.groups[i].status != GroupStatus.Pending) ==> t.groups[j].status == s.groups[i].status
  }

  lemma {:induction false} EmptyDbInvariant()
    ensures Invariant(EmptyDb)
  {
    forall g
      ensures PS.PinnedCount(EmptyDb.posts, g) <= PS.MaxPinnedPosts
    {
    }
  }

  // ---------------------------------------------------------------------------
  // Admin counts under the table changes

  lemma {:induction false} AppendKeepsAdmins(groups: seq<Group>, members: seq<GroupMember>, m: GroupMember)
    requires EveryGroupHasAdmin(groups, members)
    ensures EveryGroupHasAdmin(groups, members + [m])
  {
    forall j | 0 <= j < |groups|
      ensures Count(members + [m], AdminOf(groups[j].id)) >= 1
    {
      CountAppend(members, [m], AdminOf(groups[j].id));
    }
  }

  /** Removing one row keeps an admin in every group if the row is not an
      approved admin or its group has another one. */
  lemma {:induction false} RemoveKeepsAdmins(groups: seq<Group>, members: seq<GroupMember>, k: nat)
    requires k < |members| && EveryGroupHasAdmin(groups, members)
    requires AdminOf(members[k].groupId)(members[k]) ==> Count(members, AdminOf(members[k].groupId)) >= 2
    ensures EveryGroupHasAdmin(groups, members[..k] + members[k + 1..])
  {
    var t := members[..k] + members[k + 1..];
    forall j | 0 <= j < |groups|
      ensures Count(t, AdminOf(groups[j].id)) >= 1
    {
      CountRemove(members, k, AdminOf(groups[j].id));
    }
  }

  /** Rewriting one row within its group keeps an admin in every group if it
      does not demote an approved admin, or its group has another one. */
  lemma {:induction false} RewriteKeepsAdmins(groups: seq<Group>, members: seq<GroupMember>, k: nat, y: GroupMember)
    requires k < |members| && EveryGroupHasAdmin(groups, members)
    requires y.groupId == members[k].groupId
    requires AdminOf(members[k].groupId)(members[k]) && !AdminOf(y.groupId)(y) ==>
      Count(members, AdminOf(members[k].groupId)) >= 2
    ensures EveryGroupHasAdmin(groups, members[k := y])
  {
    var t := members[k := y];
    forall j | 0 <= j < |groups|
      ensures Count(t, AdminOf(groups[j].id)) >= 1
    {
      CountUpdate(members, k, y, AdminOf(groups[j].id));
    }
  }

  /** With unique ids, the row `FindById` found is at some index, and no
      other row has its id. */
  lemma {:induction false} MemberAt(members: seq<GroupMember>, id: Id) returns (k: nat)
    requires UniqueKeys(members, MemberId) && MQ.FindById(members, id).Some?
    ensures k < |members| && members[k] == MQ.FindById(members, id).value
    ensures forall i :: 0 <= i < |members| && members[i].id == id ==> i == k
  {
    k :| 0 <= k < |members| && members[k] == MQ.FindById(members, id).value;
    forall i | 0 <= i < |members| && members[i].id == id
      ensures i == k
    {
      assert MemberId(members[i]) == MemberId(members[k]);
    }
  }

  // ---------------------------------------------------------------------------
  // Constraints under the table changes

  /** Rewriting membership rows without touching their id, group or user
      keeps the constraints. */
  lemma {:induction false} MembersRewrittenConstraints(s: Db, f: GroupMember -> GroupMember, id: Id)
    requires Constraints(s)
    requires forall m :: f(m).id == m.id && f(m).groupId == m.groupId && f(m).userId == m.userId
    ensures Constraints(s.(members := UpdateKey(s.members, MemberId, id, f)))
  {
    UpdateKeyKeepsUnique(s.members, MemberId, id, f, MemberId);
    UpdateKeyKeepsUnique(s.members, MemberId, id, f, MemberPair);
  }

  /** Deleting membership rows by id keeps the constraints. */
  lemma {:induction false} MembersDeletedConstraints(s: Db, id: Id)
    requires Constraints(s)
    ensures Constraints(s.(members := MQ.Deleted(s.members, id)))
  {
    var t := MQ.Deleted(s.members, id);
    DeleteKeyRows(s.members, MemberId, id);
    DeleteKeyKeepsUnique(s.members, MemberId, id, MemberId);
    DeleteKeyKeepsUnique(s.members, MemberId, id, MemberPair);
    forall i | 0 <= i < |t|
      ensures HasGroup(s.groups, t[i].groupId) && t[i].id < s.nextId
    {
      var k :| 0 <= k < |s.members| && s.members[k] == t[i];
    }
  }

  /** A state change that leaves the groups alone is final on reviews. */
  lemma {:induction false} GroupsUnchangedFinal(s: Db, t: Db)
    requires UniqueKeys(s.groups, GroupId) && t.groups == s.groups
    ensures ReviewsFinal(s, t)
  {
    forall i, j | 0 <= i < |s.groups| && 0 <= j < |t.groups| && t.groups[j].id == s.groups[i].id
      ensures i == j
    {
      assert GroupId(s.groups[i]) == GroupId(s.groups[j]);
    }
  }

  /** A change to the memberships alone keeps the invariant once the new
      memberships meet the constraints and leave an admin in every group. */
  lemma {:induction false} MembersOnlyKeeps(s: Db, t: Db)
    requires Invariant(s) && Constraints(t) && EveryGroupHasAdmin(t.groups, t.members)
    requires t.groups == s.groups && t.posts == s.posts && s.nextId <= t.nextId
    ensures Invariant(t) && ReviewsFinal(s, t)
  {
    GroupsUnchangedFinal(s, t);
  }

  // ---------------------------------------------------------------------------
  // Membership operations

  lemma {:induction false} LeaveGroupKeeps(s: Db, caller: Option<SessionUser>, groupId: Id)
    requires Invariant(s)
    ensures var t := GS.LeaveGroupSpec(s, caller, groupId).0;
      Invariant(t) && ReviewsFinal(s, t) && t.groups == s.groups && s.nextId <= t.nextId
  {
    var t := GS.LeaveGroupSpec(s, caller, groupId).0;
    LeaveGroupConstraints(s, caller, groupId);
    LeaveGroupAdmins(s, caller, groupId);
    LeaveGroupShape(s, caller, groupId);
    MembersOnlyKeeps(s, t);
  }

  /** `leaveGroup` changes the memberships alone. */
  lemma {:induction false} LeaveGroupShape(s: Db, caller: Option<SessionUser>, groupId: Id)
    ensures var t := GS.LeaveGroupSpec(s, caller, groupId).0;
      t.groups == s.groups && t.posts == s.posts && s.nextId <= t.nextId
  {
  }

  lemma {:induction false} LeaveGroupConstraints(s: Db, caller: Option<SessionUser>, groupId: Id)
    requires Constraints(s)
    ensures Constraints(GS.LeaveGroupSpec(s, caller, groupId).0)
  {
    if caller.Some? {
      var m := MQ.FindByGroupAndUser(s.members, groupId, caller.value.id);
      if m.Some? {
        MembersDeletedConstraints(s, m.value.id);
      }
    }
  }

  lemma {:induction false} LeaveGroupAdmins(s: Db, caller: Option<SessionUser>, groupId: Id)
    requires UniqueKeys(s.members, MemberId) && EveryGroupHasAdmin(s.groups, s.members)
    ensures var t := GS.LeaveGroupSpec(s, caller, groupId).0; EveryGroupHasAdmin(t.groups, t.members)
  {
    if caller.Some? && MQ.FindByGroupAndUser(s.members, groupId, caller.value.id).Some? {
      var m := MQ.FindByGroupAndUser(s.members, groupId, caller.value.id).value;
      if !(m.role == MemberRole.Admin && GS.AdminCount(s.members, groupId) <= 1) {
        var k :| 0 <= k < |s.members| && s.members[k] == m;
        RemoveRowKeepsAdmins(s.groups, s.members, k);
      }
    }
  }

  lemma {:induction false} RemoveMemberKeeps(s: Db, caller: Option<SessionUser>, memberId: Id)
    requires Invariant(s)
    ensures var t := GS.RemoveMemberSpec(s, caller, memberId).0;
      Invariant(t) && ReviewsFinal(s, t) && t.groups == s.groups && s.nextId <= t.nextId
  {
    var t := GS.RemoveMemberSpec(s, caller, memberId).0;
    RemoveMemberConstraints(s, caller, memberId);
    RemoveMemberAdmins(s, caller, memberId);
    RemoveMemberShape(s, caller, memberId);
    MembersOnlyKeeps(s, t);
  }

  /** `removeMember` changes the memberships and at most the id counter. */
  lemma {:induction false} RemoveMemberShape(s: Db, caller: Option<SessionUser>, memberId: Id)
    ensures var t := GS.RemoveMemberSpec(s, caller, memberId).0;
      t.groups == s.groups && t.posts == s.posts && s.nextId <= t.nextId
  {
  }

  lemma {:induction false} RemoveMemberConstraints(s: Db, caller: Option<SessionUser>, memberId: Id)
    requires Constraints(s)
    ensures Constraints(GS.RemoveMemberSpec(s, caller, memberId).0)
  {
    if GS.RemoveMemberSpec(s, caller, memberId).1.success {
      MembersDeletedConstraints(s, memberId);
    }
  }

  lemma {:induction false} RemoveMemberAdmins(s: Db, caller: Option<SessionUser>, memberId: Id)
    requires UniqueKeys(s.members, MemberId) && EveryGroupHasAdmin(s.groups, s.members)
    ensures var t := GS.RemoveMemberSpec(s, caller, memberId).0; EveryGroupHasAdmin(t.groups, t.members)
  {
    if caller.Some? && MQ.FindById(s.members, memberId).Some? {
      var m := MQ.FindById(s.members, memberId).value;
      if GS.IsAdmin(s, m.groupId, caller.value.id)
         && !(m.role == MemberRole.Admin && GS.AdminCount(s.members, m.groupId) <= 1) {
        var k := MemberAt(s.members, memberId);
        RemoveRowKeepsAdmins(s.groups, s.members, k);
      }
    }
  }

  /** Deleting a membership by its unique id keeps an admin in every group,
      unless it is its group's last admin. */
  lemma {:induction false} RemoveRowKeepsAdmins(groups: seq<Group>, members: seq<GroupMember>, k: nat)
    requires k < |members| && UniqueKeys(members, MemberId) && EveryGroupHasAdmin(groups, members)
    requires members[k].role == MemberRole.Admin ==> GS.AdminCount(members, members[k].groupId) > 1
    ensures EveryGroupHasAdmin(groups, MQ.Deleted(members, members[k].id))
  {
    DeleteKeyUnique(members, MemberId, k);
    RemoveKeepsAdmins(groups, members, k);
  }

  lemma {:induction false} UpdateMemberRoleKeeps(s: Db, caller: Option<SessionUser>, memberId: Id, role: MemberRole, now: int)
    requires Invariant(s)
    ensures var t := GS.UpdateMemberRoleSpec(s, caller, memberId, role, now).0;
      Invariant(t) && ReviewsFinal(s, t) && t.groups == s.groups && s.nextId <= t.nextId
  {
    var t := GS.UpdateMemberRoleSpec(s, caller, memberId, role, now).0;
    UpdateMemberRoleConstraints(s, caller, memberId, role, now);
    UpdateMemberRoleAdmins(s, caller, memberId, role, now);
    UpdateMemberRoleShape(s, caller, memberId, role, now);
    MembersOnlyKeeps(s, t);
  }

  /** `updateMemberRole` changes the memberships and at most the id counter. */
  lemma {:induction false} UpdateMemberRoleShape(s: Db, caller: Option<SessionUser>, memberId: Id, role: MemberRole, now: int)
    ensures var t := GS.UpdateMemberRoleSpec(s, caller, memberId, role, now).0;
      t.groups == s.groups && t.posts == s.posts && s.nextId <= t.nextId
  {
  }

  lemma {:induction false} UpdateMemberRoleConstraints(s: Db, caller: Option<SessionUser>, memberId: Id, role: MemberRole, now: int)
    requires Constraints(s)
    ensures Constraints(GS.UpdateMemberRoleSpec(s, caller, memberId, role, now).0)
  {
    if GS.UpdateMemberRoleSpec(s, caller, memberId, role, now).1.success {
      MembersRewrittenConstraints(s, MQ.SetRole(role, now), memberId);
    }
  }

  lemma {:induction false} UpdateMemberRoleAdmins(s: Db, caller: Option<SessionUser>, memberId: Id, role: MemberRole, now: int)
    requires UniqueKeys(s.members, MemberId) && EveryGroupHasAdmin(s.groups, s.members)
    ensures var t := GS.UpdateMemberRoleSpec(s, caller, memberId, role, now).0; EveryGroupHasAdmin(t.groups, t.members)
  {
    if caller.Some? && MQ.FindById(s.members, memberId).Some? {
      var m := MQ.FindById(s.members, memberId).value;
      if GS.IsAdmin(s, m.groupId, caller.value.id)
         && !(m.userId == caller.value.id && role == MemberRole.Member && GS.AdminCount(s.members, m.groupId) <= 1) {
        var k := MemberAt(s.members, memberId);
        RoleRewriteKeepsAdmins(s.groups, s.members, k, role, now, caller.value.id);
      }
    }
  }

  /** An approved admin of the group rewriting a role keeps an admin in
      every group, unless it demotes itself as the last one. */
  lemma {:induction false} RoleRewriteKeepsAdmins(groups: seq<Group>, members: seq<GroupMember>, k: nat, role: MemberRole, now: int,
                                                  userId: Id)
    requires k < |members| && UniqueKeys(members, MemberId) && EveryGroupHasAdmin(groups, members)
    requires MQ.IsRole(members, members[k].groupId, userId, MemberRole.Admin)
    requires members[k].userId == userId && role == MemberRole.Member ==> GS.AdminCount(members, members[k].groupId) > 1
    ensures EveryGroupHasAdmin(groups, MQ.RoleUpdated(members, members[k].id, role, now))
  {
    var m := members[k];
    var y := MQ.SetRole(role, now)(m);
    UpdateKeyUnique(members, MemberId, k, MQ.SetRole(role, now));
    if AdminOf(m.groupId)(m) && !AdminOf(y.groupId)(y) && m.userId != userId {
      // The caller is another approved admin of the same group.
      var c :| 0 <= c < |members| && members[c].groupId == m.groupId && members[c].userId == userId
               && members[c].role == MemberRole.Admin && members[c].status == MemberStatus.Approved;
      CountTwo(members, AdminOf(m.groupId), c, k);
    }
    RewriteKeepsAdmins(groups, members, k, y);
  }

  lemma {:induction false} ApproveMemberKeeps(s: Db, caller: Option<SessionUser>, memberId: Id, now: int)
    requires Invariant(s)
    ensures var t := GS.ApproveMemberSpec(s, caller, memberId, now).0;
      Invariant(t) && ReviewsFinal(s, t) && t.groups == s.groups && s.nextId <= t.nextId
  {
    var t := GS.ApproveMemberSpec(s, caller, memberId, now).0;
    ApproveMemberConstraints(s, caller, memberId, now);
    ApproveMemberAdmins(s, caller, memberId, now);
    ApproveMemberShape(s, caller, memberId, now);
    MembersOnlyKeeps(s, t);
  }

  /** `approveMember` changes the memberships and at most the id counter. */
  lemma {:induction false} ApproveMemberShape(s: Db, caller: Option<SessionUser>, memberId: Id, now: int)
    ensures var t := GS.ApproveMemberSpec(s, caller, memberId, now).0;
      t.groups == s.groups && t.posts == s.posts && s.nextId <= t.nextId
  {
  }

  lemma {:induction false} ApproveMemberConstraints(s: Db, caller: Option<SessionUser>, memberId: Id, now: int)
    requires Constraints(s)
    ensures Constraints(GS.ApproveMemberSpec(s, caller, memberId, now).0)
  {
    if GS.ApproveMemberSpec(s, caller, memberId, now).1.success {
      MembersRewrittenConstraints(s, MQ.SetStatus(MemberStatus.Approved, now), memberId);
    }
  }

  lemma {:induction false} ApproveMemberAdmins(s: Db, caller: Option<SessionUser>, memberId: Id, now: int)
    requires UniqueKeys(s.members, MemberId) && EveryGroupHasAdmin(s.groups, s.members)
    ensures var t := GS.ApproveMemberSpec(s, caller, memberId, now).0; EveryGroupHasAdmin(t.groups, t.members)
  {
    if GS.ApproveMemberSpec(s, caller, memberId, now).1.success {
      var k := MemberAt(s.members, memberId);
      ApprovalKeepsAdmins(s.groups, s.members, k, now);
    }
  }

  /** Approving a membership by its unique id never takes an admin away. */
  lemma {:induction false} ApprovalKeepsAdmins(groups: seq<Group>, members: seq<GroupMember>, k: nat, now: int)
    requires k < |members| && UniqueKeys(members, MemberId) && EveryGroupHasAdmin(groups, members)
    ensures EveryGroupHasAdmin(groups, MQ.StatusUpdated(members, members[k].id, MemberStatus.Approved, now))
  {
    var f := MQ.SetStatus(MemberStatus.Approved, now);
    UpdateKeyUnique(members, MemberId, k, f);
    RewriteKeepsAdmins(groups, members, k, f(members[k]));
  }

  lemma {:induction false} JoinGroupKeeps(s: Db, caller: Option<SessionUser>, groupId: Id, now: int)
    requires Invariant(s)
    ensures var t := GS.JoinGroupSpec(s, caller, groupId, now).0;
      Invariant(t) && ReviewsFinal(s, t) && t.groups == s.groups && s.nextId <= t.nextId
  {
    var t := GS.JoinGroupSpec(s, caller, groupId, now).0;
    JoinGroupConstraints(s, caller, groupId, now);
    JoinGroupAdmins(s, caller, groupId, now);
    JoinGroupShape(s, caller, groupId, now);
    MembersOnlyKeeps(s, t);
  }

  /** `joinGroup` changes the memberships and at most the id counter. */
  lemma {:induction false} JoinGroupShape(s: Db, caller: Option<SessionUser>, groupId: Id, now: int)
    ensures var t := GS.JoinGroupSpec(s, caller, groupId, now).0;
      t.groups == s.groups && t.posts == s.posts && s.nextId <= t.nextId
  {
  }

  lemma {:induction false} JoinGroupConstraints(s: Db, caller: Option<SessionUser>, groupId: Id, now: int)
    requires Constraints(s)
    ensures Constraints(GS.JoinGroupSpec(s, caller, groupId, now).0)
  {
    JoinGroupAppends(s, caller, groupId, now);
    var (t, r) := GS.JoinGroupSpec(s, caller, groupId, now);
    if r.success {
      var j :| 0 <= j < |s.groups| && s.groups[j].id == r.data.value.groupId;
      MemberAppendedConstraints(s, r.data.value, j);
    }
  }

  /** A successful `joinGroup` appends a membership under the next id, of an
      existing group, for a (group, user) pair not yet taken. */
  lemma {:induction false} JoinGroupAppends(s: Db, caller: Option<SessionUser>, groupId: Id, now: int)
    ensures var (t, r) := GS.JoinGroupSpec(s, caller, groupId, now);
      && (!r.success ==> t == s)
      && (r.success ==> (
            && r.data.Some? && r.data.value.id == s.nextId
            && t == s.(members := s.members + [r.data.value], nextId := s.nextId + 1)
            && (exists j :: 0 <= j < |s.groups| && s.groups[j].id == r.data.value.groupId)
            && forall i :: 0 <= i < |s.members| ==> MemberPair(s.members[i]) != MemberPair(r.data.value)))
  {
    var (t, r) := GS.JoinGroupSpec(s, caller, groupId, now);
    if r.success {
      var g := GQ.FindById(s.groups, groupId).value;
      var j :| 0 <= j < |s.groups| && s.groups[j] == g;
      assert s.groups[j].id == r.data.value.groupId;
    }
  }

  /** Appending a membership under the next id, of an existing group and a
      (group, user) pair not yet taken, keeps the constraints. */
  lemma {:induction false} MemberAppendedConstraints(s: Db, m: GroupMember, j: nat)
    requires Constraints(s) && m.id == s.nextId
    requires j < |s.groups| && s.groups[j].id == m.groupId
    requires forall i :: 0 <= i < |s.members| ==> MemberPair(s.members[i]) != MemberPair(m)
    ensures Constraints(s.(members := s.members + [m], nextId := s.nextId + 1))
  {
    AppendUnique(s.members, MemberId, m);
    AppendUnique(s.members, MemberPair, m);
    assert HasGroup(s.groups, m.groupId);
  }

  lemma {:induction false} JoinGroupAdmins(s: Db, caller: Option<SessionUser>, groupId: Id, now: int)
    requires EveryGroupHasAdmin(s.groups, s.members)
    ensures var t := GS.JoinGroupSpec(s, caller, groupId, now).0; EveryGroupHasAdmin(t.groups, t.members)
  {
    var (t, r) := GS.JoinGroupSpec(s, caller, groupId, now);
    if r.success {
      assert t.members == s.members + [r.data.value];
      AppendKeepsAdmins(s.groups, s.members, r.data.value);
    }
  }

  // ---------------------------------------------------------------------------
  // Group operations

  lemma {:induction false} CreateGroupKeeps(s: Db, caller: Option<SessionUser>, name: string, slug: string, description: Option<string>,
                         category: GroupCategory, isPublic: bool, now: int)
    requires Invariant(s)
    ensures var t := GS.CreateSpec(s, caller, name, slug, description, category, isPublic, now).0;
      Invariant(t) && ReviewsFinal(s, t)
  {
    var (t, r) := GS.CreateSpec(s, caller, name, slug, description, category, isPublic, now);
    GSL.CreateRefusals(s, caller, name, slug, description, category, isPublic, now);
    GSL.CreateSucceeds(s, caller, name, slug, description, category, isPublic, now);
    if r.success {
      CreatedConstraints(s, t, r.data.value, caller.value, now);
      CreatedAdmins(s, t, r.data.value, caller.value, now);
      CreatedFinal(s, t, r.data.value, caller.value, now);
    } else {
      GroupsUnchangedFinal(s, t);
    }
  }

  lemma {:induction false} CreatedConstraints(s: Db, t: Db, g: Group, user: SessionUser, now: int)
    requires Constraints(s) && GSL.CreatedWithAdmin(s, t, g, user, now)
    requires forall i :: 0 <= i < |s.groups| ==> s.groups[i].slug != g.slug
    ensures Constraints(t)
  {
    var m := t.members[|s.members|];
    GSL.FreshGroupHasNoMembers(s);
    AppendUnique(s.groups, GroupId, g);
    AppendUnique(s.groups, GroupSlug, g);
    AppendUnique(s.members, MemberId, m);
    AppendUnique(s.members, MemberPair, m);
    forall i | 0 <= i < |t.members|
      ensures HasGroup(t.groups, t.members[i].groupId)
    {
      if i < |s.members| {
        var j :| 0 <= j < |s.groups| && s.groups[j].id == s.members[i].groupId;
        assert t.groups[j] == s.groups[j];
      } else {
        assert t.groups[|s.groups|] == g;
      }
    }
    forall i | 0 <= i < |t.posts|
      ensures HasGroup(t.groups, t.posts[i].groupId)
    {
      var j :| 0 <= j < |s.groups| && s.groups[j].id == s.posts[i].groupId;
      assert t.groups[j] == s.groups[j];
    }
  }

  lemma {:induction false} CreatedAdmins(s: Db, t: Db, g: Group, user: SessionUser, now: int)
    requires EveryGroupHasAdmin(s.groups, s.members) && GSL.CreatedWithAdmin(s, t, g, user, now)
    ensures EveryGroupHasAdmin(t.groups, t.members)
  {
    var m := t.members[|s.members|];
    assert t.members == s.members + [m];
    forall j | 0 <= j < |t.groups|
      ensures Count(t.members, AdminOf(t.groups[j].id)) >= 1
    {
      CountAppend(s.members, [m], AdminOf(t.groups[j].id));
      if j == |s.groups| {
        CountSingle(m, AdminOf(g.id));
      } else {
        assert t.groups[j] == s.groups[j];
      }
    }
  }

  lemma {:induction false} CreatedFinal(s: Db, t: Db, g: Group, user: SessionUser, now: int)
    requires UniqueKeys(s.groups, GroupId) && KeysBelow(s.groups, GroupId, s.nextId)
    requires GSL.CreatedWithAdmin(s, t, g, user, now)
    ensures ReviewsFinal(s, t)
  {
    forall i, j | (0 <= i < |s.groups| && 0 <= j < |t.groups| && t.groups[j].id == s.groups[i].id
                   && s.groups[i].status != GroupStatus.Pending)
      ensures t.groups[j].status == s.groups[i].status
    {
      if j < |s.groups| {
        assert t.groups[j] == s.groups[j];
        assert GroupId(s.groups[i]) == GroupId(s.groups[j]);
      }
    }
  }

  lemma {:induction false} DeleteGroupKeeps(s: Db, caller: Option<SessionUser>, id: Id)
    requires Invariant(s)
    ensures var t := GS.DeleteSpec(s, caller, id).0;
      Invariant(t) && ReviewsFinal(s, t)
  {
    var (t, r) := GS.DeleteSpec(s, caller, id);
    GSL.DeleteOutcomes(s, caller, id);
    if r.success {
      CascadeConstraints(s, id);
      CascadePins(s.posts, id);
      CascadeAdmins(s.groups, s.members, id);
      CascadeFinal(s, id);
    } else {
      GroupsUnchangedFinal(s, t);
    }
  }

  /** Deleting a group with its memberships and posts keeps the constraints:
      every row left behind names a group that is left behind. */
  lemma {:induction false} CascadeConstraints(s: Db, id: Id)
    requires Constraints(s)
    ensures Constraints(GQ.DeletedFrom(s, id))
  {
    DeleteKeyKeepsUnique(s.groups, GroupId, id, GroupId);
    DeleteKeyKeepsUnique(s.groups, GroupId, id, GroupSlug);
    DeleteKeyKeepsUnique(s.members, MemberGroupId, id, MemberId);
    DeleteKeyKeepsUnique(s.members, MemberGroupId, id, MemberPair);
    DeleteKeyKeepsUnique(s.posts, PostGroupId, id, PostId);
    DeleteKeyKeepsBelow(s.groups, GroupId, id, GroupId, s.nextId);
    DeleteKeyKeepsBelow(s.members, MemberGroupId, id, MemberId, s.nextId);
    DeleteKeyKeepsBelow(s.posts, PostGroupId, id, PostId, s.nextId);
    CascadeMemberRefs(s, id);
    CascadePostRefs(s, id);
  }

  /** Memberships that survive a group delete, which removes the group's
      own, still belong to a group that is left. */
  lemma {:induction false} CascadeMemberRefs(s: Db, id: Id)
    requires GroupRefs(s)
    ensures var t := GQ.DeletedFrom(s, id); forall i :: 0 <= i < |t.members| ==> HasGroup(t.groups, t.members[i].groupId)
  {
    var t := GQ.DeletedFrom(s, id);
    DeleteKeyRows(s.members, MemberGroupId, id);
    DeleteKeyRows(s.groups, GroupId, id);
    forall i | 0 <= i < |t.members|
      ensures HasGroup(t.groups, t.members[i].groupId)
    {
      var k :| 0 <= k < |s.members| && s.members[k] == t.members[i];
      var j :| 0 <= j < |s.groups| && s.groups[j].id == s.members[k].groupId;
      assert s.groups[j] in t.groups;
      var j' :| 0 <= j' < |t.groups| && t.groups[j'] == s.groups[j];
    }
  }

  /** Posts that survive a group delete still belong to a group that is left. */
  lemma {:induction false} CascadePostRefs(s: Db, id: Id)
    requires GroupRefs(s)
    ensures var t := GQ.DeletedFrom(s, id); forall i :: 0 <= i < |t.posts| ==> HasGroup(t.groups, t.posts[i].groupId)
  {
    var t := GQ.DeletedFrom(s, id);
    DeleteKeyRows(s.posts, PostGroupId, id);
    DeleteKeyRows(s.groups, GroupId, id);
    forall i | 0 <= i < |t.posts|
      ensures HasGroup(t.groups, t.posts[i].groupId)
    {
      var k :| 0 <= k < |s.posts| && s.posts[k] == t.posts[i];
      var j :| 0 <= j < |s.groups| && s.groups[j].id == s.posts[k].groupId;
      assert s.groups[j] in t.groups;
      var j' :| 0 <= j' < |t.groups| && t.groups[j'] == s.groups[j];
    }
  }

  lemma {:induction false} CascadePins(posts: seq<GroupPost>, id: Id)
    requires PinLimitOf(posts)
    ensures PinLimitOf(DeleteKey(posts, PostGroupId, id))
  {
    var t := DeleteKey(posts, PostGroupId, id);
    forall g
      ensures PS.PinnedCount(t, g) <= PS.MaxPinnedPosts
    {
      DeleteKeyCountLe(posts, PostGroupId, id, PQ.Where(PQ.GroupFilter(g, None, None, Some(true))));
      assert PS.PinnedCount(posts, g) <= PS.MaxPinnedPosts;
    }
  }

  /** The groups left behind keep their admins: none of them was deleted. */
  lemma {:induction false} CascadeAdmins(groups: seq<Group>, members: seq<GroupMember>, id: Id)
    requires EveryGroupHasAdmin(groups, members)
    ensures EveryGroupHasAdmin(DeleteKey(groups, GroupId, id), DeleteKey(members, MemberGroupId, id))
  {
    var tg := DeleteKey(groups, GroupId, id);
    DeleteKeyRows(groups, GroupId, id);
    forall j | 0 <= j < |tg|
      ensures Count(DeleteKey(members, MemberGroupId, id), AdminOf(tg[j].id)) >= 1
    {
      var k :| 0 <= k < |groups| && groups[k] == tg[j];
      DeleteKeyCountKeep(members, MemberGroupId, id, AdminOf(tg[j].id));
    }
  }

  lemma {:induction false} CascadeFinal(s: Db, id: Id)
    requires UniqueKeys(s.groups, GroupId)
    ensures ReviewsFinal(s, GQ.DeletedFrom(s, id))
  {
    var t := GQ.DeletedFrom(s, id);
    DeleteKeyRows(s.groups, GroupId, id);
    forall i, j | (0 <= i < |s.groups| && 0 <= j < |t.groups| && t.groups[j].id == s.groups[i].id
                   && s.groups[i].status != GroupStatus.Pending)
      ensures t.groups[j].status == s.groups[i].status
    {
      var k :| 0 <= k < |s.groups| && s.groups[k] == t.groups[j];
      assert GroupId(s.groups[k]) == GroupId(s.groups[i]);
    }
  }

  /** Row by row, `b` has the ids and slugs of `a` and keeps every status that
      was already reviewed. */
  ghost predicate SameKeys(a: seq<Group>, b: seq<Group>)
  {
    |a| == |b| && forall i :: 0 <= i < |a| ==> (b[i].id == a[i].id && b[i].slug == a[i].slug
      && (a[i].status != GroupStatus.Pending ==> b[i].status == a[i].status))
  }

  /** `t` differs from `s` only in its groups, rewritten in place keeping
      ids, slugs and reviewed statuses. */
  ghost predicate GroupsRewritten(s: Db, t: Db)
  {
    t == s.(groups := t.groups) && SameKeys(s.groups, t.groups)
  }

  lemma {:induction false} GroupsOnlyKeeps(s: Db, t: Db)
    requires Invariant(s) && GroupsRewritten(s, t)
    ensures Invariant(t) && ReviewsFinal(s, t)
  {
    GroupsRewrittenKeeps(s, t.groups);
  }

  /** Rewriting group rows without touching their ids, slugs or reviewed
      statuses keeps every invariant. */
  lemma {:induction false} GroupsRewrittenKeeps(s: Db, groups: seq<Group>)
    requires Invariant(s) && SameKeys(s.groups, groups)
    ensures Invariant(s.(groups := groups)) && ReviewsFinal(s, s.(groups := groups))
  {
    GroupsRewrittenConstraints(s, groups);
    forall j | 0 <= j < |groups|
      ensures Count(s.members, AdminOf(groups[j].id)) >= 1
    {
      assert groups[j].id == s.groups[j].id;
    }
    var t := s.(groups := groups);
    forall i, j | (0 <= i < |s.groups| && 0 <= j < |t.groups| && t.groups[j].id == s.groups[i].id
                   && s.groups[i].status != GroupStatus.Pending)
      ensures t.groups[j].status == s.groups[i].status
    {
      assert GroupId(s.groups[i]) == GroupId(s.groups[j]);
    }
  }

  lemma {:induction false} GroupsRewrittenConstraints(s: Db, groups: seq<Group>)
    requires Constraints(s) && SameKeys(s.groups, groups)
    ensures Constraints(s.(groups := groups))
  {
    forall i, j | 0 <= i < |groups| && 0 <= j < |groups| && GroupId(groups[i]) == GroupId(groups[j])
      ensures i == j
    {
      assert GroupId(s.groups[i]) == GroupId(s.groups[j]);
    }
    forall i, j | 0 <= i < |groups| && 0 <= j < |groups| && GroupSlug(groups[i]) == GroupSlug(groups[j])
      ensures i == j
    {
      assert GroupSlug(s.groups[i]) == GroupSlug(s.groups[j]);
    }
    forall i | 0 <= i < |s.members|
      ensures HasGroup(groups, s.members[i].groupId)
    {
      var j :| 0 <= j < |s.groups| && s.groups[j].id == s.members[i].groupId;
      assert groups[j].id == s.groups[j].id;
    }
    forall i | 0 <= i < |s.posts|
      ensures HasGroup(groups, s.posts[i].groupId)
    {
      var j :| 0 <= j < |s.groups| && s.groups[j].id == s.posts[i].groupId;
      assert groups[j].id == s.groups[j].id;
    }
  }

  lemma {:induction false} UpdateGroupKeeps(s: Db, caller: Option<SessionUser>, id: Id, name: Option<string>, description: Option<string>,
                         isPublic: Option<bool>, now: int)
    requires Invariant(s)
    ensures var t := GS.UpdateSpec(s, caller, id, name, description, isPublic, now).0;
      Invariant(t) && ReviewsFinal(s, t)
  {
    UpdateGroupShape(s, caller, id, name, description, isPublic, now);
    GroupsOnlyKeeps(s, GS.UpdateSpec(s, caller, id, name, description, isPublic, now).0);
  }

  /** `update` rewrites groups in place, keeping ids, slugs and statuses. */
  lemma {:induction false} UpdateGroupShape(s: Db, caller: Option<SessionUser>, id: Id, name: Option<string>, description: Option<string>,
                         isPublic: Option<bool>, now: int)
    ensures GroupsRewritten(s, GS.UpdateSpec(s, caller, id, name, description, isPublic, now).0)
  {
  }

  lemma {:induction false} ApproveGroupKeeps(s: Db, caller: Option<SessionUser>, id: Id, approved: bool, reason: Option<string>, now: int)
    requires Invariant(s)
    ensures var t := GS.ApproveGroupSpec(s, caller, id, approved, reason, now).0;
      Invariant(t) && ReviewsFinal(s, t)
  {
    ApproveGroupShape(s, caller, id, approved, reason, now);
    GroupsOnlyKeeps(s, GS.ApproveGroupSpec(s, caller, id, approved, reason, now).0);
  }

  /** `approve` rewrites groups in place and reviews only a pending one. */
  lemma {:induction false} ApproveGroupShape(s: Db, caller: Option<SessionUser>, id: Id, approved: bool, reason: Option<string>, now: int)
    requires UniqueKeys(s.groups, GroupId)
    ensures GroupsRewritten(s, GS.ApproveGroupSpec(s, caller, id, approved, reason, now).0)
  {
    var (t, r) := GS.ApproveGroupSpec(s, caller, id, approved, reason, now);
    if r.success {
      var g := GQ.FindById(s.groups, id).value;
      var k :| 0 <= k < |s.groups| && s.groups[k] == g;
      forall i | 0 <= i < |s.groups| && s.groups[i].id == id
        ensures s.groups[i].status == GroupStatus.Pending
      {
        assert GroupId(s.groups[i]) == GroupId(s.groups[k]);
      }
    }
  }

  // ---------------------------------------------------------------------------
  // Post operations

  /** Rewriting post rows without touching their ids or groups, within the
      pin limit, keeps every invariant. */
  lemma {:induction false} PostsRewrittenKeeps(s: Db, posts: seq<GroupPost>)
    requires Invariant(s) && PinLimitOf(posts) && |posts| == |s.posts|
    requires forall i :: 0 <= i < |posts| ==> posts[i].id == s.posts[i].id && posts[i].groupId == s.posts[i].groupId
    ensures Invariant(s.(posts := posts)) && ReviewsFinal(s, s.(posts := posts))
  {
    forall i, j | 0 <= i < |posts| && 0 <= j < |posts| && PostId(posts[i]) == PostId(posts[j])
      ensures i == j
    {
      assert PostId(s.posts[i]) == PostId(s.posts[j]);
    }
    GroupsUnchangedFinal(s, s.(posts := posts));
  }

  /** `t` differs from `s` only in its posts, rewritten in place under the same ids and groups. */
  ghost predicate PostsRewritten(s: Db, t: Db)
  {
    t == s.(posts := t.posts) && |t.posts| == |s.posts|
    && forall i :: 0 <= i < |t.posts| ==> t.posts[i].id == s.posts[i].id && t.posts[i].groupId == s.posts[i].groupId
  }

  lemma {:induction false} PostsOnlyKeeps(s: Db, t: Db)
    requires Invariant(s) && PinLimit(t) && PostsRewritten(s, t)
    ensures Invariant(t) && ReviewsFinal(s, t) && t.groups == s.groups && s.nextId <= t.nextId
  {
    PostsRewrittenKeeps(s, t.posts);
  }

  lemma {:induction false} CreatePostKeeps(s: Db, caller: Option<SessionUser>, groupId: Id, title: string, content: string,
                        postType: PostType, now: int)
    requires Invariant(s)
    ensures var t := PS.CreateSpec(s, caller, groupId, title, content, postType, now).0;
      Invariant(t) && ReviewsFinal(s, t) && t.groups == s.groups && s.nextId <= t.nextId
  {
    var (t, r) := PS.CreateSpec(s, caller, groupId, title, content, postType, now);
    CreateOutcomes(s, caller, groupId, title, content, postType, now);
    if r.success {
      PostAppendedKeeps(s, r.data.value);
    } else {
      GroupsUnchangedFinal(s, t);
    }
  }

  /** Adding an unpinned post of an existing group under the fresh id keeps
      every invariant. */
  lemma {:induction false} PostAppendedKeeps(s: Db, p: GroupPost)
    requires Invariant(s) && !p.isPinned && HasGroup(s.groups, p.groupId) && p.id == s.nextId
    ensures var t := s.(posts := s.posts + [p], nextId := s.nextId + 1);
      Invariant(t) && ReviewsFinal(s, t)
  {
    var t := s.(posts := s.posts + [p], nextId := s.nextId + 1);
    AppendUnique(s.posts, PostId, p);
    UnpinnedAppendKeepsPinLimit(s.posts, p);
    GroupsUnchangedFinal(s, t);
  }

  lemma {:induction false} UnpinnedAppendKeepsPinLimit(posts: seq<GroupPost>, p: GroupPost)
    requires PinLimitOf(posts) && !p.isPinned
    ensures PinLimitOf(posts + [p])
  {
    forall h
      ensures PS.PinnedCount(posts + [p], h) <= PS.MaxPinnedPosts
    {
      CountAppend(posts, [p], PQ.Where(PQ.GroupFilter(h, None, None, Some(true))));
      CountSingle(p, PQ.Where(PQ.GroupFilter(h, None, None, Some(true))));
      assert PS.PinnedCount(posts, h) <= PS.MaxPinnedPosts;
    }
  }

  lemma {:induction false} UpdatePostKeeps(s: Db, caller: Option<SessionUser>, id: Id, title: Option<string>, content: Option<string>, now: int)
    requires Invariant(s)
    ensures var t := PS.UpdateSpec(s, caller, id, title, content, now).0;
      Invariant(t) && ReviewsFinal(s, t) && t.groups == s.groups && s.nextId <= t.nextId
  {
    var t := PS.UpdateSpec(s, caller, id, title, content, now).0;
    UpdatePostKeepsPinLimit(s, caller, id, title, content, now);
    UpdatePostShape(s, caller, id, title, content, now);
    PostsOnlyKeeps(s, t);
  }

  /** `update` rewrites posts in place, keeping their ids and groups. */
  lemma {:induction false} UpdatePostShape(s: Db, caller: Option<SessionUser>, id: Id, title: Option<string>, content: Option<string>, now: int)
    ensures PostsRewritten(s, PS.UpdateSpec(s, caller, id, title, content, now).0)
  {
  }

  /** `update` leaves every post's flag alone, so the pin limit holds on. */
  lemma {:induction false} UpdatePostKeepsPinLimit(s: Db, caller: Option<SessionUser>, id: Id, title: Option<string>,
                                                   content: Option<string>, now: int)
    requires PinLimit(s)
    ensures PinLimit(PS.UpdateSpec(s, caller, id, title, content, now).0)
  {
    var (t, r) := PS.UpdateSpec(s, caller, id, title, content, now);
    if r.success {
      assert t.posts == PQ.Updated(s.posts, id, title, content, now);
      UpdatedKeepsPinLimit(s.posts, id, title, content, now);
    } else {
      assert t == s;
    }
  }

  lemma {:induction false} UpdatedKeepsPinLimit(posts: seq<GroupPost>, id: Id, title: Option<string>, content: Option<string>, now: int)
    requires PinLimitOf(posts)
    ensures PinLimitOf(PQ.Updated(posts, id, title, content, now))
  {
    var t := PQ.Updated(posts, id, title, content, now);
    UpdatedKeepsGroupsAndPins(posts, id, title, content, now);
    forall h
      ensures PS.PinnedCount(t, h) <= PS.MaxPinnedPosts
    {
      SamePinsSameCount(posts, t, h);
    }
  }

  /** Posts with the same groups and flags, row by row, have the same pinned counts. */
  lemma {:induction false} SamePinsSameCount(a: seq<GroupPost>, b: seq<GroupPost>, h: Id)
    requires |a| == |b|
    requires forall i :: 0 <= i < |a| ==> a[i].groupId == b[i].groupId && a[i].isPinned == b[i].isPinned
    ensures PS.PinnedCount(a, h) == PS.PinnedCount(b, h)
  {
    var p := PQ.Where(PQ.GroupFilter(h, None, None, Some(true)));
    forall i | 0 <= i < |a|
      ensures p(a[i]) == p(b[i])
    {
    }
    CountPointwise(a, b, p);
  }

  /** `update` rewrites title and content only. */
  lemma {:induction false} UpdatedKeepsGroupsAndPins(posts: seq<GroupPost>, id: Id, title: Option<string>, content: Option<string>, now: int)
    ensures var t := PQ.Updated(posts, id, title, content, now);
      |t| == |posts| && forall i :: 0 <= i < |t| ==> t[i].groupId == posts[i].groupId && t[i].isPinned == posts[i].isPinned
  {
  }

  lemma {:induction false} TogglePinKeeps(s: Db, caller: Option<SessionUser>, id: Id, isPinned: bool, now: int)
    requires Invariant(s)
    ensures var t := PS.TogglePinSpec(s, caller, id, isPinned, now).0;
      Invariant(t) && ReviewsFinal(s, t) && t.groups == s.groups && s.nextId <= t.nextId
  {
    var t := PS.TogglePinSpec(s, caller, id, isPinned, now).0;
    TogglePinKeepsPinLimit(s, caller, id, isPinned, now);
    TogglePinShape(s, caller, id, isPinned, now);
    PostsOnlyKeeps(s, t);
  }

  /** `togglePin` rewrites posts in place, keeping their ids and groups. */
  lemma {:induction false} TogglePinShape(s: Db, caller: Option<SessionUser>, id: Id, isPinned: bool, now: int)
    ensures PostsRewritten(s, PS.TogglePinSpec(s, caller, id, isPinned, now).0)
  {
  }

  /** Deleting a post keeps every invariant; the answer `delete` gives does
      not matter, since its state is that of the corrected version. */
  lemma {:induction false} DeletePostKeeps(s: Db, caller: Option<SessionUser>, id: Id)
    requires Invariant(s)
    ensures var t := PS.DeleteSpecAsWritten(s, caller, id).0;
      Invariant(t) && ReviewsFinal(s, t) && t.groups == s.groups && s.nextId <= t.nextId
  {
    var (t, r) := PS.DeleteSpec(s, caller, id);
    ModifyNeedsCanModify(s, caller, id, None, None, 0);
    if r.success {
      PostDeletedKeeps(s, id);
    } else {
      GroupsUnchangedFinal(s, t);
    }
  }

  /** Deleting post rows by id keeps every invariant. */
  lemma {:induction false} PostDeletedKeeps(s: Db, id: Id)
    requires Invariant(s)
    ensures var t := s.(posts := PQ.Deleted(s.posts, id));
      Invariant(t) && ReviewsFinal(s, t)
  {
    var t := s.(posts := PQ.Deleted(s.posts, id));
    DeleteKeyRows(s.posts, PostId, id);
    DeleteKeyKeepsUnique(s.posts, PostId, id, PostId);
    forall i | 0 <= i < |t.posts|
      ensures HasGroup(t.groups, t.posts[i].groupId) && t.posts[i].id < s.nextId
    {
      var k :| 0 <= k < |s.posts| && s.posts[k] == t.posts[i];
    }
    DeleteKeepsPinLimit(s.posts, id);
    GroupsUnchangedFinal(s, t);
  }

  lemma {:induction false} DeleteKeepsPinLimit(posts: seq<GroupPost>, id: Id)
    requires PinLimitOf(posts)
    ensures PinLimitOf(PQ.Deleted(posts, id))
  {
    forall h
      ensures PS.PinnedCount(PQ.Deleted(posts, id), h) <= PS.MaxPinnedPosts
    {
      DeleteKeyCountLe(posts, PostId, id, PQ.Where(PQ.GroupFilter(h, None, None, Some(true))));
      assert PS.PinnedCount(posts, h) <= PS.MaxPinnedPosts;
    }
  }

  // ---------------------------------------------------------------------------
  // Feedback and accounts

  lemma {:induction false} CreateFeedbackKeeps(s: Db, caller: Option<SessionUser>, targetType: TargetType, targetDesc: string, title: string,
                            content: string, isAnonymous: bool, now: int)
    requires Invariant(s)
    ensures var t := FS.CreateSpec(s, caller, targetType, targetDesc, title, content, isAnonymous, now).0;
      Invariant(t) && ReviewsFinal(s, t)
  {
    var (t, r) := FS.CreateSpec(s, caller, targetType, targetDesc, title, content, isAnonymous, now);
    GroupsUnchangedFinal(s, t);
    if r.success {
      AppendUnique(s.feedbacks, FeedbackId, r.data.value);
    }
  }

  lemma {:induction false} SignupKeeps(s: Db, email: string, password: string, verify: (string, string) -> bool, hash: string -> string, now: int)
    requires Invariant(s)
    ensures var t := Auth.SignupSpec(s, email, password, verify, hash, now).0;
      Invariant(t) && ReviewsFinal(s, t)
  {
    var t := Auth.SignupSpec(s, email, password, verify, hash, now).0;
    if UserQueries.FindByEmail(s.users, email).None? {
      Auth.SignupNewEmail(s, email, password, verify, hash, now);
    }
    GroupsUnchangedFinal(s, t);
  }

  lemma {:induction false} LoginKeeps(s: Db, email: string, password: string, verify: (string, string) -> bool, now: int)
    requires Invariant(s)
    ensures var t := Auth.LoginSpec(s, email, password, verify, now).0;
      Invariant(t) && ReviewsFinal(s, t)
  {
    var t := Auth.LoginSpec(s, email, password, verify, now).0;
    assert t == s.(session := t.session);
    SessionOnlyKeeps(s, t);
  }

  /** A change to the session alone keeps every invariant of the tables. */
  lemma {:induction false} SessionOnlyKeeps(s: Db, t: Db)
    requires Invariant(s) && t == s.(session := t.session)
    ensures Invariant(t) && ReviewsFinal(s, t)
  {
    GroupsUnchangedFinal(s, t);
  }

  lemma {:induction false} LogoutKeeps(s: Db)
    requires Invariant(s)
    ensures var t := Auth.LogoutSpec(s).0;
      Invariant(t) && ReviewsFinal(s, t)
  {
    var t := Auth.LogoutSpec(s).0;
    assert t == s.(session := t.session);
    SessionOnlyKeeps(s, t);
  }

  // ---------------------------------------------------------------------------
  // Any sequence of operations

  /** The requests of the authentication service. */
  datatype AccountOp =
    | Signup(email: string, password: string, now: int)
    | Login(email: string, password: string, now: int)
    | Logout

  /** The requests of the group service that change groups. */
  datatype GroupOp =
    | CreateGroup(name: string, slug: string, description: Option<string>, category: GroupCategory, isPublic: bool, now: int)
    | DeleteGroup(id: Id)
    | UpdateGroup(id: Id, newName: Option<string>, description: Option<string>, visibility: Option<bool>, now: int)
    | ApproveGroup(id: Id, approved: bool, reason: Option<string>, now: int)

  /** The requests of the group service that change memberships. */
  datatype MemberOp =
    | JoinGroup(groupId: Id, now: int)
    | LeaveGroup(groupId: Id)
    | UpdateMemberRole(memberId: Id, role: MemberRole, now: int)
    | RemoveMember(memberId: Id)
    | ApproveMember(memberId: Id, now: int)

  /** The requests of the post service that change posts. */
  datatype PostOp =
    | CreatePost(groupId: Id, title: string, content: string, postType: PostType, now: int)
    | UpdatePost(id: Id, newTitle: Option<string>, newContent: Option<string>, now: int)
    | DeletePost(id: Id)
    | TogglePin(id: Id, isPinned: bool, now: int)

  /** One request to the server that may change the store. */
  datatype Op =
    | Account(account: AccountOp)
    | Groups(group: GroupOp)
    | Members(member: MemberOp)
    | Posts(post: PostOp)
    | CreateFeedback(targetType: TargetType, targetDesc: string, title: string, content: string, isAnonymous: bool, now: int)

  function AccountStep(s: Db, op: AccountOp, verify: (string, string) -> bool, hash: string -> string): Db
  {
    match op
    case Signup(email, password, now) => Auth.SignupSpec(s, email, password, verify, hash, now).0
    case Login(email, password, now) => Auth.LoginSpec(s, email, password, verify, now).0
    case Logout => Auth.LogoutSpec(s).0
  }

  function GroupStep(s: Db, caller: Option<SessionUser>, op: GroupOp): Db
  {
    match op
    case CreateGroup(name, slug, description, category, isPublic, now) =>
      GS.CreateSpec(s, caller, name, slug, description, category, isPublic, now).0
    case DeleteGroup(id) => GS.DeleteSpec(s, caller, id).0
    case UpdateGroup(id, name, description, isPublic, now) => GS.UpdateSpec(s, caller, id, name, description, isPublic, now).0
    case ApproveGroup(id, approved, reason, now) => GS.ApproveGroupSpec(s, caller, id, approved, reason, now).0
  }

  function MemberStep(s: Db, caller: Option<SessionUser>, op: MemberOp): Db
  {
    match op
    case JoinGroup(groupId, now) => GS.JoinGroupSpec(s, caller, groupId, now).0
    case LeaveGroup(groupId) => GS.LeaveGroupSpec(s, caller, groupId).0
    case UpdateMemberRole(memberId, role, now) => GS.UpdateMemberRoleSpec(s, caller, memberId, role, now).0
    case RemoveMember(memberId) => GS.RemoveMemberSpec(s, caller, memberId).0
    case ApproveMember(memberId, now) => GS.ApproveMemberSpec(s, caller, memberId, now).0
  }

  /** A post deletion changes the store as written: only its answer is wrong. */
  function PostStep(s: Db, caller: Option<SessionUser>, op: PostOp): Db
  {
    match op
    case CreatePost(groupId, title, content, postType, now) => PS.CreateSpec(s, caller, groupId, title, content, postType, now).0
    case UpdatePost(id, title, content, now) => PS.UpdateSpec(s, caller, id, title, content, now).0
    case DeletePost(id) => PS.DeleteSpecAsWritten(s, caller, id).0
    case TogglePin(id, isPinned, now) => PS.TogglePinSpec(s, caller, id, isPinned, now).0
  }

  /** The store after one request. The caller is whoever the session holds
      when the request arrives; `verify` and `hash` are the password
      functions. */
  function Step(s: Db, op: Op, verify: (string, string) -> bool, hash: string -> string): Db
  {
    var caller := Auth.Caller(s.session);
    match op
    case Account(a) => AccountStep(s, a, verify, hash)
    case Groups(g) => GroupStep(s, caller, g)
    case Members(m) => MemberStep(s, caller, m)
    case Posts(p) => PostStep(s, caller, p)
    case CreateFeedback(targetType, targetDesc, title, content, isAnonymous, now) =>
      FS.CreateSpec(s, caller, targetType, targetDesc, title, content, isAnonymous, now).0
  }

  /** The store after the requests `ops`, in order, from the empty store. */
  function Run(ops: seq<Op>, verify: (string, string) -> bool, hash: string -> string): Db
  {
    if |ops| == 0 then EmptyDb else Step(Run(ops[..|ops| - 1], verify, hash), ops[|ops| - 1], verify, hash)
  }

  /** The id counter never goes back, and every group of `t` with an id that
      was already handed out in `s` was a group of `s`: a deleted group never
      comes back. */
  ghost predicate GroupsFromBefore(s: Db, t: Db)
  {
    s.nextId <= t.nextId
    && forall j :: 0 <= j < |t.groups| && t.groups[j].id < s.nextId ==> HasGroup(s.groups, t.groups[j].id)
  }

  /** A step that keeps the group ids row by row takes no group from nowhere. */
  lemma {:induction false} GroupsRenamedFromBefore(s: Db, t: Db)
    requires s.nextId <= t.nextId && |t.groups| == |s.groups|
    requires forall j :: 0 <= j < |t.groups| ==> t.groups[j].id == s.groups[j].id
    ensures GroupsFromBefore(s, t)
  {
    forall j | 0 <= j < |t.groups|
      ensures HasGroup(s.groups, t.groups[j].id)
    {
      assert t.groups[j].id == s.groups[j].id;
    }
  }

  lemma {:induction false} AccountStepKeeps(s: Db, op: AccountOp, verify: (string, string) -> bool, hash: string -> string)
    requires Invariant(s)
    ensures var t := AccountStep(s, op, verify, hash);
      Invariant(t) && ReviewsFinal(s, t) && t.groups == s.groups && s.nextId <= t.nextId
  {
    match op
    case Signup(email, password, now) => SignupKeeps(s, email, password, verify, hash, now);
    case Login(email, password, now) => LoginKeeps(s, email, password, verify, now);
    case Logout => LogoutKeeps(s);
  }

  lemma {:induction false} GroupStepKeeps(s: Db, caller: Option<SessionUser>, op: GroupOp)
    requires Invariant(s)
    ensures var t := GroupStep(s, caller, op);
      Invariant(t) && ReviewsFinal(s, t) && GroupsFromBefore(s, t)
  {
    match op
    case CreateGroup(name, slug, description, category, isPublic, now) =>
      CreateGroupKeeps(s, caller, name, slug, description, category, isPublic, now);
      CreateGroupFromBefore(s, caller, name, slug, description, category, isPublic, now);
    case DeleteGroup(id) =>
      DeleteGroupKeeps(s, caller, id);
      DeleteGroupFromBefore(s, caller, id);
    case UpdateGroup(id, name, description, isPublic, now) =>
      UpdateGroupKeeps(s, caller, id, name, description, isPublic, now);
      UpdateGroupFromBefore(s, caller, id, name, description, isPublic, now);
    case ApproveGroup(id, approved, reason, now) =>
      ApproveGroupKeeps(s, caller, id, approved, reason, now);
      ApproveGroupFromBefore(s, caller, id, approved, reason, now);
  }

  lemma {:induction false} MemberStepKeeps(s: Db, caller: Option<SessionUser>, op: MemberOp)
    requires Invariant(s)
    ensures var t := MemberStep(s, caller, op);
      Invariant(t) && ReviewsFinal(s, t) && t.groups == s.groups && s.nextId <= t.nextId
  {
    match op
    case JoinGroup(groupId, now) => JoinGroupKeeps(s, caller, groupId, now);
    case LeaveGroup(groupId) => LeaveGroupKeeps(s, caller, groupId);
    case UpdateMemberRole(memberId, role, now) => UpdateMemberRoleKeeps(s, caller, memberId, role, now);
    case RemoveMember(memberId) => RemoveMemberKeeps(s, caller, memberId);
    case ApproveMember(memberId, now) => ApproveMemberKeeps(s, caller, memberId, now);
  }

  lemma {:induction false} PostStepKeeps(s: Db, caller: Option<SessionUser>, op: PostOp)
    requires Invariant(s)
    ensures var t := PostStep(s, caller, op);
      Invariant(t) && ReviewsFinal(s, t) && t.groups == s.groups && s.nextId <= t.nextId
  {
    match op
    case CreatePost(groupId, title, content, postType, now) => CreatePostKeeps(s, caller, groupId, title, content, postType, now);
    case UpdatePost(id, title, content, now) => UpdatePostKeeps(s, caller, id, title, content, now);
    case DeletePost(id) => DeletePostKeeps(s, caller, id);
    case TogglePin(id, isPinned, now) => TogglePinKeeps(s, caller, id, isPinned, now);
  }

  /** Every request keeps the invariants, leaves reviewed groups alone and
      never brings a deleted group back. */
  lemma {:induction false} StepKeeps(s: Db, op: Op, verify: (string, string) -> bool, hash: string -> string)
    requires Invariant(s)
    ensures var t := Step(s, op, verify, hash);
      Invariant(t) && ReviewsFinal(s, t) && GroupsFromBefore(s, t)
  {
    var caller := Auth.Caller(s.session);
    var t := Step(s, op, verify, hash);
    match op
    case Account(a) =>
      AccountStepKeeps(s, a, verify, hash);
      GroupsRenamedFromBefore(s, t);
    case Groups(g) =>
      GroupStepKeeps(s, caller, g);
    case Members(m) =>
      MemberStepKeeps(s, caller, m);
      GroupsRenamedFromBefore(s, t);
    case Posts(p) =>
      PostStepKeeps(s, caller, p);
      GroupsRenamedFromBefore(s, t);
    case CreateFeedback(targetType, targetDesc, title, content, isAnonymous, now) =>
      CreateFeedbackKeeps(s, caller, targetType, targetDesc, title, content, isAnonymous, now);
      GroupsRenamedFromBefore(s, t);
  }

  /** Whatever the requests, the store always satisfies the invariants: the
      schema's constraints, at most three pinned posts per group, and an
      approved admin in every group. */
  lemma {:induction false} RunKeeps(ops: seq<Op>, verify: (string, string) -> bool, hash: string -> string)
    ensures Invariant(Run(ops, verify, hash))
  {
    if |ops| == 0 {
      EmptyDbInvariant();
    } else {
      RunKeeps(ops[..|ops| - 1], verify, hash);
      StepKeeps(Run(ops[..|ops| - 1], verify, hash), ops[|ops| - 1], verify, hash);
    }
  }

  // ---------------------------------------------------------------------------
  // No group comes from nowhere

  lemma {:induction false} CreateGroupFromBefore(s: Db, caller: Option<SessionUser>, name: string, slug: string,
                                                 description: Option<string>, category: GroupCategory, isPublic: bool, now: int)
    requires Invariant(s)
    ensures GroupsFromBefore(s, GS.CreateSpec(s, caller, name, slug, description, category, isPublic, now).0)
  {
    var t := GS.CreateSpec(s, caller, name, slug, description, category, isPublic, now).0;
    GSL.CreateRefusals(s, caller, name, slug, description, category, isPublic, now);
    GSL.CreateSucceeds(s, caller, name, slug, description, category, isPublic, now);
    forall j | 0 <= j < |t.groups| && t.groups[j].id < s.nextId
      ensures HasGroup(s.groups, t.groups[j].id)
    {
      assert j < |s.groups| && t.groups[j] == s.groups[j];
    }
  }

  lemma {:induction false} DeleteGroupFromBefore(s: Db, caller: Option<SessionUser>, id: Id)
    requires UniqueKeys(s.groups, GroupId)
    ensures GroupsFromBefore(s, GS.DeleteSpec(s, caller, id).0)
  {
    var t := GS.DeleteSpec(s, caller, id).0;
    GSL.DeleteOutcomes(s, caller, id);
    DeleteKeyRows(s.groups, GroupId, id);
    forall j | 0 <= j < |t.groups|
      ensures HasGroup(s.groups, t.groups[j].id)
    {
      var k :| 0 <= k < |s.groups| && s.groups[k] == t.groups[j];
    }
  }

  lemma {:induction false} UpdateGroupFromBefore(s: Db, caller: Option<SessionUser>, id: Id, name: Option<string>,
                                                 description: Option<string>, isPublic: Option<bool>, now: int)
    ensures GroupsFromBefore(s, GS.UpdateSpec(s, caller, id, name, description, isPublic, now).0)
  {
    GroupsRenamedFromBefore(s, GS.UpdateSpec(s, caller, id, name, description, isPublic, now).0);
  }

  lemma {:induction false} ApproveGroupFromBefore(s: Db, caller: Option<SessionUser>, id: Id, approved: bool,
                                                  reason: Option<string>, now: int)
    ensures GroupsFromBefore(s, GS.ApproveGroupSpec(s, caller, id, approved, reason, now).0)
  {
    GroupsRenamedFromBefore(s, GS.ApproveGroupSpec(s, caller, id, approved, reason, now).0);
  }

  // ---------------------------------------------------------------------------
  // Reviews stay final along a whole run

  /** Two steps that each keep reviews final keep them final together, as
      long as no id is reused in between. */
  lemma {:induction false} FinalTrans(a: Db, b: Db, c: Db)
    requires KeysBelow(a.groups, GroupId, a.nextId)
    requires ReviewsFinal(a, b) && GroupsFromBefore(a, b)
    requires ReviewsFinal(b, c) && GroupsFromBefore(b, c)
    ensures ReviewsFinal(a, c) && GroupsFromBefore(a, c)
  {
    forall i, j | (0 <= i < |a.groups| && 0 <= j < |c.groups| && c.groups[j].id == a.groups[i].id
                   && a.groups[i].status != GroupStatus.Pending)
      ensures c.groups[j].status == a.groups[i].status
    {
      assert GroupId(a.groups[i]) < a.nextId;
      var k :| 0 <= k < |b.groups| && b.groups[k].id == c.groups[j].id;
    }
    forall j | 0 <= j < |c.groups| && c.groups[j].id < a.nextId
      ensures HasGroup(a.groups, c.groups[j].id)
    {
      var k :| 0 <= k < |b.groups| && b.groups[k].id == c.groups[j].id;
    }
  }

  /** Once a group has been approved or rejected, every later state of the
      server that still holds the group holds it with that status. */
  lemma {:induction false} RunReviewsFinal(ops: seq<Op>, more: seq<Op>, verify: (string, string) -> bool,
                                           hash: string -> string)
    ensures ReviewsFinal(Run(ops, verify, hash), Run(ops + more, verify, hash))
    ensures GroupsFromBefore(Run(ops, verify, hash), Run(ops + more, verify, hash))
    decreases |more|
  {
    var a := Run(ops, verify, hash);
    RunKeeps(ops, verify, hash);
    if |more| == 0 {
      assert ops + more == ops;
      GroupsUnchangedFinal(a, a);
    } else {
      var front := more[..|more| - 1];
      assert (ops + more)[..|ops + more| - 1] == ops + front;
      assert (ops + more)[|ops + more| - 1] == more[|more| - 1];
      RunReviewsFinal(ops, front, verify, hash);
      var b := Run(ops + front, verify, hash);
      RunKeeps(ops + front, verify, hash);
      StepKeeps(b, more[|more| - 1], verify, hash);
      FinalTrans(a, b, Run(ops + more, verify, hash));
    }
  }
}
