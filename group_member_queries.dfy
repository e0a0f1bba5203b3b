/** The membership table: its where-clause builder, lookups, counts, listings
    and the statements that insert, delete and update rows. */
module GroupMemberQueries {
  import opened Common
  import opened Tables
  import opened Model
  import opened Database

  // ---------------------------------------------------------------------------
  // WHERE

  /** The `status` parameter: absent, one status, or a list matched with `inArray`. */
  datatype StatusFilter = AnyStatus | StatusIs(status: MemberStatus) | StatusIn(statuses: seq<MemberStatus>)

  /** The parameters of the where-clause builder; `None` is an omitted parameter. */
  datatype MemberFilter = MemberFilter(groupId: Option<Id>, userId: Option<Id>, status: StatusFilter, role: Option<MemberRole>)

  /** One SQL condition the builder pushes. */
  datatype Cond =
    | GroupIdEq(groupId: Id)
    | UserIdEq(userId: Id)
    | StatusEq(status: MemberStatus)
    | StatusInList(statuses: seq<MemberStatus>)
    | RoleEq(role: MemberRole)

  predicate Holds(c: Cond, m: GroupMember)
  {
    match c
    case GroupIdEq(g) => m.groupId == g
    case UserIdEq(u) => m.userId == u
    case StatusEq(st) => m.status == st
    case StatusInList(l) => m.status in l
    case RoleEq(r) => m.role == r
  }

  /** A row passes every condition of `and(...conditions)`. */
  predicate AllHold(conditions: seq<Cond>, m: GroupMember)
  {
    forall i :: 0 <= i < |conditions| ==> Holds(conditions[i], m)
  }

  /** A row passes the clause; an undefined clause lets every row through. */
  predicate Satisfies(w: Option<seq<Cond>>, m: GroupMember)
  {
    w.None? || AllHold(w.value, m)
  }

  lemma {:induction false} AllHoldPush(conditions: seq<Cond>, c: Cond, m: GroupMember)
    ensures AllHold(conditions + [c], m) <==> AllHold(conditions, m) && Holds(c, m)
  {
    if AllHold(conditions, m) && Holds(c, m) {
      forall i | 0 <= i < |conditions + [c]|
        ensures Holds((conditions + [c])[i], m)
      {
        if i < |conditions| {
          assert (conditions + [c])[i] == conditions[i];
        }
      }
    }
    if AllHold(conditions + [c], m) {
      forall i | 0 <= i < |conditions|
        ensures Holds(conditions[i], m)
      {
        assert (conditions + [c])[i] == conditions[i];
      }
      assert (conditions + [c])[|conditions|] == c;
    }
  }

  /** What a filter means: the row satisfies every parameter that was supplied. */
  predicate Matches(f: MemberFilter, m: GroupMember)
  {
    && (f.groupId.Some? ==> m.groupId == f.groupId.value)
    && (f.userId.Some? ==> m.userId == f.userId.value)
    && StatusOk(f.status, m)
    && (f.role.Some? ==> m.role == f.role.value)
  }

  predicate StatusOk(st: StatusFilter, m: GroupMember)
  {
    match st
    case AnyStatus => true
    case StatusIs(s) => m.status == s
    case StatusIn(l) => m.status in l
  }

  predicate NoFilter(f: MemberFilter)
  {
    f.groupId.None? && f.userId.None? && f.status.AnyStatus? && f.role.None?
  }

  function Where(f: MemberFilter): GroupMember -> bool
  {
    (m: GroupMember) => Matches(f, m)
  }

  /** A single optional status as the listing and count queries pass it. */
  function StatusParam(status: Option<MemberStatus>): StatusFilter
  {
    if status.Some? then StatusIs(status.value) else AnyStatus
  }

  /** Pushes one condition per supplied parameter; no conditions gives no clause. */
  method BuildWhereClause(f: MemberFilter) returns (w: Option<seq<Cond>>)
    ensures w.None? <==> NoFilter(f)
    ensures forall m :: Satisfies(w, m) <==> Matches(f, m)
  {
    var conditions: seq<Cond> := [];
    if f.groupId.Some? {
      Push(conditions, GroupIdEq(f.groupId.value));
      conditions := conditions + [GroupIdEq(f.groupId.value)];
    }
    assert forall m :: AllHold(conditions, m) <==> (f.groupId.Some? ==> m.groupId == f.groupId.value);
    ghost var before := conditions;
    if f.userId.Some? {
      Push(conditions, UserIdEq(f.userId.value));
      conditions := conditions + [UserIdEq(f.userId.value)];
    }
    assert forall m :: AllHold(conditions, m) <==> AllHold(before, m) && (f.userId.Some? ==> m.userId == f.userId.value);
    before := conditions;
    match f.status {
      case AnyStatus =>
      case StatusIs(st) =>
        Push(conditions, StatusEq(st));
        conditions := conditions + [StatusEq(st)];
      case StatusIn(l) =>
        Push(conditions, StatusInList(l));
        conditions := conditions + [StatusInList(l)];
    }
    assert forall m :: AllHold(conditions, m) <==> AllHold(before, m) && StatusOk(f.status, m);
    before := conditions;
    if f.role.Some? {
      Push(conditions, RoleEq(f.role.value));
      conditions := conditions + [RoleEq(f.role.value)];
    }
    assert forall m :: AllHold(conditions, m) <==> AllHold(before, m) && (f.role.Some? ==> m.role == f.role.value);
    if |conditions| > 0 {
      w := Some(conditions);
    } else {
      w := None;
    }
  }

  /** Pushing `c` narrows the clause to the rows that also satisfy `c`. */
  lemma {:induction false} Push(conditions: seq<Cond>, c: Cond)
    ensures forall m :: AllHold(conditions + [c], m) <==> AllHold(conditions, m) && Holds(c, m)
  {
    forall m {
      AllHoldPush(conditions, c, m);
    }
  }

  // ---------------------------------------------------------------------------
  // Lookups and counts

  function HasId(id: Id): GroupMember -> bool
  {
    (m: GroupMember) => m.id == id
  }

  /** `findById`: the row with that id, if any. */
  function FindById(rows: seq<GroupMember>, id: Id): (r: Option<GroupMember>)
    ensures r.Some? ==> r.value in rows && r.value.id == id
    ensures r.None? <==> forall i :: 0 <= i < |rows| ==> rows[i].id != id
  {
    Find(rows, HasId(id))
  }

  function PairFilter(groupId: Id, userId: Id): MemberFilter
  {
    MemberFilter(Some(groupId), Some(userId), AnyStatus, None)
  }

  /** `findByGroupAndUser`: the membership of that user in that group, if any. */
  function FindByGroupAndUser(rows: seq<GroupMember>, groupId: Id, userId: Id): (r: Option<GroupMember>)
    ensures r.Some? ==> r.value in rows && r.value.groupId == groupId && r.value.userId == userId
    ensures r.None? <==> forall i :: 0 <= i < |rows| ==> !(rows[i].groupId == groupId && rows[i].userId == userId)
  {
    Find(rows, Where(PairFilter(groupId, userId)))
  }

  function RoleFilter(groupId: Id, userId: Id, role: MemberRole): MemberFilter
  {
    MemberFilter(Some(groupId), Some(userId), StatusIs(MemberStatus.Approved), Some(role))
  }

  /** `isRole`: whether the user holds that role, approved, in that group. */
  function IsRole(rows: seq<GroupMember>, groupId: Id, userId: Id, role: MemberRole): (b: bool)
    ensures b <==> exists i :: 0 <= i < |rows| && rows[i].groupId == groupId && rows[i].userId == userId
                                && rows[i].role == role && rows[i].status == MemberStatus.Approved
  {
    Find(rows, Where(RoleFilter(groupId, userId, role))).Some?
  }

  function GroupFilter(groupId: Id, status: Option<MemberStatus>, role: Option<MemberRole>): MemberFilter
  {
    MemberFilter(Some(groupId), None, StatusParam(status), role)
  }

  function UserFilter(userId: Id, status: Option<MemberStatus>, role: Option<MemberRole>): MemberFilter
  {
    MemberFilter(None, Some(userId), StatusParam(status), role)
  }

  /** `asc(role), asc(joinedAt)`. */
  function RoleThenJoined(m: GroupMember): Key
  {
    Key(RoleRank(m.role), m.joinedAt)
  }

  /** `desc(joinedAt)`. */
  function NewestJoinedFirst(m: GroupMember): Key
  {
    Key(-m.joinedAt, 0)
  }

  /** All rows `findMembersByGroup` selects, in its order, before the window. */
  function MembersOf(rows: seq<GroupMember>, groupId: Id, status: Option<MemberStatus>, role: Option<MemberRole>): seq<GroupMember>
  {
    Listing(rows, Where(GroupFilter(groupId, status, role)), RoleThenJoined)
  }

  /** `countByGroup`: the number of rows the same listing selects. */
  function CountByGroup(rows: seq<GroupMember>, groupId: Id, status: Option<MemberStatus>, role: Option<MemberRole>): (n: nat)
    ensures n == |MembersOf(rows, groupId, status, role)|
    ensures n > 0 <==> exists i :: 0 <= i < |rows| && Matches(GroupFilter(groupId, status, role), rows[i])
  {
    CountPositive(rows, Where(GroupFilter(groupId, status, role)));
    Count(rows, Where(GroupFilter(groupId, status, role)))
  }

  /** `countByUser`, over the rows of one user. */
  function CountByUser(rows: seq<GroupMember>, userId: Id, status: Option<MemberStatus>, role: Option<MemberRole>): (n: nat)
    ensures n <= |rows|
    ensures n > 0 <==> exists i :: 0 <= i < |rows| && Matches(UserFilter(userId, status, role), rows[i])
  {
    CountPositive(rows, Where(UserFilter(userId, status, role)));
    Count(rows, Where(UserFilter(userId, status, role)))
  }

  /** `findMembersByGroup`: one page of the group's members, members before
      admins (the declared enum order) and earlier joins first. */
  function FindMembersByGroup(rows: seq<GroupMember>, groupId: Id, status: Option<MemberStatus>, role: Option<MemberRole>,
                              limit: Option<int>, offset: Option<int>): (r: Option<seq<GroupMember>>)
    ensures r.None? <==> Default(limit, 50) < 0 || Default(offset, 0) < 0
    ensures r.Some? ==> forall k :: 0 <= k < |r.value| ==>
      r.value[k] in rows && r.value[k].groupId == groupId
      && (status.Some? ==> r.value[k].status == status.value) && (role.Some? ==> r.value[k].role == role.value)
    ensures r.Some? ==> forall i, j :: 0 <= i < j < |r.value| ==>
      RoleRank(r.value[i].role) < RoleRank(r.value[j].role)
      || (r.value[i].role == r.value[j].role && r.value[i].joinedAt <= r.value[j].joinedAt)
    ensures r.Some? ==> IsWindow(r.value, MembersOf(rows, groupId, status, role), Default(limit, 50), Default(offset, 0))
  {
    var all := MembersOf(rows, groupId, status, role);
    var r := Page(all, Default(limit, 50), Default(offset, 0));
    if r.Some? then
      PageKeepsOrder(all, RoleThenJoined, Default(limit, 50), Default(offset, 0));
      r
    else r
  }

  /** All rows `findGroupsByUser` selects, newest join first. */
  function GroupsOf(rows: seq<GroupMember>, userId: Id, status: Option<MemberStatus>): seq<GroupMember>
  {
    Listing(rows, Where(UserFilter(userId, Some(Default(status, MemberStatus.Approved)), None)), NewestJoinedFirst)
  }

  /** `findGroupsByUser`: one page of the user's memberships; with no status
      given it lists approved memberships only. */
  function FindGroupsByUser(rows: seq<GroupMember>, userId: Id, status: Option<MemberStatus>,
                            limit: Option<int>, offset: Option<int>): (r: Option<seq<GroupMember>>)
    ensures r.None? <==> Default(limit, 20) < 0 || Default(offset, 0) < 0
    ensures r.Some? ==> forall k :: 0 <= k < |r.value| ==>
      r.value[k] in rows && r.value[k].userId == userId
      && r.value[k].status == (if status.Some? then status.value else MemberStatus.Approved)
    ensures r.Some? ==> forall i, j :: 0 <= i < j < |r.value| ==> r.value[i].joinedAt >= r.value[j].joinedAt
    ensures r.Some? ==> IsWindow(r.value, GroupsOf(rows, userId, status), Default(limit, 20), Default(offset, 0))
  {
    var all := GroupsOf(rows, userId, status);
    var r := Page(all, Default(limit, 20), Default(offset, 0));
    if r.Some? then
      PageKeepsOrder(all, NewestJoinedFirst, Default(limit, 20), Default(offset, 0));
      r
    else r
  }

  // ---------------------------------------------------------------------------
  // Statements

  /** The table after `insert`, or `None` when the row would repeat a
      (group, user) pair and the unique constraint rejects it. */
  function Inserted(rows: seq<GroupMember>, row: GroupMember): (r: Option<seq<GroupMember>>)
    ensures r.None? <==> exists i :: 0 <= i < |rows| && MemberPair(rows[i]) == MemberPair(row)
    ensures r.Some? ==> r.value == rows + [row]
  {
    if exists i :: 0 <= i < |rows| && MemberPair(rows[i]) == MemberPair(row) then None else Some(rows + [row])
  }

  /** The table after `delete ... where id`. */
  function Deleted(rows: seq<GroupMember>, id: Id): seq<GroupMember>
  {
    DeleteKey(rows, MemberId, id)
  }

  function SetRole(role: MemberRole, now: int): GroupMember -> GroupMember
  {
    (m: GroupMember) => m.(role := role, updatedAt := now)
  }

  /** The table after `updateRole`. */
  function RoleUpdated(rows: seq<GroupMember>, id: Id, role: MemberRole, now: int): seq<GroupMember>
  {
    UpdateKey(rows, MemberId, id, SetRole(role, now))
  }

  /** `joinedAt` is reset only by an approval; otherwise the undefined value leaves it. */
  function SetStatus(status: MemberStatus, now: int): GroupMember -> GroupMember
  {
    (m: GroupMember) => m.(status := status, joinedAt := if status == MemberStatus.Approved then now else m.joinedAt, updatedAt := now)
  }

  /** The table after `updateStatus`. */
  function StatusUpdated(rows: seq<GroupMember>, id: Id, status: MemberStatus, now: int): seq<GroupMember>
  {
    UpdateKey(rows, MemberId, id, SetStatus(status, now))
  }

  /** The row `create` writes: `joinedAt` falls back to the column default `now()`. */
  function NewMember(id: Id, groupId: Id, userId: Id, role: MemberRole, status: MemberStatus,
                     joinedAt: Option<int>, now: int): GroupMember
  {
    GroupMember(id, groupId, userId, role, status, Default(joinedAt, now), now)
  }

  /** `create`: inserts a membership under a fresh id and returns it. */
  method Create(db: Store, groupId: Id, userId: Id, role: MemberRole, status: MemberStatus,
                joinedAt: Option<int>, now: int) returns (m: Option<GroupMember>)
    modifies db
    ensures var row := NewMember(old(db.nextId), groupId, userId, role, status, joinedAt, now);
            match Inserted(old(db.members), row)
            case None => m.None? && db.State() == old(db.State())
            case Some(t) => m == Some(row) && db.State() == old(db.State()).(members := t, nextId := old(db.nextId) + 1)
  {
    var row := NewMember(db.nextId, groupId, userId, role, status, joinedAt, now);
    var t := Inserted(db.members, row);
    if t.Some? {
      var id := db.FreshId();
      db.members := t.value;
      m := Some(row);
    } else {
      m := None;
    }
  }

  /** `delete`. */
  method Delete(db: Store, id: Id)
    modifies db
    ensures db.State() == old(db.State()).(members := Deleted(old(db.members), id))
  {
    db.members := Deleted(db.members, id);
  }

  /** `updateRole`. */
  method UpdateRole(db: Store, id: Id, role: MemberRole, now: int)
    modifies db
    ensures db.State() == old(db.State()).(members := RoleUpdated(old(db.members), id, role, now))
  {
    db.members := RoleUpdated(db.members, id, role, now);
  }

  /** `updateStatus`. */
  method UpdateStatus(db: Store, id: Id, status: MemberStatus, now: int)
    modifies db
    ensures db.State() == old(db.State()).(members := StatusUpdated(old(db.members), id, status, now))
  {
    db.members := StatusUpdated(db.members, id, status, now);
  }

  // ---------------------------------------------------------------------------
  // Properties of the statements

  /** `delete` removes exactly the row with that id and keeps the others in order. */
  lemma {:induction false} DeleteOnlyThatRow(rows: seq<GroupMember>, id: Id)
    requires UniqueKeys(rows, MemberId)
    ensures forall i :: 0 <= i < |rows| && rows[i].id == id ==> Deleted(rows, id) == rows[..i] + rows[i + 1..]
    ensures (forall i :: 0 <= i < |rows| ==> rows[i].id != id) ==> Deleted(rows, id) == rows
  {
    forall i | 0 <= i < |rows| && rows[i].id == id
      ensures Deleted(rows, id) == rows[..i] + rows[i + 1..]
    {
      DeleteKeyUnique(rows, MemberId, i);
    }
    if forall i :: 0 <= i < |rows| ==> rows[i].id != id {
      DeleteKeyAbsent(rows, MemberId, id);
    }
  }

  /** `updateRole` changes the role and `updatedAt` of the row with that id and nothing else. */
  lemma {:induction false} UpdateRoleOnlyThatRow(rows: seq<GroupMember>, id: Id, role: MemberRole, now: int)
    ensures |RoleUpdated(rows, id, role, now)| == |rows|
    ensures forall i :: 0 <= i < |rows| ==>
      var n := RoleUpdated(rows, id, role, now)[i];
      if rows[i].id == id then n.role == role && n.updatedAt == now && n == rows[i].(role := n.role, updatedAt := n.updatedAt)
      else n == rows[i]
  {
  }

  /** `updateStatus` moves `joinedAt` to now exactly when it approves; other
      fields but `updatedAt` and other rows are untouched. */
  lemma {:induction false} UpdateStatusJoinedAt(rows: seq<GroupMember>, id: Id, status: MemberStatus, now: int)
    ensures |StatusUpdated(rows, id, status, now)| == |rows|
    ensures forall i :: 0 <= i < |rows| ==>
      var n := StatusUpdated(rows, id, status, now)[i];
      if rows[i].id == id then
        n.status == status
        && n.joinedAt == (if status == MemberStatus.Approved then now else rows[i].joinedAt)
        && n == rows[i].(status := n.status, joinedAt := n.joinedAt, updatedAt := now)
      else n == rows[i]
  {
  }
}
