/** The group table: its where-clause builder, lookups, listings, counts and
    the statements that insert, update, review and delete groups. */
module GroupQueries {
  import opened Common
  import opened Tables
  import opened Model
  import opened Database
  import GroupMemberQueries

  // ---------------------------------------------------------------------------
  // WHERE

  /** The `status` parameter: absent, one status, or a list matched with `inArray`. */
  datatype StatusFilter = AnyStatus | StatusIs(status: GroupStatus) | StatusIn(statuses: seq<GroupStatus>)

  /** The parameters of the where-clause builder. String parameters are only
      used when truthy, so an empty slug or search string is no filter. */
  datatype GroupFilter = GroupFilter(
    id: Option<Id>, slug: Option<string>, status: StatusFilter, category: Option<GroupCategory>, search: Option<string>)

  /** One SQL condition the builder pushes. */
  datatype Cond =
    | IdEq(id: Id)
    | SlugEq(slug: string)
    | StatusEq(status: GroupStatus)
    | StatusInList(statuses: seq<GroupStatus>)
    | CategoryEq(category: GroupCategory)
    | Search(search: string)

  /** The search condition is `name ilike OR description ilike OR slug ilike`;
      a null description does not match. */
  predicate SearchHolds(search: string, g: Group)
  {
    ILike(g.name, search) || (g.description.Some? && ILike(g.description.value, search)) || ILike(g.slug, search)
  }

  predicate Holds(c: Cond, g: Group)
  {
    match c
    case IdEq(i) => g.id == i
    case SlugEq(s) => g.slug == s
    case StatusEq(st) => g.status == st
    case StatusInList(l) => g.status in l
    case CategoryEq(cat) => g.category == cat
    case Search(s) => SearchHolds(s, g)
  }

  predicate AllHold(conditions: seq<Cond>, g: Group)
  {
    forall i :: 0 <= i < |conditions| ==> Holds(conditions[i], g)
  }

  predicate Satisfies(w: Option<seq<Cond>>, g: Group)
  {
    w.None? || AllHold(w.value, g)
  }

  predicate StatusOk(st: StatusFilter, g: Group)
  {
    match st
    case AnyStatus => true
    case StatusIs(s) => g.status == s
    case StatusIn(l) => g.status in l
  }

  /** What a filter means: the group satisfies every parameter that was supplied. */
  predicate Matches(f: GroupFilter, g: Group)
  {
    && (f.id.Some? ==> g.id == f.id.value)
    && (Truthy(f.slug) ==> g.slug == f.slug.value)
    && StatusOk(f.status, g)
    && (f.category.Some? ==> g.category == f.category.value)
    && (Truthy(f.search) ==> SearchHolds(f.search.value, g))
  }

  predicate NoFilter(f: GroupFilter)
  {
    f.id.None? && !Truthy(f.slug) && f.status.AnyStatus? && f.category.None? && !Truthy(f.search)
  }

  function Where(f: GroupFilter): Group -> bool
  {
    (g: Group) => Matches(f, g)
  }

  lemma {:induction false} Push(conditions: seq<Cond>, c: Cond)
    ensures forall g :: AllHold(conditions + [c], g) <==> AllHold(conditions, g) && Holds(c, g)
  {
    forall g | AllHold(conditions + [c], g)
      ensures AllHold(conditions, g) && Holds(c, g)
    {
      assert forall i :: 0 <= i < |conditions| ==> (conditions + [c])[i] == conditions[i];
      assert (conditions + [c])[|conditions|] == c;
    }
  }

  /** Pushes one condition per supplied parameter; no conditions gives no clause. */
  method BuildWhereClause(f: GroupFilter) returns (w: Option<seq<Cond>>)
    ensures w.None? <==> NoFilter(f)
    ensures forall g :: Satisfies(w, g) <==> Matches(f, g)
  {
    var conditions: seq<Cond> := [];
    if f.id.Some? {
      Push(conditions, IdEq(f.id.value));
      conditions := conditions + [IdEq(f.id.value)];
    }
    assert forall g :: AllHold(conditions, g) <==> (f.id.Some? ==> g.id == f.id.value);
    assert |conditions| == 0 <==> f.id.None?;
    ghost var before := conditions;
    if Truthy(f.slug) {
      Push(conditions, SlugEq(f.slug.value));
      conditions := conditions + [SlugEq(f.slug.value)];
    }
    assert forall g :: AllHold(conditions, g) <==> AllHold(before, g) && (Truthy(f.slug) ==> g.slug == f.slug.value);
    assert |conditions| == 0 <==> f.id.None? && !Truthy(f.slug);
    before := conditions;
    match f.status {
      case AnyStatus =>
      case StatusIs(st) =>
        Push(conditions, StatusEq(st));
        conditions := conditions + [StatusEq(st)];
      case StatusIn(l) =>
        Push(conditions, StatusInList(l));
        conditions := conditions + [StatusInList(l)];
    }
    assert forall g :: AllHold(conditions, g) <==> AllHold(before, g) && StatusOk(f.status, g);
    assert |conditions| == 0 <==> f.id.None? && !Truthy(f.slug) && f.status.AnyStatus?;
    before := conditions;
    if f.category.Some? {
      Push(conditions, CategoryEq(f.category.value));
      conditions := conditions + [CategoryEq(f.category.value)];
    }
    assert forall g :: AllHold(conditions, g) <==> AllHold(before, g) && (f.category.Some? ==> g.category == f.category.value);
    assert |conditions| == 0 <==> f.id.None? && !Truthy(f.slug) && f.status.AnyStatus? && f.category.None?;
    before := conditions;
    if Truthy(f.search) {
      Push(conditions, Search(f.search.value));
      conditions := conditions + [Search(f.search.value)];
    }
    assert forall g :: AllHold(conditions, g) <==> AllHold(before, g) && (Truthy(f.search) ==> SearchHolds(f.search.value, g));
    if |conditions| > 0 {
      w := Some(conditions);
    } else {
      w := None;
    }
  }

  // ---------------------------------------------------------------------------
  // Lookups, listings and counts

  function HasId(id: Id): Group -> bool
  {
    (g: Group) => g.id == id
  }

  /** `findById`. */
  function FindById(rows: seq<Group>, id: Id): (r: Option<Group>)
    ensures r.Some? ==> r.value in rows && r.value.id == id
    ensures r.None? <==> forall i :: 0 <= i < |rows| ==> rows[i].id != id
  {
    Find(rows, HasId(id))
  }

  /** `getMemberCount`: the group's approved memberships. */
  function MemberCount(members: seq<GroupMember>, id: Id): nat
  {
    GroupMemberQueries.CountByGroup(members, id, Some(MemberStatus.Approved), None)
  }

  function ApprovedWithSlug(slug: string): Group -> bool
  {
    (g: Group) => g.slug == slug && g.status == GroupStatus.Approved
  }

  /** `findBySlug`: the approved group with that slug and its statistics; a
      pending or rejected group is not found. */
  function FindBySlug(rows: seq<Group>, members: seq<GroupMember>, slug: string): (r: Option<GroupWithStats>)
    ensures r.None? <==> forall i :: 0 <= i < |rows| ==> !(rows[i].slug == slug && rows[i].status == GroupStatus.Approved)
    ensures r.Some? ==>
      && r.value.group in rows && r.value.group.slug == slug && r.value.group.status == GroupStatus.Approved
      && r.value.memberCount == |GroupMemberQueries.MembersOf(members, r.value.group.id, Some(MemberStatus.Approved), None)|
      && r.value.postCount == 0
  {
    match Find(rows, ApprovedWithSlug(slug))
    case None => None
    case Some(g) => Some(GroupWithStats(g, MemberCount(members, g.id), 0))
  }

  /** `desc(createdAt)`. */
  function Newest(g: Group): Key
  {
    Key(-g.createdAt, 0)
  }

  /** `asc(createdAt)`. */
  function Oldest(g: Group): Key
  {
    Key(g.createdAt, 0)
  }

  function ApprovedFilter(category: Option<GroupCategory>, search: Option<string>): GroupFilter
  {
    GroupFilter(None, None, StatusIs(GroupStatus.Approved), category, search)
  }

  function PendingFilter(): GroupFilter
  {
    GroupFilter(None, None, StatusIs(GroupStatus.Pending), None, None)
  }

  /** All rows `listApproved` selects, newest first, before the window. */
  function ApprovedListing(rows: seq<Group>, category: Option<GroupCategory>, search: Option<string>): seq<Group>
  {
    Listing(rows, Where(ApprovedFilter(category, search)), Newest)
  }

  /** All rows `listPending` selects, oldest first, before the window. */
  function PendingListing(rows: seq<Group>): seq<Group>
  {
    Listing(rows, Where(PendingFilter()), Oldest)
  }

  /** `listApproved`: one page of the approved groups of that category and
      search, newest first. */
  function ListApproved(rows: seq<Group>, category: Option<GroupCategory>, search: Option<string>,
                        limit: Option<int>, offset: Option<int>): (r: Option<seq<Group>>)
    ensures r.None? <==> Default(limit, 20) < 0 || Default(offset, 0) < 0
    ensures r.Some? ==> forall k :: 0 <= k < |r.value| ==>
      r.value[k] in rows && r.value[k].status == GroupStatus.Approved
      && (category.Some? ==> r.value[k].category == category.value)
      && (Truthy(search) ==> SearchHolds(search.value, r.value[k]))
    ensures r.Some? ==> forall i, j :: 0 <= i < j < |r.value| ==> r.value[i].createdAt >= r.value[j].createdAt
    ensures r.Some? ==> IsWindow(r.value, ApprovedListing(rows, category, search), Default(limit, 20), Default(offset, 0))
  {
    var all := ApprovedListing(rows, category, search);
    var r := Page(all, Default(limit, 20), Default(offset, 0));
    if r.Some? then
      PageKeepsOrder(all, Newest, Default(limit, 20), Default(offset, 0));
      r
    else r
  }

  /** `listPending`: one page of the pending groups, oldest first. */
  function ListPending(rows: seq<Group>, limit: Option<int>, offset: Option<int>): (r: Option<seq<Group>>)
    ensures r.None? <==> Default(limit, 20) < 0 || Default(offset, 0) < 0
    ensures r.Some? ==> forall k :: 0 <= k < |r.value| ==> r.value[k] in rows && r.value[k].status == GroupStatus.Pending
    ensures r.Some? ==> forall i, j :: 0 <= i < j < |r.value| ==> r.value[i].createdAt <= r.value[j].createdAt
    ensures r.Some? ==> IsWindow(r.value, PendingListing(rows), Default(limit, 20), Default(offset, 0))
  {
    var all := PendingListing(rows);
    var r := Page(all, Default(limit, 20), Default(offset, 0));
    if r.Some? then
      PageKeepsOrder(all, Oldest, Default(limit, 20), Default(offset, 0));
      r
    else r
  }

  function CountFilter(status: Option<GroupStatus>, category: Option<GroupCategory>, search: Option<string>): GroupFilter
  {
    GroupFilter(None, None, if status.Some? then StatusIs(status.value) else AnyStatus, category, search)
  }

  /** `count`: with the filters of a listing it counts exactly that listing. */
  function Count(rows: seq<Group>, status: Option<GroupStatus>, category: Option<GroupCategory>, search: Option<string>): (n: nat)
    ensures status == Some(GroupStatus.Approved) ==> n == |ApprovedListing(rows, category, search)|
    ensures status == Some(GroupStatus.Pending) && category.None? && search.None? ==> n == |PendingListing(rows)|
    ensures n > 0 <==> exists i :: 0 <= i < |rows| && Matches(CountFilter(status, category, search), rows[i])
  {
    var f := CountFilter(status, category, search);
    CountPositive(rows, Where(f));
    Tables.Count(rows, Where(f))
  }

  // ---------------------------------------------------------------------------
  // Statements

  /** The table after `insert`, or `None` when the slug is taken (the unique
      constraint rejects it). */
  function Inserted(rows: seq<Group>, row: Group): (r: Option<seq<Group>>)
    ensures r.None? <==> exists i :: 0 <= i < |rows| && rows[i].slug == row.slug
    ensures r.Some? ==> r.value == rows + [row]
  {
    if exists i :: 0 <= i < |rows| && rows[i].slug == row.slug then None else Some(rows + [row])
  }

  /** `update(id, { ...data, updatedAt })`: the fields of `UpdateGroupData` that are defined. */
  function SetInfo(name: Option<string>, description: Option<string>, isPublic: Option<bool>, now: int): Group -> Group
  {
    (g: Group) => g.(name := Default(name, g.name),
                     description := if description.Some? then description else g.description,
                     isPublic := Default(isPublic, g.isPublic),
                     updatedAt := now)
  }

  function InfoUpdated(rows: seq<Group>, id: Id, name: Option<string>, description: Option<string>,
                       isPublic: Option<bool>, now: int): seq<Group>
  {
    UpdateKey(rows, GroupId, id, SetInfo(name, description, isPublic, now))
  }

  /** `updateStatus`: the reason is kept for a rejection and cleared otherwise. */
  function SetStatus(status: GroupStatus, reason: Option<string>, now: int): Group -> Group
  {
    (g: Group) => g.(status := status, rejectedReason := if status == GroupStatus.Rejected then reason else None, updatedAt := now)
  }

  function StatusUpdated(rows: seq<Group>, id: Id, status: GroupStatus, reason: Option<string>, now: int): seq<Group>
  {
    UpdateKey(rows, GroupId, id, SetStatus(status, reason, now))
  }

  /** The state after `delete`: the group goes, and with it (`onDelete:
      'cascade'`) every membership and post of the group. */
  function DeletedFrom(s: Db, id: Id): Db
  {
    s.(groups := DeleteKey(s.groups, GroupId, id),
       members := DeleteKey(s.members, MemberGroupId, id),
       posts := DeleteKey(s.posts, PostGroupId, id))
  }

  /** The row `create` writes for `CreateGroupData`. */
  function NewGroup(id: Id, name: string, slug: string, description: Option<string>, category: GroupCategory,
                    isPublic: bool, creatorId: Option<Id>, status: GroupStatus, now: int): Group
  {
    Group(id, name, slug, description, category, creatorId, status, isPublic, None, now, now)
  }

  /** `create`: inserts a group under a fresh id, or fails on a taken slug. */
  method Create(db: Store, name: string, slug: string, description: Option<string>, category: GroupCategory,
                isPublic: bool, creatorId: Option<Id>, status: GroupStatus, now: int) returns (g: Option<Group>)
    modifies db
    ensures var row := NewGroup(old(db.nextId), name, slug, description, category, isPublic, creatorId, status, now);
            match Inserted(old(db.groups), row)
            case None => g.None? && db.State() == old(db.State())
            case Some(t) => g == Some(row) && db.State() == old(db.State()).(groups := t, nextId := old(db.nextId) + 1)
  {
    var row := NewGroup(db.nextId, name, slug, description, category, isPublic, creatorId, status, now);
    var t := Inserted(db.groups, row);
    if t.Some? {
      var id := db.FreshId();
      db.groups := t.value;
      g := Some(row);
    } else {
      g := None;
    }
  }

  /** `update`. */
  method Update(db: Store, id: Id, name: Option<string>, description: Option<string>, isPublic: Option<bool>, now: int)
    modifies db
    ensures db.State() == old(db.State()).(groups := InfoUpdated(old(db.groups), id, name, description, isPublic, now))
  {
    db.groups := InfoUpdated(db.groups, id, name, description, isPublic, now);
  }

  /** `updateStatus`. */
  method UpdateStatus(db: Store, id: Id, status: GroupStatus, reason: Option<string>, now: int)
    modifies db
    ensures db.State() == old(db.State()).(groups := StatusUpdated(old(db.groups), id, status, reason, now))
  {
    db.groups := StatusUpdated(db.groups, id, status, reason, now);
  }

  /** `delete`, with the cascade the schema declares. */
  method Delete(db: Store, id: Id)
    modifies db
    ensures db.State() == DeletedFrom(old(db.State()), id)
  {
    db.groups := DeleteKey(db.groups, GroupId, id);
    db.members := DeleteKey(db.members, MemberGroupId, id);
    db.posts := DeleteKey(db.posts, PostGroupId, id);
  }

  // ---------------------------------------------------------------------------
  // Properties of the statements

  /** `updateStatus` stores the reason exactly for a rejection, on that row only. */
  lemma {:induction false} UpdateStatusReason(rows: seq<Group>, id: Id, status: GroupStatus, reason: Option<string>, now: int)
    ensures |StatusUpdated(rows, id, status, reason, now)| == |rows|
    ensures forall i :: 0 <= i < |rows| ==>
      var n := StatusUpdated(rows, id, status, reason, now)[i];
      if rows[i].id == id then
        n.status == status
        && n.rejectedReason == (if status == GroupStatus.Rejected then reason else None)
        && n == rows[i].(status := status, rejectedReason := n.rejectedReason, updatedAt := now)
      else n == rows[i]
  {
  }

  /** Deleting a group leaves no membership or post of it behind, and every
      other row in place. */
  lemma {:induction false} DeleteCascades(s: Db, id: Id)
    ensures var t := DeletedFrom(s, id);
      && (forall k :: 0 <= k < |t.members| ==> t.members[k].groupId != id)
      && (forall k :: 0 <= k < |t.posts| ==> t.posts[k].groupId != id)
      && (forall k :: 0 <= k < |t.groups| ==> t.groups[k].id != id)
      && (forall k :: 0 <= k < |s.members| && s.members[k].groupId != id ==> s.members[k] in t.members)
      && (forall k :: 0 <= k < |s.posts| && s.posts[k].groupId != id ==> s.posts[k] in t.posts)
      && (forall k :: 0 <= k < |s.groups| && s.groups[k].id != id ==> s.groups[k] in t.groups)
  {
    DeleteKeyRows(s.groups, GroupId, id);
    DeleteKeyRows(s.members, MemberGroupId, id);
    DeleteKeyRows(s.posts, PostGroupId, id);
  }
}
