/** The feedback table: the condition list its listings and its count build,
    the listings, the count, and the statements that insert and delete. */
module FeedbackQueries {
  import opened Common
  import opened Tables
  import opened Model
  import opened Database

  // ---------------------------------------------------------------------------
  // WHERE

  /** One SQL condition of the feedback queries. */
  datatype Cond =
    | AuthorIdEq(authorId: Id)
    | StatusEq(status: FeedbackStatus)
    | Search(search: string)

  /** The search condition: `title ilike OR content ilike`. */
  predicate SearchHolds(search: string, f: Feedback)
  {
    ILike(f.title, search) || ILike(f.content, search)
  }

  predicate Holds(c: Cond, f: Feedback)
  {
    match c
    case AuthorIdEq(a) => f.authorId == a
    case StatusEq(s) => f.status == s
    case Search(s) => SearchHolds(s, f)
  }

  predicate AllHold(conditions: seq<Cond>, f: Feedback)
  {
    forall i :: 0 <= i < |conditions| ==> Holds(conditions[i], f)
  }

  /** What the parameters mean: every supplied filter holds. A status is an
      enum value and so always truthy; a search string is used only when it
      is not empty. */
  predicate Matches(authorId: Option<Id>, status: Option<FeedbackStatus>, search: Option<string>, f: Feedback)
  {
    && (authorId.Some? ==> f.authorId == authorId.value)
    && (status.Some? ==> f.status == status.value)
    && (Truthy(search) ==> SearchHolds(search.value, f))
  }

  function Where(authorId: Option<Id>, status: Option<FeedbackStatus>, search: Option<string>): Feedback -> bool
  {
    (f: Feedback) => Matches(authorId, status, search, f)
  }

  lemma {:induction false} Push(conditions: seq<Cond>, c: Cond)
    ensures forall f :: AllHold(conditions + [c], f) <==> AllHold(conditions, f) && Holds(c, f)
  {
    forall f | AllHold(conditions + [c], f)
      ensures AllHold(conditions, f) && Holds(c, f)
    {
      assert forall i :: 0 <= i < |conditions| ==> (conditions + [c])[i] == conditions[i];
      assert (conditions + [c])[|conditions|] == c;
    }
  }

  /** The conditions array `findByAuthorId`, `findAll` and `count` push, one
      entry per supplied parameter; an empty array is no where-clause. */
  method BuildConditions(authorId: Option<Id>, status: Option<FeedbackStatus>, search: Option<string>)
    returns (conditions: seq<Cond>)
    ensures |conditions| == 0 <==> authorId.None? && status.None? && !Truthy(search)
    ensures forall f :: AllHold(conditions, f) <==> Matches(authorId, status, search, f)
  {
    conditions := [];
    if authorId.Some? {
      Push(conditions, AuthorIdEq(authorId.value));
      conditions := conditions + [AuthorIdEq(authorId.value)];
    }
    assert forall f :: AllHold(conditions, f) <==> (authorId.Some? ==> f.authorId == authorId.value);
    ghost var before := conditions;
    if status.Some? {
      Push(conditions, StatusEq(status.value));
      conditions := conditions + [StatusEq(status.value)];
    }
    assert forall f :: AllHold(conditions, f) <==> AllHold(before, f) && (status.Some? ==> f.status == status.value);
    before := conditions;
    if Truthy(search) {
      Push(conditions, Search(search.value));
      conditions := conditions + [Search(search.value)];
    }
    assert forall f :: AllHold(conditions, f) <==> AllHold(before, f) && (Truthy(search) ==> SearchHolds(search.value, f));
  }

  // ---------------------------------------------------------------------------
  // Lookups, listings and counts

  function HasId(id: Id): Feedback -> bool
  {
    (f: Feedback) => f.id == id
  }

  /** `findById` (and `findByIdWithAuthor`, without the author columns). */
  function FindById(rows: seq<Feedback>, id: Id): (r: Option<Feedback>)
    ensures r.Some? ==> r.value in rows && r.value.id == id
    ensures r.None? <==> forall i :: 0 <= i < |rows| ==> rows[i].id != id
  {
    Find(rows, HasId(id))
  }

  /** `desc(createdAt)`. */
  function Newest(f: Feedback): Key
  {
    Key(-f.createdAt, 0)
  }

  /** Every row a listing with these filters selects, newest first. */
  function FeedbackListing(rows: seq<Feedback>, authorId: Option<Id>, status: Option<FeedbackStatus>, search: Option<string>): seq<Feedback>
  {
    Listing(rows, Where(authorId, status, search), Newest)
  }

  /** `findByAuthorId`: one page of the author's feedback, newest first. */
  function FindByAuthorId(rows: seq<Feedback>, authorId: Id, status: Option<FeedbackStatus>, search: Option<string>,
                          limit: Option<int>, offset: Option<int>): (r: Option<seq<Feedback>>)
    ensures r.None? <==> Default(limit, 20) < 0 || Default(offset, 0) < 0
    ensures r.Some? ==> forall k :: 0 <= k < |r.value| ==>
      r.value[k] in rows && r.value[k].authorId == authorId
      && (status.Some? ==> r.value[k].status == status.value)
      && (Truthy(search) ==> SearchHolds(search.value, r.value[k]))
    ensures r.Some? ==> forall i, j :: 0 <= i < j < |r.value| ==> r.value[i].createdAt >= r.value[j].createdAt
    ensures r.Some? && Default(offset, 0) == 0 && Default(limit, 20) >= Count(rows, Some(authorId), status, search) ==>
      r.value == FeedbackListing(rows, Some(authorId), status, search)
    ensures r.Some? ==> IsWindow(r.value, FeedbackListing(rows, Some(authorId), status, search), Default(limit, 20), Default(offset, 0))
  {
    var all := FeedbackListing(rows, Some(authorId), status, search);
    var r := Page(all, Default(limit, 20), Default(offset, 0));
    if r.Some? then
      PageKeepsOrder(all, Newest, Default(limit, 20), Default(offset, 0));
      r
    else r
  }

  /** `findAll`: the same filters without the author restriction. */
  function FindAll(rows: seq<Feedback>, status: Option<FeedbackStatus>, search: Option<string>,
                   limit: Option<int>, offset: Option<int>): (r: Option<seq<Feedback>>)
    ensures r.None? <==> Default(limit, 20) < 0 || Default(offset, 0) < 0
    ensures r.Some? ==> forall k :: 0 <= k < |r.value| ==>
      r.value[k] in rows
      && (status.Some? ==> r.value[k].status == status.value)
      && (Truthy(search) ==> SearchHolds(search.value, r.value[k]))
    ensures r.Some? ==> forall i, j :: 0 <= i < j < |r.value| ==> r.value[i].createdAt >= r.value[j].createdAt
    ensures r.Some? && Default(offset, 0) == 0 && Default(limit, 20) >= Count(rows, None, status, search) ==>
      r.value == FeedbackListing(rows, None, status, search)
    ensures r.Some? ==> IsWindow(r.value, FeedbackListing(rows, None, status, search), Default(limit, 20), Default(offset, 0))
  {
    var all := FeedbackListing(rows, None, status, search);
    var r := Page(all, Default(limit, 20), Default(offset, 0));
    if r.Some? then
      PageKeepsOrder(all, Newest, Default(limit, 20), Default(offset, 0));
      r
    else r
  }

  /** `count`: the number of rows the listing with the same filters selects
      before paging. */
  function Count(rows: seq<Feedback>, authorId: Option<Id>, status: Option<FeedbackStatus>, search: Option<string>): (n: nat)
    ensures n == |FeedbackListing(rows, authorId, status, search)|
    ensures n > 0 <==> exists i :: 0 <= i < |rows| && Matches(authorId, status, search, rows[i])
  {
    CountPositive(rows, Where(authorId, status, search));
    Tables.Count(rows, Where(authorId, status, search))
  }

  // ---------------------------------------------------------------------------
  // Statements

  /** `create`: inserts the row under a fresh id and returns it. */
  method Create(db: Store, authorId: Id, targetType: TargetType, targetDesc: string, title: string, content: string,
                isAnonymous: bool, status: FeedbackStatus, now: int) returns (f: Feedback)
    modifies db
    ensures f == Feedback(old(db.nextId), authorId, targetType, targetDesc, title, content, isAnonymous, status, None, now, now)
    ensures db.State() == old(db.State()).(feedbacks := old(db.feedbacks) + [f], nextId := old(db.nextId) + 1)
  {
    var id := db.FreshId();
    f := Feedback(id, authorId, targetType, targetDesc, title, content, isAnonymous, status, None, now, now);
    db.feedbacks := db.feedbacks + [f];
  }

  function Deleted(rows: seq<Feedback>, id: Id): seq<Feedback>
  {
    DeleteKey(rows, FeedbackId, id)
  }

  /** `delete ... returning`: removes the row with the id and returns it, or nothing. */
  method Delete(db: Store, id: Id) returns (f: Option<Feedback>)
    modifies db
    ensures f == FindById(old(db.feedbacks), id)
    ensures db.State() == old(db.State()).(feedbacks := Deleted(old(db.feedbacks), id))
  {
    f := FindById(db.feedbacks, id);
    db.feedbacks := Deleted(db.feedbacks, id);
  }

  /** With unique ids, `delete` removes exactly the returned row and keeps
      the others in order; with no such row it changes nothing. */
  lemma {:induction false} DeleteOnlyThatRow(rows: seq<Feedback>, id: Id)
    requires UniqueKeys(rows, FeedbackId)
    ensures FindById(rows, id).None? ==> Deleted(rows, id) == rows
    ensures FindById(rows, id).Some? ==> exists i :: 0 <= i < |rows| && rows[i] == FindById(rows, id).value
                                                    && Deleted(rows, id) == rows[..i] + rows[i + 1..]
  {
    var r := FindById(rows, id);
    if r.None? {
      DeleteKeyAbsent(rows, FeedbackId, id);
    } else {
      var i :| 0 <= i < |rows| && rows[i] == r.value;
      DeleteKeyUnique(rows, FeedbackId, i);
    }
  }
}
