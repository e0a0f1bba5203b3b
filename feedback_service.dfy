/** The feedback service: a signed-in user files feedback, reads one item by
    id and lists their own feedback. `caller` is what `getCurrentUser`
    returned and `now` the clock. */
module FeedbackService {
  import opened Common
  import opened Tables
  import opened Model
  import opened Database
  import FQ = FeedbackQueries

  type FeedbackResponse<T> = Response<T, FeedbackState>

  /** The row `create` inserts: the caller's, pending, not resolved. */
  function NewFeedback(id: Id, authorId: Id, targetType: TargetType, targetDesc: string, title: string, content: string,
                       isAnonymous: bool, now: int): Feedback
  {
    Feedback(id, authorId, targetType, targetDesc, title, content, isAnonymous, FeedbackStatus.Pending, None, now, now)
  }

  function CreateSpec(s: Db, caller: Option<SessionUser>, targetType: TargetType, targetDesc: string, title: string,
                      content: string, isAnonymous: bool, now: int): (Db, FeedbackResponse<Feedback>)
  {
    if caller.None? then (s, Fail(FeedbackState.Unauthorized))
    else
      var f := NewFeedback(s.nextId, caller.value.id, targetType, targetDesc, title, content, isAnonymous, now);
      (s.(feedbacks := s.feedbacks + [f], nextId := s.nextId + 1), Response(true, Some(f), FeedbackState.CreateSuccess))
  }

  /** `create`: inserts the caller's feedback as pending. The
      `db.transaction` around it holds only this one insert. */
  method Create(db: Store, caller: Option<SessionUser>, targetType: TargetType, targetDesc: string, title: string,
                content: string, isAnonymous: bool, now: int) returns (r: FeedbackResponse<Feedback>)
    modifies db
    ensures (db.State(), r) == CreateSpec(old(db.State()), caller, targetType, targetDesc, title, content, isAnonymous, now)
  {
    if caller.None? {
      return Fail(FeedbackState.Unauthorized);
    }
    var user := caller.value;
    var feedback := FQ.Create(db, user.id, targetType, targetDesc, title, content, isAnonymous, FeedbackStatus.Pending, now);
    r := Response(true, Some(feedback), FeedbackState.CreateSuccess);
  }

  /** `getById` as the service writes it: the guard tests the envelope
      `getCurrentUser` returns, which always exists, so anybody, signed in or
      not, reads any feedback by id. */
  function GetByIdAsWritten(s: Db, id: Id): (r: FeedbackResponse<Feedback>)
    ensures r.state != FeedbackState.Unauthorized
    ensures r.success <==> exists i :: 0 <= i < |s.feedbacks| && s.feedbacks[i].id == id
    ensures r.success ==> r.state == FeedbackState.GetSuccess && r.data.Some? && r.data.value in s.feedbacks && r.data.value.id == id
    ensures !r.success ==> r == Fail(FeedbackState.FeedbackNotFound)
  {
    match FQ.FindById(s.feedbacks, id)
    case None => Fail(FeedbackState.FeedbackNotFound)
    case Some(f) => Response(true, Some(f), FeedbackState.GetSuccess)
  }

  /** `getById` with the guard the other operations use: nobody signed in is
      unauthorised; otherwise the feedback, or `FEEDBACK_NOT_FOUND`. No check
      that the caller wrote it is made. */
  function GetById(s: Db, caller: Option<SessionUser>, id: Id): (r: FeedbackResponse<Feedback>)
    ensures caller.None? ==> r == Fail(FeedbackState.Unauthorized)
    ensures r.success <==> caller.Some? && exists i :: 0 <= i < |s.feedbacks| && s.feedbacks[i].id == id
    ensures r.success ==> r.state == FeedbackState.GetSuccess && r.data.Some? && r.data.value in s.feedbacks && r.data.value.id == id
    ensures caller.Some? && !r.success ==> r == Fail(FeedbackState.FeedbackNotFound)
  {
    if caller.None? then Fail(FeedbackState.Unauthorized)
    else GetByIdAsWritten(s, id)
  }

  /** `list`: one page of the caller's own feedback, newest first, page 1
      and 20 per page by default; the total counts all of the caller's
      feedback with the same filters. */
  function List(s: Db, caller: Option<SessionUser>, status: Option<FeedbackStatus>, search: Option<string>,
                page: Option<int>, limit: Option<int>): (r: FeedbackResponse<FeedbackList>)
    ensures caller.None? ==> r == Fail(FeedbackState.Unauthorized)
    ensures caller.Some? ==> (r.success <==> Default(limit, 20) >= 0 && PageOffset(Default(page, 1), Default(limit, 20)) >= 0)
    ensures caller.Some? && !r.success ==> r == Fail(FeedbackState.ServerError)
    ensures r.success ==> (caller.Some? && r.state == FeedbackState.GetSuccess && r.data.Some?
      && r.data.value.total == |FQ.FeedbackListing(s.feedbacks, Some(caller.value.id), status, search)|
      && |r.data.value.feedbacks| <= Default(limit, 20)
      && (forall k :: 0 <= k < |r.data.value.feedbacks| ==>
            r.data.value.feedbacks[k] in s.feedbacks && r.data.value.feedbacks[k].authorId == caller.value.id
            && FQ.Matches(None, status, search, r.data.value.feedbacks[k]))
      && (forall i, j :: 0 <= i < j < |r.data.value.feedbacks| ==>
            r.data.value.feedbacks[i].createdAt >= r.data.value.feedbacks[j].createdAt)
      && IsWindow(r.data.value.feedbacks, FQ.FeedbackListing(s.feedbacks, Some(caller.value.id), status, search),
                  Default(limit, 20), PageOffset(Default(page, 1), Default(limit, 20))))
  {
    if caller.None? then Fail(FeedbackState.Unauthorized)
    else
      var p := Default(page, 1);
      var size := Default(limit, 20);
      match FQ.FindByAuthorId(s.feedbacks, caller.value.id, status, search, Some(size), Some(PageOffset(p, size)))
      case None => Fail(FeedbackState.ServerError)
      case Some(feedbacks) =>
        Response(true, Some(FeedbackList(feedbacks, FQ.Count(s.feedbacks, Some(caller.value.id), status, search))),
                 FeedbackState.GetSuccess)
  }

  // ---------------------------------------------------------------------------
  // Properties

  /** `create` files exactly one pending, unresolved feedback by the caller
      under a fresh id, and changes nothing else; nobody signed in changes
      nothing. */
  lemma {:induction false} CreateOutcomes(s: Db, caller: Option<SessionUser>, targetType: TargetType, targetDesc: string, title: string,
                       content: string, isAnonymous: bool, now: int)
    ensures var (t, r) := CreateSpec(s, caller, targetType, targetDesc, title, content, isAnonymous, now);
      && (r.success <==> caller.Some?)
      && (!r.success ==> t == s && r == Fail(FeedbackState.Unauthorized))
      && (r.success ==> (
            && r.data.Some? && r.data.value.id == s.nextId && r.data.value.authorId == caller.value.id
            && r.data.value.status == FeedbackStatus.Pending && r.data.value.resolvedAt.None?
            && r.data.value.targetType == targetType && r.data.value.targetDesc == targetDesc
            && r.data.value.title == title && r.data.value.content == content && r.data.value.isAnonymous == isAnonymous
            && t == s.(feedbacks := s.feedbacks + [r.data.value], nextId := s.nextId + 1)))
  {
  }

  /** A feedback the caller just filed is in their listing with no filters. */
  lemma {:induction false} CreatedThenListed(s: Db, caller: Option<SessionUser>, targetType: TargetType, targetDesc: string, title: string,
                          content: string, isAnonymous: bool, now: int)
    requires caller.Some?
    ensures var (t, r) := CreateSpec(s, caller, targetType, targetDesc, title, content, isAnonymous, now);
      r.data.Some? && r.data.value in FQ.FeedbackListing(t.feedbacks, Some(caller.value.id), None, None)
      && FQ.Count(t.feedbacks, Some(caller.value.id), None, None) == FQ.Count(s.feedbacks, Some(caller.value.id), None, None) + 1
  {
    var (t, r) := CreateSpec(s, caller, targetType, targetDesc, title, content, isAnonymous, now);
    var f := r.data.value;
    var w := FQ.Where(Some(caller.value.id), None, None);
    CountAppend(s.feedbacks, [f], w);
    CountSingle(f, w);
    var listing := FQ.FeedbackListing(t.feedbacks, Some(caller.value.id), None, None);
    assert multiset(listing) == multiset(Filter(t.feedbacks, w));
    assert t.feedbacks[|s.feedbacks|] == f;
    assert f in Filter(t.feedbacks, w);
    assert f in multiset(listing);
  }

  /** The guard `getById` evidently means to apply: the corrected version
      answers as written for a signed-in caller and refuses everyone else. */
  lemma {:induction false} GetByIdGuard(s: Db, id: Id)
    ensures GetById(s, None, id) == Fail(FeedbackState.Unauthorized)
    ensures GetByIdAsWritten(s, id).state != FeedbackState.Unauthorized
    ensures forall u :: GetById(s, Some(u), id) == GetByIdAsWritten(s, id)
  {
  }

  /** `list` skips none of the caller's feedback: with a positive page size,
      every feedback they wrote that passes the filters is on some page. */
  lemma {:induction false} ListShowsEvery(s: Db, user: SessionUser, status: Option<FeedbackStatus>, search: Option<string>,
                                          size: int, i: nat)
    requires size > 0 && i < |s.feedbacks| && FQ.Matches(Some(user.id), status, search, s.feedbacks[i])
    ensures exists page :: page >= 1 && List(s, Some(user), status, search, Some(page), Some(size)).success
                           && s.feedbacks[i] in List(s, Some(user), status, search, Some(page), Some(size)).data.value.feedbacks
  {
    var listing := FQ.FeedbackListing(s.feedbacks, Some(user.id), status, search);
    ListingPagesCover(s.feedbacks, FQ.Where(Some(user.id), status, search), FQ.Newest, i, size);
    var page :| page >= 1 && Page(listing, size, PageOffset(page, size)).Some?
                && s.feedbacks[i] in Page(listing, size, PageOffset(page, size)).value;
    var r := List(s, Some(user), status, search, Some(page), Some(size));
    WindowUnique(r.data.value.feedbacks, Page(listing, size, PageOffset(page, size)).value, listing, size, PageOffset(page, size));
  }

  /** `list` shows a signed-in caller nobody else's feedback, and on the
      first page, large enough, all of their own. */
  lemma {:induction false} ListOnlyOwn(s: Db, caller: Option<SessionUser>, status: Option<FeedbackStatus>, search: Option<string>, limit: nat)
    requires caller.Some?
    requires limit >= FQ.Count(s.feedbacks, Some(caller.value.id), status, search)
    ensures var r := List(s, caller, status, search, Some(1), Some(limit));
      r.success && r.data.value.feedbacks == FQ.FeedbackListing(s.feedbacks, Some(caller.value.id), status, search)
      && r.data.value.total == |r.data.value.feedbacks|
  {
  }
}
