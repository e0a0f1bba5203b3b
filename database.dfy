/** The relational store: the five tables, the cookie session and the source of
    fresh row ids, as a mutable object, together with a value snapshot of it and
    the constraints the schema declares. */
module Database {
  import opened Common
  import opened Tables
  import opened Model

  /** A snapshot of the whole store. `nextId` is the next fresh uuid. */
  datatype Db = Db(
    users: seq<User>,
    groups: seq<Group>,
    members: seq<GroupMember>,
    posts: seq<GroupPost>,
    feedbacks: seq<Feedback>,
    session: Session,
    nextId: nat)

  const EmptyDb := Db([], [], [], [], [], EmptySession, 0)

  /** Some group has that id. */
  predicate HasGroup(groups: seq<Group>, id: Id)
  {
    exists j :: 0 <= j < |groups| && groups[j].id == id
  }

  /** The foreign keys `group_id` of memberships and posts: each names an existing group. */
  ghost predicate GroupRefs(s: Db)
  {
    && (forall i :: 0 <= i < |s.members| ==> HasGroup(s.groups, s.members[i].groupId))
    && (forall i :: 0 <= i < |s.posts| ==> HasGroup(s.groups, s.posts[i].groupId))
  }

  /** The constraints of the schema that the model keeps: primary keys, the
      unique email, the unique slug and the unique (group, user) membership,
      the group foreign keys, and the freshness of the id counter. */
  ghost predicate Constraints(s: Db)
  {
    && GroupRefs(s)
    && UniqueKeys(s.users, UserId) && KeysBelow(s.users, UserId, s.nextId)
    && UniqueKeys(s.users, UserEmail)
    && UniqueKeys(s.groups, GroupId) && KeysBelow(s.groups, GroupId, s.nextId)
    && UniqueKeys(s.groups, GroupSlug)
    && UniqueKeys(s.members, MemberId) && KeysBelow(s.members, MemberId, s.nextId)
    && UniqueKeys(s.members, MemberPair)
    && UniqueKeys(s.posts, PostId) && KeysBelow(s.posts, PostId, s.nextId)
    && UniqueKeys(s.feedbacks, FeedbackId) && KeysBelow(s.feedbacks, FeedbackId, s.nextId)
  }

  lemma {:induction false} EmptyDbConstraints()
    ensures Constraints(EmptyDb)
  {
  }

  /** The database and the session store of one running server. */
  class Store {
    var users: seq<User>
    var groups: seq<Group>
    var members: seq<GroupMember>
    var posts: seq<GroupPost>
    var feedbacks: seq<Feedback>
    var session: Session
    var nextId: nat

    function State(): Db
      reads this
    {
      Db(users, groups, members, posts, feedbacks, session, nextId)
    }

    constructor ()
      ensures State() == EmptyDb
    {
      users, groups, members, posts, feedbacks := [], [], [], [], [];
      session := EmptySession;
      nextId := 0;
    }

    /** `uuid().defaultRandom()`: hands out an id no row has yet. */
    method FreshId() returns (id: Id)
      modifies this
      ensures id == old(nextId)
      ensures State() == old(State()).(nextId := old(nextId) + 1)
    {
      id := nextId;
      nextId := nextId + 1;
    }

  }
}
