/** The records of the store, the enumerations they use, the session, and the
    response envelopes and status codes the services return. Row ids are the
    uuids of the database, abstracted to natural numbers; timestamps are
    integers supplied by the caller. */
module Model {
  import opened Common

  type Id = nat

  // ---------------------------------------------------------------------------
  // Enumerations, in the order the constants declare them

  datatype UserRole = Student | Moderator | Admin

  datatype GroupCategory = Club | Project | Interest | Course | Organization

  datatype GroupStatus = Pending | Approved | Rejected

  datatype MemberRole = Member | Admin

  datatype MemberStatus = Pending | Approved | Rejected

  datatype PostType = Announcement | Discussion

  datatype FeedbackStatus = Pending | Processing | Resolved | Invalid

  datatype TargetType = Academic | Office | General

  /** Position of a member role in the declared enum `['member', 'admin']`,
      which is the order `asc(role)` sorts by. */
  function RoleRank(r: MemberRole): int
  {
    match r
    case Member => 0
    case Admin => 1
  }

  // ---------------------------------------------------------------------------
  // Rows

  /** A user account as the authentication service reads it. */
  datatype User = User(id: Id, email: string, name: Option<string>, passwordHash: string, role: UserRole)

  datatype Group = Group(
    id: Id,
    name: string,
    slug: string,
    description: Option<string>,
    category: GroupCategory,
    creatorId: Option<Id>,
    status: GroupStatus,
    isPublic: bool,
    rejectedReason: Option<string>,
    createdAt: int,
    updatedAt: int)

  datatype GroupMember = GroupMember(
    id: Id,
    groupId: Id,
    userId: Id,
    role: MemberRole,
    status: MemberStatus,
    joinedAt: int,
    updatedAt: int)

  datatype GroupPost = GroupPost(
    id: Id,
    groupId: Id,
    authorId: Option<Id>,
    title: string,
    content: string,
    postType: PostType,
    isPinned: bool,
    createdAt: int,
    updatedAt: int)

  datatype Feedback = Feedback(
    id: Id,
    authorId: Id,
    targetType: TargetType,
    targetDesc: string,
    title: string,
    content: string,
    isAnonymous: bool,
    status: FeedbackStatus,
    resolvedAt: Option<int>,
    createdAt: int,
    updatedAt: int)

  /** Primary keys and the other key columns, as function values for the table helpers. */
  function UserId(u: User): Id { u.id }
  function UserEmail(u: User): string { u.email }
  function GroupId(g: Group): Id { g.id }
  function GroupSlug(g: Group): string { g.slug }
  function MemberId(m: GroupMember): Id { m.id }
  function MemberGroupId(m: GroupMember): Id { m.groupId }
  function MemberPair(m: GroupMember): (Id, Id) { (m.groupId, m.userId) }
  function PostId(p: GroupPost): Id { p.id }
  function PostGroupId(p: GroupPost): Id { p.groupId }
  function FeedbackId(f: Feedback): Id { f.id }

  // ---------------------------------------------------------------------------
  // Session

  /** The fields the cookie session holds; every one may be missing. */
  datatype Session = Session(
    id: Option<Id>,
    email: Option<string>,
    role: Option<UserRole>,
    name: Option<string>,
    lastUpdated: Option<int>)

  /** A cleared session. */
  const EmptySession := Session(None, None, None, None, None)

  /** The identity `getCurrentUser` hands to the services. */
  datatype SessionUser = SessionUser(id: Id, email: string, name: Option<string>, role: UserRole, lastUpdated: int)

  // ---------------------------------------------------------------------------
  // Envelopes

  /** `{ success, data?, state }` as every service returns it. */
  datatype Response<T, S> = Response(success: bool, data: Option<T>, state: S)

  /** One page of a listing and the total the listing reports beside it. */
  datatype PageData<T> = PageData(items: seq<T>, total: nat, page: int, pageSize: int)

  /** A group as `findBySlug` returns it, with its statistics. */
  datatype GroupWithStats = GroupWithStats(group: Group, memberCount: nat, postCount: nat)

  /** The data of a successful feedback listing. */
  datatype FeedbackList = FeedbackList(feedbacks: seq<Feedback>, total: nat)

  function Fail<T, S>(state: S): Response<T, S>
  {
    Response(false, None, state)
  }

  // ---------------------------------------------------------------------------
  // Status codes

  /** The states of the group service. The last three are used by the service
      but not declared among the group constants, so they carry no code. */
  datatype GroupState =
    | GetSuccess | CreateSuccess | UpdateSuccess | DeleteSuccess
    | AlreadyExists | NotFound | Unauthorized | Forbidden | ServerError
    | InvalidStatus | ApproveSuccess | RejectSuccess
  {
    function Code(): Option<string>
    {
      match this
      case GetSuccess => Some("GET_SUCCESS")
      case CreateSuccess => Some("CREATE_SUCCESS")
      case UpdateSuccess => Some("UPDATE_SUCCESS")
      case DeleteSuccess => Some("DELETE_SUCCESS")
      case AlreadyExists => Some("SLUG_EXISTS")
      case NotFound => Some("GROUP_NOT_FOUND")
      case Unauthorized => Some("UNAUTHORIZED")
      case Forbidden => Some("FORBIDDEN")
      case ServerError => Some("SERVER_ERROR")
      case InvalidStatus => None
      case ApproveSuccess => None
      case RejectSuccess => None
    }
  }

  /** The states of the membership operations. */
  datatype MemberState =
    | GetSuccess | JoinSuccess | LeaveSuccess | UpdateSuccess | DeleteSuccess | ApproveSuccess
    | GroupNotFound | NotFound | Unauthorized | LastAdmin | Forbidden | InvalidStatus
    | AlreadyExists | AlreadySubmit | ServerError
  {
    function Code(): string
    {
      match this
      case GetSuccess => "GET_SUCCESS"
      case JoinSuccess => "JOIN_SUCCESS"
      case LeaveSuccess => "LEAVE_SUCCESS"
      case UpdateSuccess => "UPDATE_SUCCESS"
      case DeleteSuccess => "DELETE_SUCCESS"
      case ApproveSuccess => "APPROVE_SUCCESS"
      case GroupNotFound => "GROUP_NOT_FOUND"
      case NotFound => "MEMBER_NOT_FOUND"
      case Unauthorized => "UNAUTHORIZED"
      case LastAdmin => "LAST_ADMIN"
      case Forbidden => "FORBIDDEN"
      case InvalidStatus => "INVALID_STATUS"
      case AlreadyExists => "ALREADY_EXISTS"
      case AlreadySubmit => "ALREADY_SUBMIT"
      case ServerError => "SERVER_ERROR"
    }
  }

  /** The states of the post service. Its not-found code is the membership one. */
  datatype PostState =
    | CreateSuccess | GetSuccess | PinSuccess | UnpinSuccess | UpdateSuccess | DeleteSuccess
    | GroupNotFound | NotFound | Unauthorized | PinLimitReached | Forbidden | ServerError
  {
    function Code(): string
    {
      match this
      case CreateSuccess => "CREATE_SUCCESS"
      case GetSuccess => "GET_SUCCESS"
      case PinSuccess => "PIN_SUCCESS"
      case UnpinSuccess => "UNPIN_SUCCESS"
      case UpdateSuccess => "UPDATE_SUCCESS"
      case DeleteSuccess => "DELETE_SUCCESS"
      case GroupNotFound => "GROUP_NOT_FOUND"
      case NotFound => "MEMBER_NOT_FOUND"
      case Unauthorized => "UNAUTHORIZED"
      case PinLimitReached => "PIN_LIMIT_REACHED"
      case Forbidden => "FORBIDDEN"
      case ServerError => "SERVER_ERROR"
    }
  }

  /** The statuses of the feedback service. */
  datatype FeedbackState =
    | FeedbackNotFound | Unauthorized | Forbidden | GetSuccess | ServerError
    | CreateSuccess | UpdateSuccess | DeleteSuccess

  /** The statuses of the authentication service. */
  datatype SessionStatus = GetError | GetSuccess | ServerError
  datatype LoginStatus = UserNotFound | InvalidPassword | LoginSuccess | ServerError
  datatype SignupStatus = EmailExists | AutoLogin | SignupSuccess | ServerError
  datatype LogoutStatus = LogoutSuccess | ServerError
}
