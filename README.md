# coeer business rules in Dafny

This project models the server core of *coeer*, a campus community site. On it, students:

- sign up and log in;
- create interest groups, which a reviewer approves or rejects;
- join groups, publicly or by request, and manage their members;
- post discussions and announcements, and pin up to three of them per group;
- file feedback.

The model keeps the decision logic that sits between the session lookup and the database calls:

- the authorisation gates (creator, approved member, approved group admin);
- the status machines (a group goes pending to approved or rejected, and only from pending; a membership goes pending to approved);
- the checks that guard the site's invariants (the last admin, the pin limit, a duplicate join);
- the filter, count, order and paging rules of the query modules.

The relational store is a `Database.Store` object. It holds one `seq` per table (users, groups, group members, group posts, feedbacks), the cookie session, and an id counter that stands in for `uuid().defaultRandom()`. The schema's constraints are the predicate `Database.Constraints`:

- unique ids;
- a unique email;
- a unique group slug;
- a unique (group, user) pair per membership;
- every membership and post names an existing group;
- no id at or above the counter.

Every service operation that changes the store has two parts:

- a specification function `XSpec(s: Db, caller, ...) : (Db, Response)`;
- a method `X(db: Store, caller, ...)` that performs the source's steps on the store and is proved to end in exactly `XSpec(old(db.State()), ...)`.

Read-only operations are functions over a snapshot. The caller is the `Option<SessionUser>` that `getCurrentUser` yields (`AuthService.Caller`).

The module `Invariants` proves that every state-changing request, from any caller, keeps three invariants:
- the schema's constraints;
- at most `MaxPinnedPosts` (3) pinned posts per group;
- at least one approved admin in every group.

It also proves that every request leaves a reviewed group's status alone. `Invariants.Run` replays any sequence of requests from the empty store. `RunKeeps` and `RunReviewsFinal` lift these facts to whole runs.

Modules, following the source's layout:

| module | models |
|---|---|
| `Common` | optional values, `const { x = d } = params` defaults, the page offset, `ilike` as a substring test |
| `Tables` | generic row operations: `Count`, `Filter`, `Find`, delete or update by key, `ORDER BY` with one fixed order among rows of equal key, `LIMIT/OFFSET`; their lemmas |
| `Model` | the records, enums and response codes the services return |
| `Database` | the store, its snapshot `Db`, its constraints and fresh ids |
| `UserQueries`, `GroupQueries`, `GroupMemberQueries`, `GroupPostQueries`, `FeedbackQueries` | `src/server/database/queries/*.ts` |
| `AuthService`, `GroupService`, `GroupPostService`, `FeedbackService` | `src/server/services/*.ts` |
| `GroupServiceLemmas`, `GroupPostServiceLemmas` | what the group and post services promise, operation by operation |
| `Invariants` | the preservation lemmas and any sequence of requests |

## Model

| member | source | states |
|---|---|---|
| AuthService.GetCurrentUser | src/server/services/AuthService.ts:10-32 | succeeds exactly when the session has an id, a non-empty email, a role and a non-zero lastUpdated; the user then carries those fields with the name as stored (null when absent); otherwise `GET_ERROR` |
| AuthService.Login | src/server/services/AuthService.ts:34-63 | the method ends in exactly the state and answer of `LoginSpec` on the state it started from |
| AuthService.Signup | src/server/services/AuthService.ts:65-118 | the method ends in exactly the state and answer of `SignupSpec` |
| AuthService.Logout | src/server/services/AuthService.ts:120-128 | the method ends in exactly the state and answer of `LogoutSpec` |
| AuthService.LoginFailures | src/server/services/AuthService.ts:36-46 | an unknown email gives `USER_NOT_FOUND`, a failed password check gives `INVALID_PASSWORD`, and every failed login leaves the store and session unchanged |
| AuthService.LoginThenCurrentUser | src/server/services/AuthService.ts:48-59 | a successful login changes only the session, to the matching user's id, email, role and name, and the next `getCurrentUser` reads that user back |
| AuthService.SignupNewEmail | src/server/services/AuthService.ts:93-113 | a new email inserts exactly one student account with no name under a fresh id, logs it in, answers `SIGNUP_SUCCESS` and keeps the store's constraints |
| AuthService.SignupExistingEmail | src/server/services/AuthService.ts:69-90 | an existing email never creates an account: a wrong password gives `EMAIL_EXISTS` and changes nothing, a right one only logs the owner in with `AUTO_LOGIN` |
| AuthService.LogoutSignsOut | src/server/services/AuthService.ts:120-124 | logout changes only the session, after which nobody is signed in |
| Database.Store.FreshId | src/server/database/schemas/groups.ts:9 | returns the counter's value and advances the counter by one, changing nothing else; `Constraints` keeps every id in the store below the counter, so the id is new |
| UserQueries.FindByEmail | src/server/database/queries/users.ts:27-32 | the account found has that email and belongs to the table; none is found exactly when no account has that email |
| UserQueries.Create | src/server/database/queries/users.ts:8-11 | appends the account under a fresh id and changes nothing else |
| FeedbackQueries.BuildConditions | src/server/database/queries/feedbacks.ts:42-82 | the conditions pushed are empty exactly when no filter is given; a row passes them all exactly when it has the author and status given and `title` or `content` contains the search |
| FeedbackQueries.FindById | src/server/database/queries/feedbacks.ts:21-24 | the row returned has the id; none is returned exactly when no row has it |
| FeedbackQueries.FindByAuthorId | src/server/database/queries/feedbacks.ts:42-82 | fails only on a negative limit or offset (20 by default); the page is the window at the offset, at most `limit` long, of `FeedbackListing`, which holds exactly the author's rows that match the filters, newest first; so every row is the author's and matches, newest first, and with offset 0 and a large enough limit the page is the whole listing |
| FeedbackQueries.FindAll | src/server/database/queries/feedbacks.ts:84-126 | the same page rules as `findByAuthorId`: the window of `FeedbackListing` without the author restriction, which holds exactly the rows that match the status and search filters, newest first |
| FeedbackQueries.Count | src/server/database/queries/feedbacks.ts:128-158 | equals the length of the unpaged listing with the same filters, so `findByAuthorId` with an author and `findAll` without one; it is positive exactly when some row matches |
| FeedbackQueries.Create | src/server/database/queries/feedbacks.ts:7-10 | appends the given row under a fresh id, with no resolution time, and returns it |
| FeedbackQueries.Delete | src/server/database/queries/feedbacks.ts:12-19 | returns the row with the id (or nothing) and removes the rows with that id |
| FeedbackQueries.DeleteOnlyThatRow | src/server/database/queries/feedbacks.ts:12-19 | with unique ids, deleting a missing id keeps the table; otherwise exactly the returned row is removed and the others keep their order |
| FeedbackService.Create | src/server/services/FeedbackService.ts:14-53 | the method ends in exactly the state and answer of `CreateSpec` |
| FeedbackService.CreateOutcomes | src/server/services/FeedbackService.ts:16-31 | no caller gives `UNAUTHORIZED` and changes nothing; otherwise exactly one pending, unresolved feedback by the caller is added under a fresh id, copying the input's target type and description, title, content and anonymity flag |
| FeedbackService.CreatedThenListed | src/server/services/FeedbackService.ts:22-31 | a feedback just filed appears in its author's unfiltered listing and raises their count by one |
| FeedbackService.GetByIdAsWritten | src/server/services/FeedbackService.ts:55-84 | as written: never `UNAUTHORIZED`; succeeds exactly when a feedback has the id and returns it; otherwise `FEEDBACK_NOT_FOUND` |
| FeedbackService.GetById | src/server/services/FeedbackService.ts:57-66 | corrected guard: no caller is `UNAUTHORIZED`; a signed-in caller gets the feedback with the id or `FEEDBACK_NOT_FOUND` |
| FeedbackService.GetByIdGuard | src/server/services/FeedbackService.ts:57-60 | the corrected version refuses the signed-out caller that the written version serves, and agrees with it for every signed-in caller |
| FeedbackService.List | src/server/services/FeedbackService.ts:86-143 | page 1 and 20 per page by default; the page is the window at offset (page-1)×limit of the caller's filtered listing, so only the caller's own feedback, matching the filters, newest first; the total counts that listing; a negative window is `SERVER_ERROR` |
| FeedbackService.ListShowsEvery | src/server/services/FeedbackService.ts:86-143 | with a positive page size, every feedback of the caller that passes the filters is on some page |
| FeedbackService.ListOnlyOwn | src/server/services/FeedbackService.ts:116-127 | page 1 with a limit of at least the caller's count returns exactly the caller's whole filtered listing, and the total is its length |
| GroupMemberQueries.BuildWhereClause | src/server/database/queries/groupMembers.ts:10-40 | no clause exactly when no filter is given; a row passes the clause exactly when it satisfies every filter given (group, user, one status or a status list, role) |
| GroupMemberQueries.FindById | src/server/database/queries/groupMembers.ts:55-58 | the row returned has the id; none exactly when no row has it |
| GroupMemberQueries.FindByGroupAndUser | src/server/database/queries/groupMembers.ts:61-72 | the row returned has that group and user; none exactly when no row has the pair |
| GroupMemberQueries.IsRole | src/server/database/queries/groupMembers.ts:179-189 | true exactly when some row has the group, the user, the role and status approved |
| GroupMemberQueries.CountByGroup | src/server/database/queries/groupMembers.ts:149-161 | equals the length of the group's unpaged member listing with the same status and role filters; positive exactly when some row matches |
| GroupMemberQueries.CountByUser | src/server/database/queries/groupMembers.ts:164-176 | positive exactly when some row of the user matches the filters |
| GroupMemberQueries.FindMembersByGroup | src/server/database/queries/groupMembers.ts:75-100 | fails only on a negative window (50 per page by default); the page is the window at the offset of `MembersOf`, which holds exactly the group's rows that match the status and role filters, ordered by role in the enum's declared order (members before admins, src/shared/constants/groupMembers.ts:7) and then by earlier join |
| GroupMemberQueries.FindGroupsByUser | src/server/database/queries/groupMembers.ts:103-128 | fails only on a negative window (20 by default); the page is the window at the offset of `GroupsOf`, which holds exactly the user's rows with the status given (approved when none is), newest join first |
| GroupMemberQueries.Inserted | src/server/database/schemas/groupMembers.ts:22 | an insert repeating a (group, user) pair is refused; any other appends the row |
| GroupMemberQueries.Create | src/server/database/queries/groupMembers.ts:44-47 | appends the membership under a fresh id, or, on a repeated pair, changes nothing and reports the failure |
| GroupMemberQueries.Delete | src/server/database/queries/groupMembers.ts:50-52 | the table loses the rows with that id and nothing else changes |
| GroupMemberQueries.DeleteOnlyThatRow | src/server/database/queries/groupMembers.ts:50-52 | with unique ids, exactly the row with the id is removed and the rest keep their order; a missing id changes nothing |
| GroupMemberQueries.UpdateRole | src/server/database/queries/groupMembers.ts:131-135 | the store changes only in the row with that id, as `RoleUpdated` says |
| GroupMemberQueries.UpdateRoleOnlyThatRow | src/server/database/queries/groupMembers.ts:131-135 | only the role and `updatedAt` of the row with the id change; every other row and field stays |
| GroupMemberQueries.UpdateStatus | src/server/database/queries/groupMembers.ts:138-146 | the store changes only in the row with that id, as `StatusUpdated` says |
| GroupMemberQueries.UpdateStatusJoinedAt | src/server/database/queries/groupMembers.ts:138-145 | `joinedAt` becomes now exactly when the new status is approved and stays otherwise; other rows and fields are untouched |
| GroupPostQueries.BuildWhereClause | src/server/database/queries/groupPosts.ts:10-41 | no clause exactly when no filter is given, where `isPinned = false` counts as given; a post passes exactly when it satisfies every filter given |
| GroupPostQueries.FindById | src/server/database/queries/groupPosts.ts:51-57 | the post returned has the id; none exactly when no post has it |
| GroupPostQueries.FindByGroup | src/server/database/queries/groupPosts.ts:75-100 | fails only on a negative window (20 by default); the page is the window at the offset of `PostsOf`, which holds exactly the group's posts that match the type and pin filters, pinned before unpinned and newer first within each part |
| GroupPostQueries.FindByAuthor | src/server/database/queries/groupPosts.ts:103-123 | fails only on a negative window (20 by default); the page is the window at the offset of `PostsBy`, which holds exactly that author's posts, newest first |
| GroupPostQueries.CountByGroup | src/server/database/queries/groupPosts.ts:176-192 | without an author filter, equals the length of the unpaged `findByGroup` listing; positive exactly when some post matches |
| GroupPostQueries.CountByAuthor | src/server/database/queries/groupPosts.ts:195-209 | without further filters, equals the length of the unpaged `findByAuthor` listing; positive exactly when some post matches |
| GroupPostQueries.ExistsInGroup | src/server/database/queries/groupPosts.ts:212-225 | true exactly when a post has that id and that group |
| GroupPostQueries.IsAuthor | src/server/database/queries/groupPosts.ts:228-241 | true exactly when a post has that id and that author |
| GroupPostQueries.Create | src/server/database/queries/groupPosts.ts:45-48 | appends the post under a fresh id and returns it |
| GroupPostQueries.Update | src/server/database/queries/groupPosts.ts:126-141 | a missing id throws "Post not found" and changes nothing; otherwise only the posts table changes, as `Updated` says |
| GroupPostQueries.UpdateOnlyThatRow | src/server/database/queries/groupPosts.ts:126-141 | only the supplied title and content and `updatedAt` of the post with the id change |
| GroupPostQueries.TogglePin | src/server/database/queries/groupPosts.ts:144-159 | a missing id throws "Post not found" and changes nothing; otherwise only the flag of that post is set |
| GroupPostQueries.TogglePinOnlyThatRow | src/server/database/queries/groupPosts.ts:144-159 | only `isPinned` and `updatedAt` of the post with the id change |
| GroupPostQueries.Delete | src/server/database/queries/groupPosts.ts:162-173 | returns the post with the id, or throws "Post not found" and changes nothing; otherwise that post is removed |
| GroupPostQueries.DeleteOnlyThatRow | src/server/database/queries/groupPosts.ts:162-173 | with unique ids, exactly the post at that index is removed and the rest keep their order |
| GroupPostService.Create | src/server/services/GroupPostService.ts:28-91 | the method ends in exactly the state and answer of `CreateSpec` |
| GroupPostService.GetById | src/server/services/GroupPostService.ts:94-116 | the post with the id, or `NOT_FOUND`; no caller is needed |
| GroupPostService.ListByGroup | src/server/services/GroupPostService.ts:118-165 | a missing group is `GROUP_NOT_FOUND`; page 1 and 20 per page by default; the page is the window at offset (page-1)×size of the group's posts of the type asked for, pinned before unpinned and newest first within each part; the total counts them all; a negative window is the only other failure |
| GroupPostService.ListByAuthor | src/server/services/GroupPostService.ts:168-204 | the page is the window at offset (page-1)×size of the author's posts, newest first; the total counts them all; a negative window is `SERVER_ERROR` |
| GroupPostService.GetAnnouncements | src/server/services/GroupPostService.ts:380-425 | a missing group is `GROUP_NOT_FOUND`; the page is the first window (10 by default) of the group's announcements, pinned before unpinned and newest first within each part, as many as fit; the total counts all of them |
| GroupPostService.CanModify | src/server/services/GroupPostService.ts:428-435 | true only when the post exists and the user is its author or an approved admin of its group; false for a missing post (both directions are in `CanModifyRows`) |
| GroupPostService.Update | src/server/services/GroupPostService.ts:207-261 | the method ends in exactly the state and answer of `UpdateSpec` |
| GroupPostService.Delete | src/server/services/GroupPostService.ts:264-312 | the method ends in exactly the state and answer of `DeleteSpecAsWritten` |
| GroupPostService.TogglePin | src/server/services/GroupPostService.ts:315-377 | the method ends in exactly the state and answer of `TogglePinSpec` |
| GroupPostServiceLemmas.ListByGroupShowsEvery | src/server/services/GroupPostService.ts:118-165 | with a positive page size, every post of an existing group, of the type asked for, is on some page |
| GroupPostServiceLemmas.CreateOutcomes | src/server/services/GroupPostService.ts:37-77 | no caller is `UNAUTHORIZED`, a missing group `GROUP_NOT_FOUND`; success exactly for an approved member (an approved admin for an announcement); then exactly one unpinned post by the caller with the input's title, content and type is added under a fresh id; a refusal changes nothing |
| GroupPostServiceLemmas.CanModifyRows | src/server/services/GroupPostService.ts:428-435 | with unique post ids, `canModify` holds exactly when a post with the id exists whose author is the user or whose group has the user as approved admin |
| GroupPostServiceLemmas.ModifyNeedsCanModify | src/server/services/GroupPostService.ts:226-303 | `update` and the corrected `delete` succeed exactly when `canModify` holds for the caller, then rewrite or remove only that post; a missing post is `NOT_FOUND`; a refusal changes nothing |
| GroupPostServiceLemmas.DeleteAsWrittenReportsFailure | src/server/services/GroupPostService.ts:299-303 | as written, `delete` never reports success, yet it changes the store exactly as the corrected version does and answers `DELETE_SUCCESS` exactly when the corrected one succeeds |
| GroupPostServiceLemmas.DeleteOwnPostAsWritten | src/server/services/GroupPostService.ts:299-303 | an author deleting their own post: the post is gone and the answer is `success: false` with `DELETE_SUCCESS` |
| GroupPostServiceLemmas.TogglePinOutcomes | src/server/services/GroupPostService.ts:335-364 | success exactly for an approved admin of the post's group, unless it pins an unpinned post in a group with 3 pinned posts; success sets the flag of that post only and answers `PIN_SUCCESS` or `UNPIN_SUCCESS`; a refusal changes nothing |
| GroupPostServiceLemmas.PinLimitOnlyForNewPins | src/server/services/GroupPostService.ts:350-352 | `PIN_LIMIT_REACHED` only ever answers an attempt to pin a post that is not pinned yet |
| GroupPostServiceLemmas.TogglePinKeepsPinLimit | src/server/services/GroupPostService.ts:350-364 | `togglePin` never takes a group beyond 3 pinned posts |
| GroupQueries.BuildWhereClause | src/server/database/queries/groups.ts:10-52 | no clause exactly when no filter is given; a group passes exactly when its status is the one given (or in the list given), its category is the one given, and the search is a case-insensitive substring of its name, description or slug |
| GroupQueries.FindById | src/server/database/queries/groups.ts:74-77 | the group returned has the id; none exactly when no group has it |
| GroupQueries.FindBySlug | src/server/database/queries/groups.ts:80-126 | found exactly when an approved group has the slug; it then carries its count of approved members and a post count of 0 |
| GroupQueries.ListApproved | src/server/database/queries/groups.ts:145-168 | fails only on a negative window (20 by default); the page is the window at the offset of `ApprovedListing`, which holds exactly the approved groups of the category and search, newest first |
| GroupQueries.ListPending | src/server/database/queries/groups.ts:195-212 | fails only on a negative window (20 by default); the page is the window at the offset of `PendingListing`, which holds exactly the pending groups, oldest first |
| GroupQueries.Count | src/server/database/queries/groups.ts:215-228 | with the status approved it counts the unpaged `listApproved` listing, with the status pending and no other filter the unpaged `listPending` listing; positive exactly when some group matches |
| GroupQueries.Inserted | src/server/database/schemas/groups.ts:12 | an insert repeating a slug of any group is refused; any other appends the row |
| GroupQueries.Create | src/server/database/queries/groups.ts:56-59 | appends the group under a fresh id, or, on a taken slug, changes nothing and reports the failure |
| GroupQueries.Update | src/server/database/queries/groups.ts:62-66 | only the groups table changes, as `InfoUpdated` says |
| GroupQueries.UpdateStatus | src/server/database/queries/groups.ts:129-142 | only the groups table changes, as `StatusUpdated` says |
| GroupQueries.UpdateStatusReason | src/server/database/queries/groups.ts:129-142 | only the row with the id changes: its status, the reason when the new status is rejected and null otherwise, and `updatedAt` |
| GroupQueries.Delete | src/server/database/queries/groups.ts:69-71 | the store becomes `DeletedFrom`, the group gone together with its memberships and posts |
| GroupQueries.DeleteCascades | src/server/database/schemas/groupMembers.ts:11-13 | after a group is deleted, no group, membership or post with its id or group id remains, and every other row stays |
| GroupService.Create | src/server/services/GroupService.ts:32-84 | the method ends in exactly the state and answer of `CreateSpec`: the group insert, then the membership insert, each failing on its own |
| GroupService.Delete | src/server/services/GroupService.ts:87-130 | the method ends in exactly the state and answer of `DeleteSpec` |
| GroupService.GetBySlug | src/server/services/GroupService.ts:133-156 | only an approved group with the slug is found, with its approved member count; otherwise `NOT_FOUND` |
| GroupService.Update | src/server/services/GroupService.ts:159-192 | the method ends in exactly the state and answer of `UpdateSpec` |
| GroupService.ListApproved | src/server/services/GroupService.ts:195-235 | page 1 and 20 per page by default; the page is the window at offset (page-1)×size of the approved groups of the category and search, newest first; the total counts that whole listing; a negative window is `SERVER_ERROR` and the only failure |
| GroupService.ListMyGroups | src/server/services/GroupService.ts:238-279 | no caller is `UNAUTHORIZED`; otherwise the window at offset (page-1)×size of the caller's memberships (approved ones by default), newest join first, of which those whose group is approved are kept; the total counts the caller's memberships with the given status, or all of them when none is given; a negative window is `SERVER_ERROR` |
| GroupService.ListPending | src/server/services/GroupService.ts:282-322 | no caller is `UNAUTHORIZED` (no reviewer role is demanded); otherwise the window at offset (page-1)×size of the pending groups, oldest first, and the total counts them all; a negative window is the only other failure |
| GroupService.ApproveGroup | src/server/services/GroupService.ts:325-378 | the method ends in exactly the state and answer of `ApproveGroupSpec` |
| GroupService.JoinGroup | src/server/services/GroupService.ts:381-446 | the method ends in exactly the state and answer of `JoinGroupSpec` |
| GroupService.LeaveGroup | src/server/services/GroupService.ts:449-492 | the method ends in exactly the state and answer of `LeaveGroupSpec` |
| GroupService.GetMembers | src/server/services/GroupService.ts:495-563 | no caller is `UNAUTHORIZED`, a missing group `GROUP_NOT_FOUND`; an approved private group is `FORBIDDEN` to a caller without an approved membership; otherwise the page is the window at offset (page-1)×size (50 by default) of the group's members that match the status and role filters, members before admins and earlier joins first; the total counts the group's members by status only |
| GroupService.UpdateMemberRole | src/server/services/GroupService.ts:571-626 | the method ends in exactly the state and answer of `UpdateMemberRoleSpec` |
| GroupService.RemoveMember | src/server/services/GroupService.ts:629-681 | the method ends in exactly the state and answer of `RemoveMemberSpec` |
| GroupService.ApproveMember | src/server/services/GroupService.ts:684-730 | the method ends in exactly the state and answer of `ApproveMemberSpec` |
| GroupServiceLemmas.CreateSlugFound | src/server/services/GroupService.ts:41-47 | a slug that `findBySlug` finds gives `ALREADY_EXISTS` and changes nothing |
| GroupServiceLemmas.CreateFailureUnchanged | src/server/services/GroupService.ts:34-84 | under the foreign keys the membership insert cannot be refused, so every refusal of `create` leaves the store as it was and returns no group |
| GroupServiceLemmas.CreateLeavesGroupWithoutAdmin | src/server/services/GroupService.ts:49-70 | when the membership insert is refused after the group insert, the answer is `SERVER_ERROR` yet the new group stays in the store with no membership added |
| GroupServiceLemmas.CreateRefusals | src/server/services/GroupService.ts:34-70 | no caller is `UNAUTHORIZED`; a slug held by an approved group is `ALREADY_EXISTS`; neither adds a row; no refusal adds a membership or returns a group, and under the foreign keys no refusal changes the store |
| GroupServiceLemmas.CreateSucceeds | src/server/services/GroupService.ts:49-70 | success exactly when there is a caller and no group of any status holds the slug; then exactly one pending group created by the caller and the caller's approved admin membership of it are added together |
| GroupServiceLemmas.DeleteOutcomes | src/server/services/GroupService.ts:87-130 | success exactly for the creator or an approved admin of an existing group; then the group, its memberships and its posts go; a refusal changes nothing |
| GroupServiceLemmas.UpdateNeedsAdmin | src/server/services/GroupService.ts:159-192 | success exactly when the caller has an approved admin membership of the group; then only the groups table changes, and only the supplied fields of that group (`InfoUpdated`); a refusal changes nothing |
| GroupServiceLemmas.ApproveGroupOutcomes | src/server/services/GroupService.ts:336-370 | a missing group is `NOT_FOUND`; a non-pending one is `INVALID_STATUS` and unchanged; a pending one becomes approved (`APPROVE_SUCCESS`) or rejected with the reason (`REJECT_SUCCESS`); no reviewer role is demanded |
| GroupServiceLemmas.ReviewOnlyOnce | src/server/services/GroupService.ts:342-355 | after a successful review, a second review of the same group is `INVALID_STATUS` and changes nothing |
| GroupServiceLemmas.JoinGroupOutcomes | src/server/services/GroupService.ts:398-438 | a pending record is `ALREADY_SUBMIT`, an approved one `ALREADY_EXISTS`; otherwise one membership with role member is inserted, approved exactly when the group is public, answered `JOIN_SUCCESS` or, for a private group, a success reported as `ALREADY_SUBMIT` |
| GroupServiceLemmas.LeaveRefusesLastAdmin | src/server/services/GroupService.ts:465-477 | an approved admin's leave is `LAST_ADMIN` and changes nothing while the group has at most one approved admin |
| GroupServiceLemmas.LeaveOutcome | src/server/services/GroupService.ts:449-492 | otherwise `leaveGroup` removes exactly the caller's membership of the group, or reports that there is none |
| GroupServiceLemmas.RowOperationsNeedAdmin | src/server/services/GroupService.ts:590-597 | `updateMemberRole`, `removeMember` and `approveMember` succeed only for an approved admin of the membership's group; any other signed-in caller is answered `FORBIDDEN`, or `NOT_FOUND` for a missing membership |
| GroupServiceLemmas.RowOperationsRefuseLastAdmin | src/server/services/GroupService.ts:599-666 | the last approved admin can neither be removed nor demote themself: both are `LAST_ADMIN` and change nothing |
| GroupServiceLemmas.ApproveMemberOutcome | src/server/services/GroupService.ts:700-716 | only a pending membership is approved, which sets its status and its join time; anything else is `INVALID_STATUS` and changes nothing |
| GroupServiceLemmas.ListApprovedShowsEvery | src/server/services/GroupService.ts:195-235 | with a positive page size, every approved group that passes the category and search filters is on some page |
| GroupServiceLemmas.GetMembersShowsEvery | src/server/services/GroupService.ts:495-563 | in a public group, with a positive page size, every membership that passes the status and role filters is on some page |
| GroupServiceLemmas.GetMembersPrivacy | src/server/services/GroupService.ts:523-532 | for an approved private group, a signed-in caller is `FORBIDDEN` exactly when they have no approved membership of it |
| Invariants.LeaveGroupAdmins | src/server/services/GroupService.ts:465-479 | `leaveGroup` leaves every group with at least one approved admin |
| Invariants.RemoveMemberAdmins | src/server/services/GroupService.ts:654-668 | `removeMember` leaves every group with at least one approved admin |
| Invariants.UpdateMemberRoleAdmins | src/server/services/GroupService.ts:599-613 | `updateMemberRole` leaves every group with at least one approved admin |
| Invariants.LeaveGroupKeeps | src/server/services/GroupService.ts:449-492 | `leaveGroup` keeps all the invariants and every review |
| Invariants.RemoveMemberKeeps | src/server/services/GroupService.ts:629-681 | `removeMember` keeps all the invariants and every review |
| Invariants.UpdateMemberRoleKeeps | src/server/services/GroupService.ts:571-626 | `updateMemberRole` keeps all the invariants and every review |
| Invariants.ApproveMemberKeeps | src/server/services/GroupService.ts:684-730 | `approveMember` keeps all the invariants and every review |
| Invariants.JoinGroupKeeps | src/server/services/GroupService.ts:381-446 | `joinGroup` keeps all the invariants, including the unique (group, user) pair, and every review |
| Invariants.CreateGroupKeeps | src/server/services/GroupService.ts:49-70 | `create` keeps all the invariants (the new group has its admin from the start) and every review |
| Invariants.DeleteGroupKeeps | src/server/services/GroupService.ts:87-130 | `delete`, with its cascade, keeps all the invariants and every review of the groups that remain |
| Invariants.CascadeConstraints | src/server/database/schemas/groupPosts.ts:12 | the cascade leaves no membership or post pointing at the deleted group, so the constraints still hold |
| Invariants.UpdateGroupKeeps | src/server/services/GroupService.ts:159-192 | `update` keeps all the invariants and every review |
| Invariants.ApproveGroupKeeps | src/server/services/GroupService.ts:342-370 | `approveGroup` keeps all the invariants and every review |
| Invariants.CreatePostKeeps | src/server/services/GroupPostService.ts:68-77 | a post `create` keeps all the invariants: the new post is unpinned |
| Invariants.UpdatePostKeeps | src/server/services/GroupPostService.ts:207-261 | a post `update` keeps all the invariants and every review |
| Invariants.TogglePinKeeps | src/server/services/GroupPostService.ts:350-364 | `togglePin` keeps all the invariants, the pin limit among them |
| Invariants.DeletePostKeeps | src/server/services/GroupPostService.ts:264-312 | post `delete` keeps all the invariants and every review |
| Invariants.CreateFeedbackKeeps | src/server/services/FeedbackService.ts:22-41 | a feedback `create` keeps all the invariants and every review |
| Invariants.SignupKeeps | src/server/services/AuthService.ts:65-118 | `signup` keeps all the invariants and every review |
| Invariants.LoginKeeps | src/server/services/AuthService.ts:34-63 | `login` keeps all the invariants and every review |
| Invariants.LogoutKeeps | src/server/services/AuthService.ts:120-128 | `logout` keeps all the invariants and every review |
| Invariants.StepKeeps | src/server/services/GroupService.ts:342-355 | any request from whoever the session holds keeps the invariants, leaves reviewed groups' statuses alone and never brings a deleted group back |
| Invariants.RunKeeps | src/server/services/GroupPostService.ts:24 | after any sequence of requests from the empty store: the schema's constraints hold, no group has more than 3 pinned posts, and every group has an approved admin |
| Invariants.RunReviewsFinal | src/server/services/GroupService.ts:342-355 | once a group is approved or rejected, every later state that still holds it holds it with that status |

## Left out

- Concurrency. The last-admin and pin-limit checks read and then write. The model runs requests one at a time, so it says nothing about two requests interleaving.
- The order of rows with equal sort keys. SQL leaves the relative order of rows that tie on the `ORDER BY` columns (`createdAt`, `joinedAt`, `role`) open, and it may differ from one `LIMIT/OFFSET` query to the next. `Tables.SortBy` fixes one order for them on every call. The page contents (`IsWindow` of a listing, in the paging queries and the listing services) and the lemmas that every matching row is on some page (`ListApprovedShowsEvery`, `GetMembersShowsEvery`, `ListByGroupShowsEvery`, `ListShowsEvery`) are proved under that choice. With ties ordered differently per query, a row could appear on two pages or on none.
- Clocks and ids. `new Date()` is the `now` parameter, and the model assumes nothing about its order. `uuid().defaultRandom()` is the store's counter `nextId`.
- Password hashing and checking. `verifyPassword` and `hashPassword` are the function parameters `verify` and `hash`. The cookie session is the store field `session`; signing and JWTs are not part of this model.
- Case-insensitive `ilike`. It is ASCII lower-casing on both sides followed by a substring test, with no wildcard characters inside the search string. Unicode case folding is not modelled.
- Human-readable messages. Only the state codes are modelled.
- Relational joins. The `with: { user / author / creator }` columns that `findMembersByGroup`, `findByIdWithAuthor`, `listApproved` and `listPending` add are not modelled.
- The user foreign keys. `creatorId` is set to null on delete, and an author's deletion cascades. No operation of this core deletes a user, so the model does not track these references.
- The commented-out feedback features: `updateStatus`, status logs, replies, statistics, the pending list and the visibility check in `getById`. `create` writes no status log, which matches the code.
- The wrappers that turn envelopes into exceptions (`src/server/functions`, `src/server/api`), the UI, the seed scripts, the stub `src/server/business/auth/AuthService.ts`, and configuration.
- Database exceptions other than the modelled constraint violations. These are the failed inserts on a taken slug or a repeated (group, user) pair, the "Post not found" throws, and a negative `LIMIT` or `OFFSET`. Each of these becomes `SERVER_ERROR`. The store is unchanged, except after a refused membership insert in `create`, where the group inserted before it stays.
- `isRole` in `GroupService` (lines 566-568) only forwards to the query `isRole`, which is modelled as `GroupMemberQueries.IsRole`.
- The post count of `getBySlug` is always 0, because the source's `getPostCount` returns 0.
- GroupServiceLemmas.CreateRefusals: it states that the answer is `ALREADY_EXISTS`, but not that this state's code string is `SLUG_EXISTS`.
- GroupServiceLemmas.CreateFailureUnchanged: it promises an unchanged store after a refusal only when every membership names an existing group and every id is below the counter. Without these, a refused membership insert keeps the group inserted before it, as `CreateLeavesGroupWithoutAdmin` shows.
- GroupMemberQueries.CountByUser: it states only when the count is positive and that it is at most the table size, not that it equals a listing's length, because no listing with the same filters exists.

Where the code and the documented design differ, the model follows the code:

- A membership's `joinedAt` is set at insert by the column default, for pending requests too. `updateStatus` resets it only on approval.
- The `group_members` schema declares no `updatedAt` column, yet `updateRole` and `updateStatus` write one. The model keeps the field, as the query code does.
- The `groups` schema has its `rejected_reason` column commented out (src/server/database/schemas/groups.ts:21), so the reason `updateStatus` writes is not stored by the database. The model keeps the field `rejectedReason`, as the query code does.
- The group codes `INVALID_STATUS`, `APPROVE_SUCCESS` and `REJECT_SUCCESS` are used by `approveGroup` but not declared among the group codes. They carry no code string (`Code()` is `None`).
- The comment on `findMembersByGroup`'s `asc(role)` says admins come first. Ascending order on the role enum follows its declared order, member before admin (src/shared/constants/groupMembers.ts:7), so members come first, and the model orders them so.
- `create` in the group service runs its two inserts inside `db.transaction`, but the callback ignores the transaction handle and issues both inserts on the pooled connection (src/server/services/GroupService.ts:49-70). They are not atomic, and the model inserts them independently. Under the foreign keys the second insert cannot be refused, so the store never keeps a group without its admin (`CreateFailureUnchanged`, `Invariants.CreateGroupKeeps`).
- The feedback `getById` and the post `delete` behave as described under Findings.

## Findings

| source | as written | input that shows it | evidently intended | confidence | as-written member | corrected member |
|---|---|---|---|---|---|---|
| src/server/services/GroupPostService.ts:299-303 | after deleting the post, `delete` answers `success: false` with state `DELETE_SUCCESS` | the author of post 1 deletes it: the post is gone and the answer says failure | `success: true` with `DELETE_SUCCESS` | not executed | GroupPostServiceLemmas.DeleteOwnPostAsWritten | GroupPostServiceLemmas.ModifyNeedsCanModify |
| src/server/services/FeedbackService.ts:57-60 | the guard tests the envelope `getCurrentUser` returns, which always exists, so `UNAUTHORIZED` is never returned | nobody signed in, `getById` of an existing feedback returns it | refuse a caller without a user (`payload.data` absent), as the other operations do | not executed | FeedbackService.GetByIdAsWritten | FeedbackService.GetByIdGuard |
