# Taskly backend core in Dafny

This project models the core of the Taskly backend in Dafny and proves properties of the model.
Taskly is an Express and Mongoose server for group task management. The model covers:

- the User schema and its password validator;
- the authentication controller: `validatePassword`, `register`, `login`, `getCurrentUser` and
  `changePassword`;
- the `protect` middleware, which turns a bearer token into the requesting user;
- the Group schema and the group controller: create, list, add, remove and update a member,
  rename, delete, and list members;
- the task controller: create, list, update and delete;
- the CORS origin callback of the application.

Each collection is a store class: `UserStore`, `GroupStore` and `TaskStore`. Each handler that
writes to a store is a method of that class. The method's `ensures` ties the new state and the
reply to a pure `...Outcome` function of the old state, and the lemmas state what the source
promises about those functions. Users are a sequence indexed by id. Groups and tasks are maps
from id to record, plus the next id to hand out.

The model makes the following decisions about Mongoose and JavaScript:

- **Setters apply to query filters.** The `lowercase` and `trim` setters also apply to query
  filters. So `findOne({ email })` looks up the normalised email, and `findOne({ name, createdBy })`
  looks up the trimmed name.
- **The validator sees the hash.** Validators run on the value being saved. For passwords this
  is the bcrypt hash, not the cleartext, so the schema's password validator checks the hash
  (`UserModel.SaveAccepts`).
- **Defaults replace only missing fields.** A default replaces only an undefined field. So
  `register`, which passes `profilePic: null` when no file was uploaded, stores `null` and not
  `''`.
- **Saves validate the whole document.** A save validates every path, including the required
  group name. `findByIdAndUpdate` applies setters but does not validate, so a rename to a blank
  name is accepted, and every later save of that group fails with 500.
- **Statuses of members are not stored.** `member.status` is not a path of the Group schema, so
  `updateUserInGroup` never stores a status.
- **String lengths are UTF-16.** `length` counts UTF-16 code units (`Text.Utf16Length`).
  `toLowerCase` is modelled on ASCII letters only.

Cryptography enters as an oracle, `Crypto`, with uninterpreted `hash`, `compare` and `sign`. The
predicate `Sound` says that a password matches its own hash, and the session lemmas assume it.
Token verification in the middleware is a parameter `verify`. The JWT secret is an
`Option<string>`; a missing or empty one counts as unset, as JavaScript's truthiness test does.

Two behaviours of the code are worth noting:

- `register` reports a password that `validatePassword` rejects as 500 "Server error", because
  the throw lands in the catch at `backend/controllers/authController.js:69-71`.
- `changePassword` as written can never succeed (see Findings).

## Model

| member | source | states |
|---|---|---|
| UserModel.PasswordValidator | backend/models/User.js:5-65 | accepts exactly when every rule holds; otherwise the message is "Password must: " followed by the failing rules' messages, joined by ", " |
| UserModel.FailedRulesSpelled | backend/models/User.js:9-56 | the failing rules are the seven checks (length, special, number, uppercase, lowercase, weak, name), each kept exactly when it fails, in source order |
| UserModel.FailedRulesInRuleOrder | backend/models/User.js:9-56 | the reported rules are strictly in the order the validator runs them |
| UserModel.FailingMembers | backend/models/User.js:9-56 | a rule is reported if and only if it is checked and does not hold |
| UserModel.FailedRulesEmpty | backend/models/User.js:58-64 | the validator reports nothing exactly when all seven rules hold |
| UserModel.MentionsName | backend/models/User.js:40-56 | the name check fires only for a modified password and a trimmed name longer than 3, when a whitespace-separated name part of at least 4 code units occurs in the lowercased value |
| UserModel.PushIfFailed | backend/models/User.js:10-54 | one `errors.push` step appends the rule's message exactly when the rule fails |
| UserModel.SignificantParts | backend/models/User.js:50 | keeps exactly the name parts of at least 4 code units |
| UserModel.PasswordPathAccepts | backend/models/User.js:80-87 | the password path accepts exactly a non-empty value of at least 8 code units that every validator rule accepts |
| UserModel.ValidatePasswordPath | backend/models/User.js:80-87 | checks `required`, then `minlength`, then the custom validator, and returns the first error |
| UserModel.PasswordPathErrorMentionsPassword | backend/models/User.js:80-87 | every error of the password path starts with "Password" |
| UserModel.PolicyMessageMentionsPassword | backend/models/User.js:59-62 | the validator's combined error starts with "Password must: " |
| UserModel.NewUser | backend/models/User.js:67-98 | the name is trimmed and the email lowercased and trimmed; the status takes its default; a missing picture becomes '', a null one stays null, a given one is kept |
| UserModel.NormalizeEmailIdempotent | backend/models/User.js:73-79 | normalising a normalised email changes nothing, so stored emails find themselves |
| UserModel.NormalizedEmailNonEmpty | backend/models/User.js:73-79 | an email that normalises to a non-empty one was itself non-empty |
| UserModel.FindByEmail | backend/controllers/authController.js:36 | finds the first user with the email, and finds nothing exactly when no user has it |
| UserModel.PublicIgnoresPassword | backend/controllers/authController.js:61-67 | the user in a reply carries id, name, email, picture and status and does not depend on the password |
| AuthController.ValidatePasswordReportsFirstFailure | backend/controllers/authController.js:6-30 | `validatePassword` returns exactly when all four checks pass; otherwise it throws the message of the first failing check in the order length, name, special, number |
| AuthController.FirstFailure | backend/controllers/authController.js:12-27 | the first failing check: every earlier check passes, and none fails exactly when the result is absent |
| AuthController.ValidatePasswordMessagesMentionPassword | backend/controllers/authController.js:13-26 | every message `validatePassword` throws starts with "Password" |
| AuthController.SchemaAcceptanceImpliesControllerAcceptance | backend/controllers/authController.js:6-30 | without a name, a password the schema's validator accepts also passes the controller's check |
| AuthController.ControllerAcceptsLowercaseOnly | backend/controllers/authController.js:6-30 | the controller's check has no case or weak-password rule: "abcdefg1!" passes it |
| AuthController.SchemaRejectsLowercaseOnly | backend/models/User.js:25-27 | the schema's validator rejects "abcdefg1!" for lack of an uppercase letter |
| AuthController.RegisterOutcome | backend/controllers/authController.js:32-72 | registration either leaves the store as it was or appends exactly one user; a missing or empty secret gives 500 "Server error" |
| AuthController.UserStore.Register | backend/controllers/authController.js:32-72 | the new store and the reply are those of `RegisterOutcome` on the old store, and the store invariant is kept |
| AuthController.RegisterRefusesUsedEmail | backend/controllers/authController.js:36-37 | an email already stored, in any spelling that normalises to it, gives 400 "Email already in use" and the store is unchanged |
| AuthController.RegisterRejectsInvalidPassword | backend/controllers/authController.js:40-71 | a password `validatePassword` rejects, or a missing one, gives 500 "Server error" and nothing is stored |
| AuthController.RegisterDocumentFields | backend/controllers/authController.js:42-52 | the new document has the next id, the hash of the password, the trimmed name, the normalised email, and a null picture without an upload |
| AuthController.RegisterAppends | backend/controllers/authController.js:36-54 | a user is stored only when the email is new, the password passes `validatePassword` and the save validates, and then exactly that document is appended |
| AuthController.RegisterStoresHash | backend/controllers/authController.js:42-54 | whenever a user is stored, the stored password is the hash of the supplied one |
| AuthController.RegisterSuccessReply | backend/controllers/authController.js:56-68 | a 201 carries a token signed for the new id and the new user without its password |
| AuthController.RegisterPreservesInvariant | backend/controllers/authController.js:32-72 | registration keeps ids equal to positions, names and emails non-empty, and emails unique |
| AuthController.AppendPreservesInvariant | backend/models/User.js:73-79 | appending a document under the next id with a required name and email and an email not yet stored keeps the invariant |
| AuthController.RegisterSucceeded | backend/controllers/authController.js:36-58 | a 201 means a non-empty secret was set, the password had at least 8 code units, the email was new and the save validated, and exactly the built document was appended |
| AuthController.FindAppended | backend/controllers/authController.js:88 | after appending a document whose email was not stored, that email finds the new document |
| AuthController.RegisterThenLogin | backend/controllers/authController.js:54-128 | with a sound hash, a registered user can log in with the same email and password |
| AuthController.Login | backend/controllers/authController.js:76-144 | every login reply is 200, 400, 401 or 500; a missing or empty secret turns a match into 500 "Server error during login" |
| AuthController.LoginRequiresCredentials | backend/controllers/authController.js:82-85 | the reply is 400 exactly when the email or the password is missing or empty |
| AuthController.LoginHidesWhichCredentialFailed | backend/controllers/authController.js:88-101 | an unknown email and a wrong password give the same 401 "Invalid email or password" |
| AuthController.LoginOfStoredUser | backend/controllers/authController.js:88-128 | the right password for the user the email finds gives 200 with a token for that user's id and the user without its password |
| AuthController.LoginSuccess | backend/controllers/authController.js:88-128 | a 200 means a stored user has that email, its hash matches the password, and a non-empty secret is set |
| AuthController.GetCurrentUser | backend/controllers/authController.js:146-155 | 200 with the stored user without its password exactly when the id is stored, otherwise 404 |
| AuthController.CatchPassesPasswordMessages | backend/controllers/authController.js:184-187 | the catch passes on a message that contains "Password" |
| AuthController.CatchHidesForeignErrors | backend/controllers/authController.js:184-187 | the catch replaces any message without a capital "P" by "Error updating password" |
| AuthController.CompareErrorIsHidden | backend/controllers/authController.js:169-187 | bcrypt's missing-argument error becomes "Error updating password" |
| AuthController.ChangePasswordOutcome | backend/controllers/authController.js:157-189 | (corrected handler, hash selected) a password change never adds or removes a user |
| AuthController.ChangePasswordHandler | backend/controllers/authController.js:157-189 | with or without the hash loaded, a password change never adds or removes a user |
| AuthController.UserStore.ChangePassword | backend/controllers/authController.js:157-189 | (corrected handler, hash selected) the new store and the reply are those of `ChangePasswordOutcome` on the old store, and the store invariant is kept |
| AuthController.UserStore.constructor | backend/models/User.js:67-98 | an empty collection satisfies the store invariant |
| AuthController.ChangePasswordWrongCurrent | backend/controllers/authController.js:169-172 | (corrected handler, hash selected) a wrong current password gives 400 "Current password is incorrect" and the store is unchanged |
| AuthController.ChangePasswordInvalidNew | backend/controllers/authController.js:175-187 | (corrected handler, hash selected) a new password `validatePassword` rejects gives 400 with that check's own message, and the store is unchanged |
| AuthController.ChangePasswordSchemaRejects | backend/controllers/authController.js:178-187 | (corrected handler, hash selected) a new hash the schema rejects gives 400 with Mongoose's validation message, and the store is unchanged |
| AuthController.ChangePasswordSuccess | backend/controllers/authController.js:163-182 | (corrected handler, hash selected) success means the user exists, the current password matches and the new one passes `validatePassword`; exactly that user's hash becomes the hash of the new password |
| AuthController.ChangePasswordFailureChangesNothing | backend/controllers/authController.js:164-187 | (corrected handler, hash selected) every refused change leaves the store as it was |
| AuthController.ChangePasswordKeepsInvariant | backend/controllers/authController.js:157-189 | (corrected handler, hash selected) every password change keeps ids equal to positions, required fields and unique emails |
| AuthController.ReplaceHashPreservesInvariant | backend/controllers/authController.js:178-182 | replacing one stored hash keeps ids, required fields and unique emails |
| AuthController.FindStoredEmail | backend/controllers/authController.js:88 | in a store with unique emails, a stored email finds exactly its own user |
| AuthController.EmailIdentifiesUser | backend/models/User.js:73-79 | under the unique email index, two stored users with the same email are the same user |
| AuthController.ChangePasswordThenLogin | backend/controllers/authController.js:178-182 | (corrected handler, hash selected) the change keeps the store invariant, and with a sound hash the new password then logs in |
| AuthController.ChangePasswordAsWrittenNeverSucceeds | backend/controllers/authController.js:163-172 | as written, with no hash loaded, bcrypt's missing-argument error reaches the catch: an existing user always gets 400 "Error updating password" and nothing changes |
| AuthMiddleware.Token | backend/middleware/authMiddleware.js:15 | the token is the first space-separated piece after "Bearer " |
| AuthMiddleware.TokenIsSecondSegment | backend/middleware/authMiddleware.js:15-22 | the token is a prefix of the text after "Bearer " and holds no space; it is empty exactly when nothing or a space follows the prefix |
| AuthMiddleware.Protect | backend/middleware/authMiddleware.js:4-69 | on a pass it sets `req.user` and calls `next` with no reply; on a stop it replies, does not call `next`, and leaves `req.user` alone |
| AuthMiddleware.Request.constructor | backend/middleware/authMiddleware.js:6 | a request carries its authorization header and no user yet |
| AuthMiddleware.PassExactlyOnValidToken | backend/middleware/authMiddleware.js:8-46 | a request passes exactly when a non-empty bearer token verifies to a payload naming a stored user, and then it carries that user without its password |
| AuthMiddleware.NoBearerHeader | backend/middleware/authMiddleware.js:8-13 | a missing header, or one not starting with "Bearer ", gives 401 "No authentication token provided" |
| AuthMiddleware.EmptyTokenRefused | backend/middleware/authMiddleware.js:17-22 | "Bearer " alone, or followed by another space, gives 401 "Invalid token format" |
| AuthMiddleware.TokenOutcomes | backend/middleware/authMiddleware.js:27-62 | a payload without id gives "Invalid token payload", an unknown id "User not found", and the two named verification errors "Invalid token" and "Token expired", all 401 |
| AuthMiddleware.StopStatuses | backend/middleware/authMiddleware.js:47-67 | every refusal is 401, except a verification error of another name, which is 500 |
| GroupModel.ParseRole | backend/models/Group.js:21-25 | the role enum accepts exactly "admin" and "member" and reads them back as the roles they name |
| GroupModel.ParseRoleName | backend/models/Group.js:23 | the name of each role parses back to that role |
| GroupModel.CastMembership | backend/models/Group.js:16-25 | a membership keeps its user; a missing role becomes `member`; a role in the enum is stored as that role; a role outside the enum fails |
| GroupModel.NewGroup | backend/models/Group.js:4-13 | the stored name is already trimmed, so trimming it again finds the same name; the creator and the members are kept as given |
| GroupModel.NewGroupNameRequired | backend/models/Group.js:4-8 | a new group fails the required check exactly when its given name is empty or only white space |
| GroupModel.SchemaAllowsRepeatedMember | backend/models/Group.js:14-27 | the schema accepts a group that lists one user twice |
| GroupController.FindMember | backend/controllers/groupController.js:124 | `members.find` by user: the first entry for that user, and none exactly when the user is not listed |
| GroupController.WithoutMembers | backend/controllers/groupController.js:179 | the filter keeps an entry exactly when it belongs to another user |
| GroupController.WithoutAppend | backend/controllers/groupController.js:179 | the filter keeps the order of the remaining entries |
| GroupController.WithoutKeepsUnique | backend/controllers/groupController.js:179 | after the filter the user is not listed, and distinct users stay distinct |
| GroupController.WithoutNonMember | backend/controllers/groupController.js:179 | filtering out a user who is not listed leaves the members as they were |
| GroupController.AppendKeepsUnique | backend/controllers/groupController.js:135-142 | appending an unlisted user keeps the users distinct |
| GroupController.ReplaceChangesOnlyIt | backend/controllers/groupController.js:142 | saving one group leaves every other group as it was and adds or removes none |
| GroupController.GroupStore.constructor | backend/models/Group.js:4-27 | an empty collection satisfies the store invariant |
| GroupController.GroupStore.CreateGroup | backend/controllers/groupController.js:7-37 | the new store, the next id and the reply are those of `CreateOutcome`, and the store invariant is kept |
| GroupController.CreateRefusesDuplicateName | backend/controllers/groupController.js:17-23 | creation gives 400 exactly when the requester already has a group of that trimmed name, and then the store is unchanged |
| GroupController.CreateAllowsNameOfOtherCreator | backend/controllers/groupController.js:17-32 | duplicates are judged per creator: a non-blank name the requester has not used gives 201, whatever other users named their groups |
| GroupController.CreateSuccess | backend/controllers/groupController.js:26-33 | a new group gets the next id, the trimmed name, the requester as creator, and exactly one member: the requester as admin |
| GroupController.CreateKeepsInvariant | backend/controllers/groupController.js:26-33 | creation keeps every group's users distinct and every id below the next one |
| GroupController.CreatorSeesGroupAsCreated | backend/controllers/groupController.js:91-99 | the new group is among the creator's created groups and not among the creator's member groups, although the creator is listed |
| GroupController.GroupStore.AddUser | backend/controllers/groupController.js:113-160 | the new store and the reply are those of `AddOutcome` on the normalised email |
| GroupController.AddErrorOrder | backend/controllers/groupController.js:118-139 | errors come in the order: 404 missing group, 403 requester not an admin, 404 unknown email, 400 user already listed |
| GroupController.AddSuccess | backend/controllers/groupController.js:136-152 | a 200 came from an admin and appended exactly one entry for the found, previously unlisted user, with the given role or `member` |
| GroupController.AddFailureChangesNothing | backend/controllers/groupController.js:118-158 | every refused add leaves the store as it was |
| GroupController.AddKeepsInvariant | backend/controllers/groupController.js:136-142 | an add changes at most its group and keeps every group's users distinct |
| GroupController.NonAdminChangesNothing | backend/controllers/groupController.js:123-128 | a requester who is not an admin of the group gets 403 from add, remove and update, and nothing changes |
| GroupController.GroupStore.RemoveUser | backend/controllers/groupController.js:165-186 | the new store and the reply are those of `RemoveOutcome` |
| GroupController.RemoveSuccess | backend/controllers/groupController.js:172-182 | an admin's removal drops every entry of the user and keeps the rest in order; removing a user who is not listed changes nothing |
| GroupController.RemoveKeepsInvariant | backend/controllers/groupController.js:179-180 | a removal changes at most its group and keeps every group's users distinct |
| GroupController.GroupStore.UpdateUser | backend/controllers/groupController.js:189-217 | the new store and the reply are those of `UpdateOutcome` |
| GroupController.UpdateSuccess | backend/controllers/groupController.js:204-212 | a 200 changes only the role of the user's first entry, and only for a truthy valid role; the status never matters |
| GroupController.UpdateNonMember | backend/controllers/groupController.js:208-210 | an admin naming an unlisted user gets 404 "User not in group." |
| GroupController.MissingGroupNotFound | backend/controllers/groupController.js:118-195 | adding, removing or updating a member of a group that is not stored gives 404 "Group not found." and changes nothing |
| GroupController.UpdateKeepsInvariant | backend/controllers/groupController.js:204-212 | an update changes at most its group and keeps every group's users distinct |
| GroupController.WithRoleKeepsUnique | backend/controllers/groupController.js:206 | changing one entry's role keeps the users distinct |
| GroupController.GroupStore.Rename | backend/controllers/groupController.js:62-72 | the new store and the reply are those of `RenameOutcome` |
| GroupController.RenameChangesOnlyName | backend/controllers/groupController.js:67-68 | any requester may rename; only that group's name changes, to the trimmed name, and the reply is 200 |
| GroupController.RenameKeepsInvariant | backend/controllers/groupController.js:67 | a rename keeps every group's users distinct |
| GroupController.GroupStore.Delete | backend/controllers/groupController.js:75-84 | the new store and the reply are those of `DeleteOutcome` |
| GroupController.DeleteRemovesOnlyThatGroup | backend/controllers/groupController.js:79-80 | any requester may delete; exactly that group disappears and the others are unchanged |
| GroupController.DeleteKeepsInvariant | backend/controllers/groupController.js:79-80 | deletion keeps every remaining group's users distinct |
| GroupController.CreatedGroups | backend/controllers/groupController.js:91 | exactly the stored groups the user created |
| GroupController.MemberGroups | backend/controllers/groupController.js:96-99 | exactly the stored groups that list the user and were created by someone else |
| GroupController.MyGroupsPartition | backend/controllers/groupController.js:91-99 | the two lists never share a group, and together they are every group the user created or is listed in |
| GroupController.GroupMembers | backend/controllers/groupController.js:223-239 | the members of a stored group, or nothing (404) exactly when the group is missing |
| TaskController.NewTaskDefaults | backend/controllers/taskController.js:12-14 | a missing priority, difficulty or status becomes "medium", "easy" or "not started"; given ones are kept |
| TaskController.OrDefault | backend/controllers/taskController.js:12-14 | a destructuring default replaces only a missing field |
| TaskController.TaskStore.CreateTask | backend/controllers/taskController.js:5-42 | the new store, the next id and the reply are those of `CreateTaskOutcome` |
| TaskController.CreateTaskErrors | backend/controllers/taskController.js:20-24 | a missing group gives 404 and an assignee the group does not list gives 403, both with the store unchanged |
| TaskController.CreateTaskSuccess | backend/controllers/taskController.js:17-38 | with the group and a listed assignee, creation succeeds whoever the requester is; one task is added, with the requester as creator |
| TaskController.CreateTaskTwice | backend/controllers/taskController.js:26-36 | there is no duplicate check: the same body twice makes two equal tasks under different ids |
| TaskController.AssignFields | backend/controllers/taskController.js:74 | `Object.assign` succeeds exactly for well-typed values and sets each sent path, keeping the others |
| TaskController.AssignNothing | backend/controllers/taskController.js:74 | an empty body changes nothing |
| TaskController.TaskStore.constructor | backend/controllers/taskController.js:26-36 | an empty collection satisfies the store invariant |
| TaskController.TaskStore.UpdateTask | backend/controllers/taskController.js:60-93 | the new store and the reply are those of `UpdateTaskOutcome` |
| TaskController.UpdateByCreator | backend/controllers/taskController.js:69-74 | the creator's update applies every sent field, also when the creator is the assignee |
| TaskController.UpdateByAssignee | backend/controllers/taskController.js:75-83 | an assignee who is not the creator changes only the status, and only with a body whose one key is `status`; any other body gives 403 and the task is unchanged |
| TaskController.UpdateByOthers | backend/controllers/taskController.js:84-86 | anyone else gets 403 "You are not authorized to update this task" and the task is unchanged |
| TaskController.UpdateChangesOnlyThatTask | backend/controllers/taskController.js:66-89 | an update touches at most the named task, and a refused one touches nothing |
| TaskController.MissingTaskNotFound | backend/controllers/taskController.js:66-102 | updating or deleting a task that is not stored gives 404 "Task not found" and changes nothing |
| TaskController.TaskStore.DeleteTask | backend/controllers/taskController.js:96-114 | the new store and the reply are those of `DeleteTaskOutcome` |
| TaskController.DeleteOnlyByCreator | backend/controllers/taskController.js:101-110 | anyone but the creator, a group admin included, gets 403; the creator removes exactly that task |
| TaskController.GroupTasks | backend/controllers/taskController.js:45-57 | exactly the stored tasks whose group is the given one |
| TaskController.GroupTasksDisjoint | backend/controllers/taskController.js:49 | the task lists of two different groups share no task |
| TaskController.CreateTaskInDeletedGroupRefused | backend/controllers/taskController.js:20-21 | after its group is deleted, a new task in it gets 404 "Group not found" and nothing is stored |
| TaskController.DeleteGroupKeepsTasks | backend/controllers/groupController.js:75-84 | deleting a group next to a task store leaves every task stored and still listed under that group's id |
| Cors.IndexOf | backend/app.js:26 | `indexOf`: -1 exactly when the origin is not listed, otherwise the first position of an equal entry |
| Cors.OriginAllowedExactly | backend/app.js:15-31 | an origin is allowed exactly when it is missing, empty or one of the three listed strings; the error is given exactly on refusal |
| Cors.TrailingSlashRefused | backend/app.js:26 | comparison is exact: a listed origin with a trailing slash is refused |

## Left out

- The frontend, the route files, server start-up, the database connection and logging are not
  modelled. The CORS library's method, header and max-age options are not modelled either.
- Mongoose's `populate`, timestamps, ObjectId casting and `toString` comparisons are not
  modelled. Ids are plain numbers, so a malformed id in a request (a 500 from a cast error)
  is not modelled.
- Each handler is one sequential transaction. Concurrent requests are not modelled, so neither
  is the race around the unique email index.
- bcrypt, JSON web tokens and the `'1d'` expiry are oracles (`Crypto`, `verify`). Their
  internals are outside the model.
- AuthController.RegisterOutcome: `email` is a string. A request with no email is not
  modelled, because it depends on how Mongoose treats an undefined filter value.
- AuthController.RegisterOutcome: a missing `name` is passed on as `Option`, but when a save
  fails the reply message is the generic "Server error" of the catch. Mongoose's own text is
  not modelled.
- AuthController.ChangePasswordOutcome: the save after a password change validates only the
  password path. The name and email of a stored user satisfy the invariant and are not
  re-checked.
- AuthController.CaughtMessage: only the `includes('Password')` test of the catch is modelled.
  The reply's second field, `error`, which echoes the raw message, is not modelled. The
  TypeError for a missing new password has no "Password" in its message, so it becomes the
  generic message.
- Replies are modelled as a status and a message. The `success` flags and other fixed JSON
  fields are not modelled.
- GroupController.UpdateOutcome: for a role outside the enum, the 500 reply carries only the
  head "Group validation failed" of Mongoose's message. The path and value it names are left
  out.
- GroupController.AddOutcome: `email` is a string. A request without an email
  (`backend/controllers/groupController.js:131`, a query on an undefined filter value) is not
  modelled.
- GroupController.CreateOutcome: `name` is a string. A request with no name is not modelled.
  A name that trims to nothing gives 500 with Mongoose's required-path message.
- GroupController.RenameOutcome: `name` is a string. A request with no name, which Mongoose
  drops from the update, is not modelled.
- `getGroups` lists the same groups as the first list of `getMyGroups`
  (`GroupController.CreatedGroups`). It has no member of its own.
- `backend/models/Task.js` is not part of this model, so no task schema validation is modelled.
- TaskController.UpdateTaskOutcome: with no Task schema at hand, `Object.assign` is modelled
  on the path names that `createTask` uses. Keys outside them are ignored. A value of the wrong
  kind fails the save with 500 "Task validation failed". Mongoose's casting of numbers to
  strings is not modelled.
- TaskController.CreateTaskOutcome: `Task.create` is assumed to succeed. Its possible 500 is
  not modelled.
- Text.Lower: `toLowerCase` is modelled on ASCII letters only.

## Findings

| source | as written | input that shows it | evidently intended | confidence | as-written member | corrected member |
|---|---|---|---|---|---|---|
| backend/controllers/authController.js:163-172 | `User.findById(userId)` loads the user without the password, which the schema marks `select: false`. `bcrypt.compare(currentPassword, undefined)` then rejects, and the catch answers 400 "Error updating password". | any stored user, with the correct current password and a valid new one | load the hash with `.select('+password')`, as `login` does at line 88, so that a correct current password leads to the update | not executed | AuthController.ChangePasswordAsWrittenNeverSucceeds | AuthController.ChangePasswordSuccess |
