# goal_connect_async: goal and target ownership rules in Dafny

goal_connect_async is a goal-tracking backend. Users register and create
goals, each holding numeric targets with a progress counter. A goal is
either public or private. This project models the rule set that the use
cases enforce around ownership:

- the write gate `check_access_to_goal`: 404 before 403, modification by the owner only;
- the read policy of `ReadGoal`: a private goal is readable by its owner only;
- the goal, target and user use cases, each an all-or-nothing transaction;
- the two request validators: `progress <= target` and the password pattern.

## Structure

- `outcomes.dfy` (`Outcomes`) holds the error kinds of the HTTP layer
  (404 `NotFound`, 403 `Forbidden`, 400 `BadRequest`, 401 `Unauthorized`),
  together with `Option`, `Result` and `Outcome`.
- `tables.dfy` (`Tables`) holds generic table primitives over a `seq` of
  rows in strictly ascending primary-key order:
  - `Filter` is `WHERE`;
  - `FindFirst` is `session.scalar`;
  - `Page` is `LIMIT`/`OFFSET`;
  - `Replace` is an in-place row update.
- `models.dfy` (`Models`) holds the mapped rows `User`, `Goal` and `Target`,
  plus the queries of the mapped classes and the relationships `Goal.targets`
  and `User.goals` (both ordered by id).
- `access.dfy` (`Access`) holds the gate and the two policies.
- `target_schemas.dfy` and `user_schema.dfy` hold the validators.
- `database.dfy` (`Database`) holds class `Store`: the three tables and
  their autoincrement counters.
  - `Valid()` says that keys are ascending and below their counters, that
    email and username are unique, and that every target belongs to an
    existing goal.
  - Its methods are the row operations of the mapped classes.
- `goal_use_cases.dfy`, `target_use_cases.dfy` and `user_use_cases.dfy`
  follow app/api/goal/models.py, app/api/target/models.py and
  app/api/user/models.py.
  - Read-only use cases are functions over the tables.
  - Mutating ones are methods on a `Store`. Each does every check before
    its first change, so a failure leaves the store unchanged (the
    `session.begin()` transaction).
  - Every gated method's result and new state are tied to a pure check
    function (`CheckAccessToGoal`, `TargetInGoalCheck`, `DeleteTargetCheck`,
    `RegisterCheck`), and the properties are proved about those functions.

### Where the source leaves things open

- The mapped `Target` class (app/models/target.py:16-27) has no `progress`
  column. Every use case and `TargetSchema` uses one, so `Target` carries a
  `progress: int` that defaults to 0.
- The row operations `Goal.add_goal`, `Goal.read_by_id`,
  `Goal.read_user_goals`, `goal.update`, `Goal.delete`, `Target.add`,
  `Target.read_by_id`, `target.update`, `Target.delete` and the use case
  `ReadPublicGoals` are used by the core but their bodies are not
  modelled. The model follows their call sites and the tests.
- `Target.update` called with title and target only (app/api/goal/models.py:123)
  is taken to keep the stored progress.
- The public listing is modelled as one page of all non-private goals in
  id order.
- The two `DeleteTarget` use cases differ, and both are modelled:
  - the goal-file one returns silently for an unknown target id;
  - the target-file one answers 404.
- Neither `DeleteTarget` checks that the target belongs to `goal_id`. The
  target-file one is listed under Findings.
- Neither `UpdateTarget` re-checks `progress <= target` on the stored row.
  - The goal-file one changes `target` without looking at progress.
  - `ProgressWithinTarget` is therefore proved preserved only for calls
    whose arguments satisfy the request validator.

## Model

| member | source | states |
|---|---|---|
| Models.UserById | app/models/user.py:35-38 | the row with that id, or None exactly when no row has it; the only such row in an ordered table |
| Models.UserByUsername | app/models/user.py:47-52 | a row with that username, or None exactly when none has it; with unique usernames, the one such row |
| Models.UserByEmailOrUsername | app/models/user.py:40-45 | a row whose username or email matches, None exactly when no row matches either |
| Models.GoalById | app/api/goal/models.py:37-39 | the goal with that id, or None exactly when there is none; unique in an ordered table |
| Models.TargetById | app/api/target/models.py:43-45 | the target with that id from the whole table (not scoped by goal), or None exactly when there is none |
| Models.TargetsOf | app/models/goal.py:27-32 | exactly the targets with that `goal_id`, in ascending id order |
| Models.GoalsOf | app/models/user.py:28-33 | exactly the goals with that owner, private ones included, in ascending id order |
| Models.PublicGoals | app/api/goal/router.py:53-61 | exactly the non-private goals of all users, in ascending id order |
| Models.Hydrate | app/models/goal.py:27-30 | the goal together with every target that belongs to it and no other, in ascending target id order |
| Models.HydrateAll | app/api/goal/models.py:57-58 | each goal of a page loaded with its targets, page order kept |
| Access.CheckAccessToGoal | app/api/goal/utils.py:5-13 | 404 for an absent goal, 403 with the fixed detail for another owner, a pass exactly when present and owned |
| Access.GateOnTable | app/api/goal/utils.py:5-13 | on a goal read by id: 404 iff no row has the id, 403 iff the row has another owner, pass iff the requester owns it |
| Access.GateErrors | app/api/goal/utils.py:6-9 | the 404 for a missing goal does not depend on who asks; the gate fails only with 404 or 403 |
| TargetSchemas.ValidateProgress | app/api/target/schemas.py:10-18 | accepts iff progress <= target, returning the body unchanged; otherwise 400 with the fixed detail |
| TargetSchemas.ValidateRequest | app/api/target/schemas.py:21-22 | the request body inherits the same rule: accepted unchanged iff progress <= target, otherwise the same 400 with the fixed detail |
| TargetSchemas.ValidateResponse | app/api/target/schemas.py:25-26 | the response body inherits the same rule; the id plays no part |
| TargetSchemas.ValidateIdempotent | app/api/target/schemas.py:10-18 | validating an accepted body again gives the same result |
| TargetSchemas.NoLowerBound | app/api/target/schemas.py:5-18 | equality passes, negative values pass, progress one above the target fails |
| UserSchema.FirstLine | app/api/user/schema.py:25 | the longest newline-free prefix, which is what `.` can cover from the start |
| UserSchema.FirstLineOfSingleLine | app/api/user/schema.py:25 | a string without a newline is its own first line |
| UserSchema.FirstLineOfLineBreak | app/api/user/schema.py:25 | a final newline is not part of the first line |
| UserSchema.ValidatePassword | app/api/user/schema.py:23-32 | accepts exactly the strings the pattern matches, returns the password unchanged, else 400 with the fixed detail |
| UserSchema.ValidateUserRequest | app/api/user/schema.py:18-32 | only the password decides; email and username pass through unchanged |
| UserSchema.PasswordRule | app/api/user/schema.py:25-26 | for a password without line breaks: accepted iff at least 8 characters with a lower-case letter, an upper-case letter and a digit |
| UserSchema.PasswordTrailingNewline | app/api/user/schema.py:25-26 | one trailing newline does not change the verdict and is kept |
| UserSchema.PasswordInnerNewline | app/api/user/schema.py:25-26 | a newline that is not the last character rejects the password |
| UserSchema.TestPasswordAccepted | app/tests/api/user/test_router.py:29-34 | the password the tests register with is accepted |
| UserSchema.NoUpperRejected | app/api/user/schema.py:25-30 | every password without an upper-case letter is rejected, whatever its length or line breaks |
| Database.NewTargets | app/api/goal/models.py:25-27 | one target row per request item, in request order, fields copied, bound to the new goal |
| Database.CascadeKeepsForeignKey | app/models/goal.py:27-32 | after a goal and its targets are removed, every remaining target still belongs to a remaining goal |
| Database.Store.constructor | app/models/user.py:19-21 | an empty database satisfies the table invariant |
| Database.AppendGoalKeepsForeignKey | app/models/target.py:24-25 | inserting a goal leaves every existing target attached to a goal |
| Database.AppendTargetKeepsForeignKey | app/models/target.py:24-25 | inserting a target of an existing goal keeps every target attached to a goal |
| Database.ReloadNewGoal | app/models/goal.py:27-30 | reloading a goal whose id is above every stored one yields exactly the targets just inserted for it, in insertion order |
| Database.Store.AddGoal | app/api/goal/models.py:25-28 | appends the goal and its targets with fresh ids and returns the goal reloaded with exactly those targets |
| Database.Store.UpdateGoal | app/api/goal/models.py:103-104 | rewrites title, description and the private flag of that goal only |
| Database.Store.DeleteGoal | app/models/goal.py:27-32 | removes the goal and, by cascade, every target of it |
| Database.Store.AddTarget | app/api/target/models.py:20-22 | appends one target with a fresh id; progress defaults to 0 |
| Database.Store.UpdateTarget | app/api/target/models.py:47-48 | rewrites title, target and progress of that target only; an omitted progress keeps the stored one |
| Database.Store.DeleteTarget | app/api/target/models.py:64 | removes that one target |
| Database.Store.CreateUser | app/models/user.py:59-70 | appends one user with a fresh id and the given fields, readable back by id |
| Database.Store.DeleteUser | app/models/user.py:54-57 | touches the user table alone; when no goal refers to a user with that username, removes exactly those users |
| GoalUseCases.CreateGoal | app/api/goal/models.py:16-28 | one new goal owned by the requester with a fresh id; its targets are the request items in order; returned with them; the owner has one goal more |
| GoalUseCases.ReadGoal | app/api/goal/models.py:35-46 | 404 iff absent; 403 with the fixed detail iff private and not the requester's; otherwise the goal with its targets |
| GoalUseCases.ReadGoalAllowed | app/api/goal/models.py:41-46 | the owner can always read, and anyone can read a public goal |
| GoalUseCases.ReadUserGoals | app/api/goal/models.py:53-58 | exactly the `LIMIT`/`OFFSET` page of the requester's own goals, private ones included, in ascending id order: entry i is owned goal number offset + i, and the page holds min(limit, owned - offset) goals, each with its targets |
| GoalUseCases.FirstUserGoal | app/tests/api/target/test_router.py:38 | limit 1 at offset 0 gives the requester's goal with the smallest id |
| GoalUseCases.ReadPublicGoals | app/api/goal/router.py:53-61 | exactly the `LIMIT`/`OFFSET` page of the non-private goals of all users, in ascending id order: entry i is public goal number offset + i, and the page holds min(limit, public - offset) goals, each with its targets |
| GoalUseCases.TargetInGoalCheck | app/api/goal/models.py:116-121 | 404 for an unknown goal, 403 for another user's goal; for the owner, passes iff the target exists and belongs to that goal, and every failure is 404 |
| GoalUseCases.AddTargetToGoal | app/api/goal/models.py:65-73 | behind the gate, one new target of that goal with the given fields and progress 0; a gate failure changes nothing; progress stays within target when the new target is not negative |
| GoalUseCases.DeleteGoal | app/api/goal/models.py:80-84 | behind the gate, removes exactly that goal and its targets; the owner has one goal fewer; a gate failure changes nothing |
| GoalUseCases.UpdateGoal | app/api/goal/models.py:91-105 | behind the gate, sets title, description and private; id, owner, targets and all other goals unchanged |
| GoalUseCases.UpdateTarget | app/api/goal/models.py:112-125 | 404 for an unknown goal, 403 for another user's goal, and for the owner 404 exactly when no target with that id belongs to the goal, all without change; sets title and target only; progress, id and goal unchanged, as are all other targets |
| GoalUseCases.DeleteTarget | app/api/goal/models.py:132-140 | gate first; an unknown target id returns successfully without change; otherwise removes that target, whichever goal it belongs to |
| TargetUseCases.AddTarget | app/api/target/models.py:13-23 | behind the gate, one new target with the given title, target, progress and goal; the goal has one target more; a gate failure changes nothing |
| TargetUseCases.UpdateTarget | app/api/target/models.py:30-49 | 404 for an unknown goal, 403 for another user's goal, and for the owner 404 exactly when no target with that id belongs to the goal, all without change; sets title, target and progress; id, goal and other targets unchanged |
| TargetUseCases.DeleteTargetCheck | app/api/target/models.py:56-63 | 404 for an unknown goal, 403 for another user's goal; for the owner, 404 iff no target has that id and no other failure; the goal is not compared |
| TargetUseCases.DeleteTarget | app/api/target/models.py:56-64 | 404 for an unknown goal, 403 for another user's goal, and for the owner 404 exactly when no target has that id, all without change; otherwise removes exactly that target; the table and that target's goal each have one target fewer |
| TargetUseCases.DropTarget | app/tests/api/target/test_router.py:66-76 | removing one target by id leaves one row fewer, one fewer in its goal |
| TargetUseCases.DeleteTargetCrossGoal | app/api/target/models.py:57-64 | as written, the owner of one goal is allowed to delete a target of another user's private goal |
| TargetUseCases.ScopedCheckRefusesCrossGoal | app/api/target/models.py:43-45 | the goal-scoped check refuses that request with 404 |
| TargetUseCases.DeleteTargetScoped | app/api/target/models.py:40-45 | the corrected delete: 404, 403, then for the owner 404 exactly when no target with that id belongs to the goal; only a target of the named goal, owned by the requester, is ever removed |
| UserUseCases.ReadUserById | app/api/user/models.py:13-18 | 404 iff no user has that id, otherwise that user |
| UserUseCases.ReadUserByUsername | app/api/user/models.py:25-30 | 404 iff no user has that username, otherwise that user |
| UserUseCases.AuthenticateUser | app/api/user/models.py:56-67 | the same 401 for an unknown username and a wrong password; the user iff the username exists and the password verifies |
| UserUseCases.RegisterCheck | app/api/user/models.py:39-46 | fails iff the email or the username is taken; the email error whenever only the email is taken or the very same user holds both, the username error whenever only the username is taken |
| UserUseCases.SameHolderFound | app/models/user.py:40-45 | with unique credentials, the user holding both the email and the username is the one the lookup finds |
| UserUseCases.RegisterReportsFirstMatch | app/api/user/models.py:39-46 | for every table, the first user in id order matching either credential decides: the email error if that user holds the email, otherwise the username error, even when a later user holds the email |
| UserUseCases.RegisterUser | app/api/user/models.py:37-49 | either the 400 of the check and no change, or one new user with a fresh id storing the hash of the password, readable by username and id |
| UserUseCases.DeleteUser | app/api/user/models.py:74-76 | goals and targets untouched; when the user owns no goals, that username is gone and every other user keeps its row |
| UserUseCases.DeleteKeepsOthers | app/models/user.py:55-57 | after the bulk delete no user has that username and each other user is still found by id |
| UserUseCases.DeleteUnknownUser | app/models/user.py:55-57 | deleting a username nobody has changes nothing and raises no error |

## Left out

- Integer width: ids, `goal.user_id`, `target.goal_id` and `target.target`
  are unbounded `int` in `Models.User`, `Models.Goal` and `Models.Target`.
  The tables declare them as 32-bit `INTEGER` on PostgreSQL
  (app/database/migrations/versions/5fd5f71af7ef_init.py:24,36,41,48,50,51).
  The database's rejection of values outside [-2^31, 2^31) is not modelled.
  That rejection is a database error rather than an HTTP answer. So a
  lookup of goal 3000000000 gets 404 in the model, and an `AddTarget` with
  target 2147483648 stores the row.
- Tokens (app/api/user/jwt.py) are left out: creation, expiry, cookies and
  the resolution of a token to a user. The use cases receive the
  requester's id or username directly.
- Password hashing and verification (app/api/user/security.py) are
  foreign code. `RegisterUser` takes `hash` and `AuthenticateUser` takes
  `verify` as function-valued parameters.
- `EmailStr` validation, the `created_at` timestamps and the conversion into
  response schemas are not modelled. `User` stands for `UserSchema`.
- The HTTP routers are thin wrappers and are not modelled:
  - the `limit <= 100` query bound;
  - the anonymous read branch, which does not match `ReadGoal`'s signature.
- Concurrency is not modelled: the check-then-insert race in registration
  and last-write-wins updates. Each use case runs alone.
- Referential integrity of `goal.user_id` is not part of `Store.Valid()`.
  - `User.delete_user` is a bulk `DELETE` on the user table that bypasses
    the ORM cascade, and the foreign keys carry no `ON DELETE` rule.
  - What the database does when the deleted user still owns goals is
    therefore not modelled.
- UserUseCases.DeleteUser: when a user with that username owns goals, the
  result for the user table is left unspecified. The foreign key
  `goal.user_id` has no `ON DELETE` rule, so the database may refuse the
  delete. Only "goals and targets unchanged" is promised in that case.
  `Database.Store.DeleteUser` is stated with the same condition.
- AuthenticateUser: `verify` is a total function parameter, so the model
  makes no claim about real hashes.
- UserSchema.IsDigit: only ASCII digits `0`-`9` are modelled, although
  Python's `\d` on `str` also matches other Unicode decimal digits.
- GoalUseCases.ReadUserGoals, GoalUseCases.ReadPublicGoals: `limit` and
  `offset` are `nat`, so negative values, which SQL would reject or treat
  differently, are not modelled. The public route
  (app/api/goal/router.py:55-56) also has no upper bound on `limit`; the
  model puts none on either listing.
- Models.UserByEmailOrUsername: the query has no `ORDER BY`. The model
  takes the first match in id order, which is one of the orders the
  database may return.
- `ProgressWithinTarget` is not part of `Store.Valid()`, for two reasons:
  - the goal-file `UpdateTarget` can break it;
  - the mapped table has no such constraint.
- `ProgressWithinTarget` is proved preserved by these, when their inputs
  satisfy the validator: `CreateGoal`, `TargetUseCases.AddTarget` and the
  target-file `UpdateTarget`.
- `GoalUseCases.AddTargetToGoal` stores progress 0 whatever the target, so a
  negative target breaks the bound. It is proved preserved there only for a
  target of 0 or more.
- The goal-file `GoalUseCases.UpdateTarget` can break the bound, and no
  preservation is claimed for it.

## Findings

| source | as written | input that shows it | evidently intended | confidence | as-written member | corrected member |
|---|---|---|---|---|---|---|
| app/api/target/models.py:61-64 | the target is looked up by id alone and deleted once the requester owns `goal_id` | user 1 owns goal 1; user 2 owns private goal 2 with target 7; user 1 deletes target 7 "of goal 1" and it is removed | the target must belong to `goal_id` as in `UpdateTarget` (lines 43-45), else 404 | medium, not executed | TargetUseCases.DeleteTargetCrossGoal | TargetUseCases.DeleteTargetScoped |
