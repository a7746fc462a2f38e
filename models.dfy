/** The mapped entities (app/models/user.py, goal.py, target.py) and the
    select queries the use cases run on their tables. A table is a sequence
    of rows in ascending id order; see module Tables. */
module Models {
  import opened Outcomes
  import opened Tables

  /** A row of `user`. `password` holds the hash, never the plain password. */
  datatype User = User(id: int, email: string, username: string, password: string)

  /** A row of `goal`; `userId` is the owner. */
  datatype Goal = Goal(id: int, title: string, description: string, private: bool, userId: int)

  /** A row of `target`; `goalId` is the goal it belongs to. */
  datatype Target = Target(id: int, title: string, target: int, progress: int, goalId: int)

  /** `GoalSchema`: a goal with its `targets` relationship loaded. */
  datatype GoalWithTargets = GoalWithTargets(goal: Goal, targets: seq<Target>)

  function UserKey(u: User): int { u.id }
  function GoalKey(g: Goal): int { g.id }
  function TargetKey(t: Target): int { t.id }

  // The WHERE clauses.
  function UserIdIs(id: int): User -> bool { (u: User) => u.id == id }
  function UsernameIs(username: string): User -> bool { (u: User) => u.username == username }
  function UsernameIsNot(username: string): User -> bool { (u: User) => u.username != username }
  function EmailOrUsernameIs(email: string, username: string): User -> bool {
    (u: User) => u.username == username || u.email == email
  }
  function GoalIdIs(id: int): Goal -> bool { (g: Goal) => g.id == id }
  function GoalIdIsNot(id: int): Goal -> bool { (g: Goal) => g.id != id }
  function OwnedBy(userId: int): Goal -> bool { (g: Goal) => g.userId == userId }
  const IsPublic: Goal -> bool := (g: Goal) => !g.private
  function TargetIdIs(id: int): Target -> bool { (t: Target) => t.id == id }
  function TargetIdIsNot(id: int): Target -> bool { (t: Target) => t.id != id }
  function InGoal(goalId: int): Target -> bool { (t: Target) => t.goalId == goalId }
  function NotInGoal(goalId: int): Target -> bool { (t: Target) => t.goalId != goalId }

  /** `unique=True` on both `email` and `username`. */
  ghost predicate CredentialsUnique(users: seq<User>) {
    forall i, j :: 0 <= i < |users| && 0 <= j < |users| && i != j ==>
      users[i].email != users[j].email && users[i].username != users[j].username
  }

  /** `User.read_by_id`. */
  function UserById(users: seq<User>, id: int): (r: Option<User>)
    ensures r.Some? ==> r.value in users && r.value.id == id
    ensures r.None? <==> forall i :: 0 <= i < |users| ==> users[i].id != id
    ensures Ascending(users, UserKey) ==>
              forall i :: 0 <= i < |users| && users[i].id == id ==> r == Some(users[i])
  {
    FindFirst(users, UserIdIs(id))
  }

  /** `User.read_by_username`. */
  function UserByUsername(users: seq<User>, username: string): (r: Option<User>)
    ensures r.Some? ==> r.value in users && r.value.username == username
    ensures r.None? <==> forall i :: 0 <= i < |users| ==> users[i].username != username
    ensures CredentialsUnique(users) ==>
              forall i :: 0 <= i < |users| && users[i].username == username ==> r == Some(users[i])
  {
    FindFirst(users, UsernameIs(username))
  }

  /** `User.read_by_email_or_username`. The query has no ORDER BY; the model
      returns the first match in id order. */
  function UserByEmailOrUsername(users: seq<User>, email: string, username: string): (r: Option<User>)
    ensures r.Some? ==> r.value in users && (r.value.username == username || r.value.email == email)
    ensures r.None? <==> forall i :: 0 <= i < |users| ==> users[i].username != username && users[i].email != email
  {
    FindFirst(users, EmailOrUsernameIs(email, username))
  }

  /** `Goal.read_by_id`. */
  function GoalById(goals: seq<Goal>, id: int): (r: Option<Goal>)
    ensures r.Some? ==> r.value in goals && r.value.id == id
    ensures r.None? <==> forall i :: 0 <= i < |goals| ==> goals[i].id != id
    ensures Ascending(goals, GoalKey) ==>
              forall i :: 0 <= i < |goals| && goals[i].id == id ==> r == Some(goals[i])
  {
    FindFirst(goals, GoalIdIs(id))
  }

  /** `Target.read_by_id`: not scoped by goal. */
  function TargetById(targets: seq<Target>, id: int): (r: Option<Target>)
    ensures r.Some? ==> r.value in targets && r.value.id == id
    ensures r.None? <==> forall i :: 0 <= i < |targets| ==> targets[i].id != id
    ensures Ascending(targets, TargetKey) ==>
              forall i :: 0 <= i < |targets| && targets[i].id == id ==> r == Some(targets[i])
  {
    FindFirst(targets, TargetIdIs(id))
  }

  /** `Goal.targets`: the goal's targets, `order_by="Target.id"`. */
  function TargetsOf(targets: seq<Target>, goalId: int): (r: seq<Target>)
    ensures forall i :: 0 <= i < |r| ==> r[i] in targets && r[i].goalId == goalId
    ensures forall i :: 0 <= i < |targets| && targets[i].goalId == goalId ==> targets[i] in r
    ensures Ascending(targets, TargetKey) ==> Ascending(r, TargetKey)
  {
    FilterAscendingIf(targets, TargetKey, InGoal(goalId));
    Filter(targets, InGoal(goalId))
  }

  /** `User.goals`: the user's goals, `order_by="Goal.id"`, private ones included. */
  function GoalsOf(goals: seq<Goal>, userId: int): (r: seq<Goal>)
    ensures forall i :: 0 <= i < |r| ==> r[i] in goals && r[i].userId == userId
    ensures forall i :: 0 <= i < |goals| && goals[i].userId == userId ==> goals[i] in r
    ensures Ascending(goals, GoalKey) ==> Ascending(r, GoalKey)
  {
    FilterAscendingIf(goals, GoalKey, OwnedBy(userId));
    Filter(goals, OwnedBy(userId))
  }

  /** The non-private goals of all users, in id order. */
  function PublicGoals(goals: seq<Goal>): (r: seq<Goal>)
    ensures forall i :: 0 <= i < |r| ==> r[i] in goals && !r[i].private
    ensures forall i :: 0 <= i < |goals| && !goals[i].private ==> goals[i] in r
    ensures Ascending(goals, GoalKey) ==> Ascending(r, GoalKey)
  {
    FilterAscendingIf(goals, GoalKey, IsPublic);
    Filter(goals, IsPublic)
  }

  lemma FilterAscendingIf<T>(rows: seq<T>, key: T -> int, p: T -> bool)
    ensures Ascending(rows, key) ==> Ascending(Filter(rows, p), key)
  {
    if Ascending(rows, key) {
      FilterAscending(rows, key, p);
    }
  }

  /** A goal loaded with its targets (`selectinload(Goal.targets)`). */
  function Hydrate(targets: seq<Target>, g: Goal): (r: GoalWithTargets)
    ensures r.goal == g
    ensures forall i :: 0 <= i < |r.targets| ==> r.targets[i] in targets && r.targets[i].goalId == g.id
    ensures forall i :: 0 <= i < |targets| && targets[i].goalId == g.id ==> targets[i] in r.targets
    ensures Ascending(targets, TargetKey) ==> Ascending(r.targets, TargetKey)
  {
    GoalWithTargets(g, TargetsOf(targets, g.id))
  }

  function HydrateAll(targets: seq<Target>, gs: seq<Goal>): (r: seq<GoalWithTargets>)
    ensures |r| == |gs|
    ensures forall i :: 0 <= i < |gs| ==> r[i] == Hydrate(targets, gs[i])
  {
    seq(|gs|, i requires 0 <= i < |gs| => Hydrate(targets, gs[i]))
  }
}
