/** The database the use cases run against: three tables and their
    autoincrement counters, with the row operations of the mapped classes
    (`Goal.add_goal`, `goal.update`, `Goal.delete`, `Target.add`,
    `target.update`, `Target.delete`, `User.create`, `User.delete_user`).
    A use case's `session.begin()` transaction is modelled by doing every
    check before the first change. */
module Database {
  import opened Outcomes
  import opened Tables
  import opened Models
  import opened TargetSchemas

  /** The foreign key `target.goal_id -> goal.id`. */
  ghost predicate TargetsHaveGoals(goals: seq<Goal>, targets: seq<Target>) {
    forall i :: 0 <= i < |targets| ==> exists j :: 0 <= j < |goals| && goals[j].id == targets[i].goalId
  }

  /** Every stored target within its bound: what the request validator
      promises for the bodies it lets through. */
  ghost predicate ProgressWithinTarget(targets: seq<Target>) {
    forall i :: 0 <= i < |targets| ==> targets[i].progress <= targets[i].target
  }

  /** Every request body would pass `validate_progress`. */
  ghost predicate AllValid(reqs: seq<TargetData>) {
    forall i :: 0 <= i < |reqs| ==> ValidateProgress(reqs[i]).Ok?
  }

  /** The target rows `Goal.add_goal` inserts for a new goal, numbered from
      `firstId` in the order of the request. */
  function NewTargets(reqs: seq<TargetData>, goalId: int, firstId: int): (r: seq<Target>)
    ensures |r| == |reqs|
    ensures forall i :: 0 <= i < |r| ==>
              r[i] == Target(firstId + i, reqs[i].title, reqs[i].target, reqs[i].progress, goalId)
  {
    seq(|reqs|, i requires 0 <= i < |reqs| =>
      Target(firstId + i, reqs[i].title, reqs[i].target, reqs[i].progress, goalId))
  }

  /** Deleting a goal together with its targets leaves every remaining
      target attached to a remaining goal. */
  lemma CascadeKeepsForeignKey(goals: seq<Goal>, targets: seq<Target>, id: int)
    requires TargetsHaveGoals(goals, targets)
    ensures TargetsHaveGoals(Filter(goals, GoalIdIsNot(id)), Filter(targets, NotInGoal(id)))
  {
    var goals', targets' := Filter(goals, GoalIdIsNot(id)), Filter(targets, NotInGoal(id));
    forall i | 0 <= i < |targets'|
      ensures exists j :: 0 <= j < |goals'| && goals'[j].id == targets'[i].goalId
    {
      var k :| 0 <= k < |targets| && targets[k] == targets'[i];
      var j :| 0 <= j < |goals| && goals[j].id == targets[k].goalId;
      assert GoalIdIsNot(id)(goals[j]);
      var j' :| 0 <= j' < |goals'| && goals'[j'] == goals[j];
    }
  }

  /** Inserting a goal keeps every existing target attached. */
  lemma AppendGoalKeepsForeignKey(goals: seq<Goal>, targets: seq<Target>, g: Goal)
    requires TargetsHaveGoals(goals, targets)
    ensures TargetsHaveGoals(goals + [g], targets)
  {
    var goals' := goals + [g];
    forall k | 0 <= k < |targets|
      ensures exists j :: 0 <= j < |goals'| && goals'[j].id == targets[k].goalId
    {
      var j :| 0 <= j < |goals| && goals[j].id == targets[k].goalId;
      assert goals'[j] == goals[j];
    }
    // The same fact as a plain quantifier, in the shape of the predicate's body.
    assert forall k :: 0 <= k < |targets| ==> exists j :: 0 <= j < |goals'| && goals'[j].id == targets[k].goalId;
  }

  /** Inserting a target of an existing goal keeps the foreign key. */
  lemma AppendTargetKeepsForeignKey(goals: seq<Goal>, targets: seq<Target>, t: Target)
    requires TargetsHaveGoals(goals, targets)
    requires exists j :: 0 <= j < |goals| && goals[j].id == t.goalId
    ensures TargetsHaveGoals(goals, targets + [t])
  {
    var targets' := targets + [t];
    forall k | 0 <= k < |targets'|
      ensures exists j :: 0 <= j < |goals| && goals[j].id == targets'[k].goalId
    {
      if k < |targets| {
        assert targets'[k] == targets[k];
      } else {
        assert targets'[k] == t;
      }
    }
  }

  /** The reload after `Goal.add_goal`: the targets of a goal whose id is
      above every stored one are exactly the rows just inserted for it. */
  lemma ReloadNewGoal(goals: seq<Goal>, older: seq<Target>, added: seq<Target>, gid: int)
    requires TargetsHaveGoals(goals, older)
    requires KeysBelow(goals, GoalKey, gid)
    requires forall k :: 0 <= k < |added| ==> added[k].goalId == gid
    ensures Filter(older + added, InGoal(gid)) == added
  {
    FilterAppend(older, added, InGoal(gid));
    forall k | 0 <= k < |older| ensures !InGoal(gid)(older[k]) {
      var j :| 0 <= j < |goals| && goals[j].id == older[k].goalId;
      assert GoalKey(goals[j]) < gid;
    }
    FilterNone(older, InGoal(gid));
    FilterAll(added, InGoal(gid));
  }

  class Store {
    var users: seq<User>
    var goals: seq<Goal>
    var targets: seq<Target>
    var nextUserId: int
    var nextGoalId: int
    var nextTargetId: int

    /** Primary keys ordered and below their counters, unique email and
        username, and every target attached to an existing goal. */
    ghost predicate Valid()
      reads this
    {
      && 1 <= nextUserId && 1 <= nextGoalId && 1 <= nextTargetId
      && Ascending(users, UserKey) && KeysBelow(users, UserKey, nextUserId)
      && Ascending(goals, GoalKey) && KeysBelow(goals, GoalKey, nextGoalId)
      && Ascending(targets, TargetKey) && KeysBelow(targets, TargetKey, nextTargetId)
      && CredentialsUnique(users)
      && TargetsHaveGoals(goals, targets)
    }

    constructor ()
      ensures Valid()
      ensures users == [] && goals == [] && targets == []
    {
      users, goals, targets := [], [], [];
      nextUserId, nextGoalId, nextTargetId := 1, 1, 1;
    }

    /** `Goal.add_goal`: inserts the goal and, in the same unit of work, one
        target per request item, then returns the goal reloaded with its
        targets. */
    method AddGoal(title: string, description: string, private: bool, userId: int, reqs: seq<TargetData>)
      returns (r: GoalWithTargets)
      requires Valid()
      modifies this
      ensures Valid()
      ensures r.goal == Goal(old(nextGoalId), title, description, private, userId)
      ensures goals == old(goals) + [r.goal]
      ensures r.targets == NewTargets(reqs, r.goal.id, old(nextTargetId))
      ensures targets == old(targets) + r.targets
      ensures r == Hydrate(targets, r.goal)
      ensures users == old(users) && nextUserId == old(nextUserId)
      ensures nextGoalId == old(nextGoalId) + 1 && nextTargetId == old(nextTargetId) + |reqs|
    {
      var g := Goal(nextGoalId, title, description, private, userId);
      AppendNext(goals, GoalKey, nextGoalId, g);
      goals := goals + [g];
      nextGoalId := nextGoalId + 1;
      AppendGoalKeepsForeignKey(old(goals), targets, g);
      assert goals[|goals| - 1] == g;
      var i := 0;
      while i < |reqs|
        invariant 0 <= i <= |reqs|
        invariant nextTargetId == old(nextTargetId) + i
        invariant targets == old(targets) + NewTargets(reqs[..i], g.id, old(nextTargetId))
        invariant goals == old(goals) + [g] && users == old(users)
        invariant nextGoalId == old(nextGoalId) + 1 && nextUserId == old(nextUserId)
        invariant Valid()
      {
        var t := Target(nextTargetId, reqs[i].title, reqs[i].target, reqs[i].progress, g.id);
        AppendNext(targets, TargetKey, nextTargetId, t);
        AppendTargetKeepsForeignKey(goals, targets, t);
        assert NewTargets(reqs[..i + 1], g.id, old(nextTargetId)) ==
               NewTargets(reqs[..i], g.id, old(nextTargetId)) + [t];
        targets := targets + [t];
        nextTargetId := nextTargetId + 1;
        i := i + 1;
      }
      assert reqs[..i] == reqs;
      var added := NewTargets(reqs, g.id, old(nextTargetId));
      ReloadNewGoal(old(goals), old(targets), added, g.id);
      r := GoalWithTargets(g, TargetsOf(targets, g.id));
    }

    /** `goal.update` followed by `session.refresh`: rewrites title,
        description and the private flag of one goal. */
    method UpdateGoal(g: Goal, title: string, description: string, private: bool)
      returns (r: GoalWithTargets)
      requires Valid() && g in goals
      modifies this
      ensures Valid()
      ensures r.goal == g.(title := title, description := description, private := private)
      ensures goals == Replace(old(goals), GoalKey, r.goal)
      ensures r == Hydrate(targets, r.goal)
      ensures users == old(users) && targets == old(targets)
      ensures nextUserId == old(nextUserId) && nextGoalId == old(nextGoalId) && nextTargetId == old(nextTargetId)
    {
      var updated := g.(title := title, description := description, private := private);
      ReplaceKeys(goals, GoalKey, updated, nextGoalId);
      goals := Replace(goals, GoalKey, updated);
      r := Hydrate(targets, updated);
    }

    /** `Goal.delete`: removes the goal and, by the `delete, delete-orphan`
        cascade of `Goal.targets`, all its targets. */
    method DeleteGoal(g: Goal)
      requires Valid() && g in goals
      modifies this
      ensures Valid()
      ensures goals == Filter(old(goals), GoalIdIsNot(g.id))
      ensures targets == Filter(old(targets), NotInGoal(g.id))
      ensures users == old(users)
      ensures nextUserId == old(nextUserId) && nextGoalId == old(nextGoalId) && nextTargetId == old(nextTargetId)
    {
      FilterAscending(goals, GoalKey, GoalIdIsNot(g.id));
      FilterKeysBelow(goals, GoalKey, nextGoalId, GoalIdIsNot(g.id));
      FilterAscending(targets, TargetKey, NotInGoal(g.id));
      FilterKeysBelow(targets, TargetKey, nextTargetId, NotInGoal(g.id));
      CascadeKeepsForeignKey(goals, targets, g.id);
      goals, targets := Filter(goals, GoalIdIsNot(g.id)), Filter(targets, NotInGoal(g.id));
    }

    /** `Target.add`: inserts one target of an existing goal (the foreign
        key), with `progress` 0 when the caller gives none. */
    method AddTarget(title: string, target: int, goalId: int, progress: int := 0) returns (t: Target)
      requires Valid()
      requires exists j :: 0 <= j < |goals| && goals[j].id == goalId
      modifies this
      ensures Valid()
      ensures t == Target(old(nextTargetId), title, target, progress, goalId)
      ensures targets == old(targets) + [t]
      ensures users == old(users) && goals == old(goals)
      ensures nextUserId == old(nextUserId) && nextGoalId == old(nextGoalId) && nextTargetId == old(nextTargetId) + 1
    {
      t := Target(nextTargetId, title, target, progress, goalId);
      AppendNext(targets, TargetKey, nextTargetId, t);
      AppendTargetKeepsForeignKey(goals, targets, t);
      targets := targets + [t];
      nextTargetId := nextTargetId + 1;
    }

    /** `target.update` followed by `session.refresh`. A caller that passes
        no `progress` leaves the stored one as it is. */
    method UpdateTarget(t: Target, title: string, target: int, progress: int := t.progress) returns (r: Target)
      requires Valid() && t in targets
      modifies this
      ensures Valid()
      ensures r == t.(title := title, target := target, progress := progress)
      ensures targets == Replace(old(targets), TargetKey, r)
      ensures users == old(users) && goals == old(goals)
      ensures nextUserId == old(nextUserId) && nextGoalId == old(nextGoalId) && nextTargetId == old(nextTargetId)
    {
      r := t.(title := title, target := target, progress := progress);
      ReplaceKeys(targets, TargetKey, r, nextTargetId);
      targets := Replace(targets, TargetKey, r);
      assert TargetsHaveGoals(goals, targets) by {
        forall i | 0 <= i < |targets|
          ensures exists j :: 0 <= j < |goals| && goals[j].id == targets[i].goalId
        {
          assert targets[i].goalId == old(targets)[i].goalId;
        }
      }
    }

    /** `Target.delete`: removes one target; its goal is untouched. */
    method DeleteTarget(t: Target)
      requires Valid() && t in targets
      modifies this
      ensures Valid()
      ensures targets == Filter(old(targets), TargetIdIsNot(t.id))
      ensures users == old(users) && goals == old(goals)
      ensures nextUserId == old(nextUserId) && nextGoalId == old(nextGoalId) && nextTargetId == old(nextTargetId)
    {
      FilterAscending(targets, TargetKey, TargetIdIsNot(t.id));
      FilterKeysBelow(targets, TargetKey, nextTargetId, TargetIdIsNot(t.id));
      var targets' := Filter(targets, TargetIdIsNot(t.id));
      forall i | 0 <= i < |targets'|
        ensures exists j :: 0 <= j < |goals| && goals[j].id == targets'[i].goalId
      {
        var k :| 0 <= k < |targets| && targets[k] == targets'[i];
      }
      targets := targets';
    }

    /** `User.create`: inserts the user and returns it re-read by its new id.
        The unique constraints on email and username are the database's
        demand on the caller. */
    method CreateUser(email: string, username: string, password: string) returns (u: User)
      requires Valid()
      requires forall i :: 0 <= i < |users| ==> users[i].email != email && users[i].username != username
      modifies this
      ensures Valid()
      ensures u == User(old(nextUserId), email, username, password)
      ensures users == old(users) + [u]
      ensures UserById(users, u.id) == Some(u)
      ensures goals == old(goals) && targets == old(targets)
      ensures nextUserId == old(nextUserId) + 1 && nextGoalId == old(nextGoalId) && nextTargetId == old(nextTargetId)
    {
      u := User(nextUserId, email, username, password);
      AppendNext(users, UserKey, nextUserId, u);
      users := users + [u];
      nextUserId := nextUserId + 1;
      assert users[|users| - 1] == u;
    }

    /** `User.delete_user`: a bulk `DELETE ... WHERE username = :username` on
        the user table alone (it bypasses the ORM cascade). The removal is
        promised only when no goal refers to a removed user; otherwise the
        foreign key `goal.user_id` decides, and the model does not say how. */
    method DeleteUser(username: string)
      requires Valid()
      modifies this
      ensures Valid()
      ensures (forall i, j :: 0 <= i < |old(users)| && 0 <= j < |goals| && old(users)[i].username == username ==>
                 goals[j].userId != old(users)[i].id) ==>
                users == Filter(old(users), UsernameIsNot(username))
      ensures goals == old(goals) && targets == old(targets)
      ensures nextUserId == old(nextUserId) && nextGoalId == old(nextGoalId) && nextTargetId == old(nextTargetId)
    {
      FilterAscending(users, UserKey, UsernameIsNot(username));
      FilterKeysBelow(users, UserKey, nextUserId, UsernameIsNot(username));
      var users' := Filter(users, UsernameIsNot(username));
      forall i, j | 0 <= i < |users'| && 0 <= j < |users'| && i != j
        ensures users'[i].email != users'[j].email && users'[i].username != users'[j].username
      {
        var a :| 0 <= a < |users| && users[a] == users'[i];
        var b :| 0 <= b < |users| && users[b] == users'[j];
        assert UserKey(users'[i]) != UserKey(users'[j]);
      }
      users := users';
    }
  }
}
