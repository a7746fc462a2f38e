/** The use cases of app/api/target/models.py, the ones the target router
    serves. They differ from the same-named ones of module GoalUseCases:
    AddTarget takes a progress, UpdateTarget also sets progress, and
    DeleteTarget answers 404 for an unknown target id. */
module TargetUseCases {
  import opened Outcomes
  import opened Tables
  import opened Models
  import opened Access
  import opened Database
  import opened GoalUseCases

  /** `AddTarget.execute`: behind the gate, one new target of that goal,
      which then has one target more. */
  method AddTarget(db: Store, title: string, target: int, goalId: int, userId: int, progress: int)
    returns (r: Result<Target>)
    requires db.Valid()
    modifies db
    ensures db.Valid()
    ensures r.Err? <==> CheckAccessToGoal(GoalById(old(db.goals), goalId), userId).Fail?
    ensures r.Err? ==> r.error == CheckAccessToGoal(GoalById(old(db.goals), goalId), userId).error
    ensures r.Err? ==> unchanged(db)
    ensures r.Ok? ==> && r.value == Target(r.value.id, title, target, progress, goalId)
                      && (forall i :: 0 <= i < |old(db.targets)| ==> old(db.targets)[i].id < r.value.id)
                      && db.targets == old(db.targets) + [r.value]
                      && |TargetsOf(db.targets, goalId)| == |TargetsOf(old(db.targets), goalId)| + 1
                      && db.goals == old(db.goals) && db.users == old(db.users)
    ensures ProgressWithinTarget(old(db.targets)) && progress <= target ==> ProgressWithinTarget(db.targets)
  {
    var gate := CheckAccessToGoal(GoalById(db.goals, goalId), userId);
    if gate.Fail? {
      return Err(gate.error);
    }
    var t := db.AddTarget(title, target, goalId, progress);
    FilterAppend(old(db.targets), [t], InGoal(goalId));
    return Ok(t);
  }

  /** `UpdateTarget.execute`: 404 for a missing goal, then 403, then 404 for
      a target that is missing or under another goal; otherwise sets title,
      target and progress, and leaves id, goal and every other target as
      they were. */
  method UpdateTarget(db: Store, goalId: int, targetId: int, title: string, target: int, userId: int, progress: int)
    returns (r: Result<Target>)
    requires db.Valid()
    modifies db
    ensures db.Valid()
    ensures (forall i :: 0 <= i < |old(db.goals)| ==> old(db.goals)[i].id != goalId) ==> r == Err(NotFound)
    ensures (exists i :: 0 <= i < |old(db.goals)| && old(db.goals)[i].id == goalId && old(db.goals)[i].userId != userId) ==>
              r == Err(Forbidden(ModifyDenied))
    ensures (exists i :: 0 <= i < |old(db.goals)| && old(db.goals)[i].id == goalId && old(db.goals)[i].userId == userId) ==>
              && (r.Ok? <==> exists k :: 0 <= k < |old(db.targets)| && old(db.targets)[k].id == targetId && old(db.targets)[k].goalId == goalId)
              && (r.Err? ==> r.error == NotFound)
    ensures r.Err? <==> TargetInGoalCheck(old(db.goals), old(db.targets), goalId, targetId, userId).Err?
    ensures r.Err? ==> r.error == TargetInGoalCheck(old(db.goals), old(db.targets), goalId, targetId, userId).error
    ensures r.Err? ==> unchanged(db)
    ensures r.Ok? ==> && r.value == Target(targetId, title, target, progress, goalId)
                      && |db.targets| == |old(db.targets)|
                      && (forall i :: 0 <= i < |old(db.targets)| ==>
                            db.targets[i] == if old(db.targets)[i].id == targetId then r.value else old(db.targets)[i])
                      && db.goals == old(db.goals) && db.users == old(db.users)
    ensures ProgressWithinTarget(old(db.targets)) && progress <= target ==> ProgressWithinTarget(db.targets)
  {
    var check := TargetInGoalCheck(db.goals, db.targets, goalId, targetId, userId);
    if check.Err? {
      return Err(check.error);
    }
    var t := db.UpdateTarget(check.value, title, target, progress);
    return Ok(t);
  }

  /** The checks of `DeleteTarget.execute`: the gate on `goal_id`, then a
      404 for an unknown target id. Nothing ties the target to `goal_id`. */
  function DeleteTargetCheck(goals: seq<Goal>, targets: seq<Target>, goalId: int, targetId: int, userId: int)
    : (r: Result<Target>)
    ensures (forall i :: 0 <= i < |goals| ==> goals[i].id != goalId) ==> r == Err(NotFound)
    ensures Ascending(goals, GoalKey) &&
            (exists i :: 0 <= i < |goals| && goals[i].id == goalId && goals[i].userId != userId) ==>
              r == Err(Forbidden(ModifyDenied))
    ensures r.Ok? ==> && (exists i :: 0 <= i < |goals| && goals[i].id == goalId && goals[i].userId == userId)
                      && r.value in targets && r.value.id == targetId
    ensures Ascending(goals, GoalKey) &&
            (exists i :: 0 <= i < |goals| && goals[i].id == goalId && goals[i].userId == userId) ==>
              (r.Ok? <==> exists k :: 0 <= k < |targets| && targets[k].id == targetId)
    ensures (&& Ascending(goals, GoalKey)
             && (exists i :: 0 <= i < |goals| && goals[i].id == goalId && goals[i].userId == userId)
             && r.Err?) ==> r.error == NotFound
    ensures r.Err? ==> r.error in {NotFound, Forbidden(ModifyDenied)}
  {
    match CheckAccessToGoal(GoalById(goals, goalId), userId)
    case Fail(e) => Err(e)
    case Pass =>
      match TargetById(targets, targetId)
      case None => Err(NotFound)
      case Some(t) => Ok(t)
  }

  /** `DeleteTarget.execute`: after its checks, removes exactly that target,
      and the goal it belonged to has one target fewer. */
  method DeleteTarget(db: Store, goalId: int, targetId: int, userId: int) returns (r: Outcome)
    requires db.Valid()
    modifies db
    ensures db.Valid()
    ensures (forall i :: 0 <= i < |old(db.goals)| ==> old(db.goals)[i].id != goalId) ==> r == Fail(NotFound)
    ensures (exists i :: 0 <= i < |old(db.goals)| && old(db.goals)[i].id == goalId && old(db.goals)[i].userId != userId) ==>
              r == Fail(Forbidden(ModifyDenied))
    ensures (exists i :: 0 <= i < |old(db.goals)| && old(db.goals)[i].id == goalId && old(db.goals)[i].userId == userId) ==>
              && (r.Pass? <==> exists k :: 0 <= k < |old(db.targets)| && old(db.targets)[k].id == targetId)
              && (r.Fail? ==> r.error == NotFound)
    ensures r.Fail? <==> DeleteTargetCheck(old(db.goals), old(db.targets), goalId, targetId, userId).Err?
    ensures r.Fail? ==> r.error == DeleteTargetCheck(old(db.goals), old(db.targets), goalId, targetId, userId).error
    ensures r.Fail? ==> unchanged(db)
    ensures r.Pass? ==>
              var t := DeleteTargetCheck(old(db.goals), old(db.targets), goalId, targetId, userId).value;
              && db.targets == Filter(old(db.targets), TargetIdIsNot(targetId))
              && TargetById(db.targets, targetId).None?
              && |db.targets| == |old(db.targets)| - 1
              && |TargetsOf(db.targets, t.goalId)| == |TargetsOf(old(db.targets), t.goalId)| - 1
              && db.goals == old(db.goals) && db.users == old(db.users)
  {
    var check := DeleteTargetCheck(db.goals, db.targets, goalId, targetId, userId);
    if check.Err? {
      return Fail(check.error);
    }
    DropTarget(db.targets, check.value);
    db.DeleteTarget(check.value);
    return Pass;
  }

  /** Removing one target by id from an ordered table drops exactly one row,
      one of them from its goal. */
  lemma DropTarget(targets: seq<Target>, t: Target)
    requires Ascending(targets, TargetKey) && t in targets
    ensures |Filter(targets, TargetIdIsNot(t.id))| == |targets| - 1
    ensures |TargetsOf(Filter(targets, TargetIdIsNot(t.id)), t.goalId)| == |TargetsOf(targets, t.goalId)| - 1
  {
    var i :| 0 <= i < |targets| && targets[i] == t;
    forall j | 0 <= j < |targets| ensures TargetIdIsNot(t.id)(targets[j]) <==> j != i {
      if targets[j].id == t.id { KeyUnique(targets, TargetKey, i, j); }
    }
    FilterDropsOne(targets, i, TargetIdIsNot(t.id));
    FilterCountAfterDrop(targets, i, InGoal(t.goalId));
  }

  /** As written, the owner of one goal can delete a target of another
      user's private goal by naming their own goal's id: user 1 owns goal 1,
      user 2 owns goal 2 with target 7, and user 1 asks to delete target 7
      "of goal 1". */
  lemma DeleteTargetCrossGoal()
    ensures var goals := [Goal(1, "mine", "", false, 1), Goal(2, "theirs", "", true, 2)];
            var targets := [Target(7, "t", 5, 0, 2)];
            && DeleteTargetCheck(goals, targets, 1, 7, 1) == Ok(targets[0])
            && targets[0].goalId != 1 && goals[1].userId != 1
  {
    var goals := [Goal(1, "mine", "", false, 1), Goal(2, "theirs", "", true, 2)];
    var targets := [Target(7, "t", 5, 0, 2)];
    assert GoalById(goals, 1) == Some(goals[0]);
    assert TargetById(targets, 7) == Some(targets[0]);
  }

  /** The goal-scoped check the update path uses refuses the same request. */
  lemma ScopedCheckRefusesCrossGoal()
    ensures var goals := [Goal(1, "mine", "", false, 1), Goal(2, "theirs", "", true, 2)];
            var targets := [Target(7, "t", 5, 0, 2)];
            TargetInGoalCheck(goals, targets, 1, 7, 1) == Err(NotFound)
  {
    var goals := [Goal(1, "mine", "", false, 1), Goal(2, "theirs", "", true, 2)];
    var targets := [Target(7, "t", 5, 0, 2)];
    assert GoalById(goals, 1) == Some(goals[0]);
    assert TargetById(targets, 7) == Some(targets[0]);
  }

  /** The evidently intended `DeleteTarget`: the target must belong to
      `goal_id`, as in UpdateTarget, so a pass only ever removes a target of
      a goal the requester owns. */
  method DeleteTargetScoped(db: Store, goalId: int, targetId: int, userId: int) returns (r: Outcome)
    requires db.Valid()
    modifies db
    ensures db.Valid()
    ensures (forall i :: 0 <= i < |old(db.goals)| ==> old(db.goals)[i].id != goalId) ==> r == Fail(NotFound)
    ensures (exists i :: 0 <= i < |old(db.goals)| && old(db.goals)[i].id == goalId && old(db.goals)[i].userId != userId) ==>
              r == Fail(Forbidden(ModifyDenied))
    ensures (exists i :: 0 <= i < |old(db.goals)| && old(db.goals)[i].id == goalId && old(db.goals)[i].userId == userId) ==>
              && (r.Pass? <==> exists k :: 0 <= k < |old(db.targets)| && old(db.targets)[k].id == targetId && old(db.targets)[k].goalId == goalId)
              && (r.Fail? ==> r.error == NotFound)
    ensures r.Fail? <==> TargetInGoalCheck(old(db.goals), old(db.targets), goalId, targetId, userId).Err?
    ensures r.Fail? ==> r.error == TargetInGoalCheck(old(db.goals), old(db.targets), goalId, targetId, userId).error
    ensures r.Fail? ==> unchanged(db)
    ensures r.Pass? ==>
              && (exists i :: 0 <= i < |old(db.targets)| && old(db.targets)[i].id == targetId &&
                                old(db.targets)[i].goalId == goalId)
              && (exists i :: 0 <= i < |db.goals| && db.goals[i].id == goalId && db.goals[i].userId == userId)
              && db.targets == Filter(old(db.targets), TargetIdIsNot(targetId))
              && |TargetsOf(db.targets, goalId)| == |TargetsOf(old(db.targets), goalId)| - 1
              && db.goals == old(db.goals) && db.users == old(db.users)
  {
    var check := TargetInGoalCheck(db.goals, db.targets, goalId, targetId, userId);
    if check.Err? {
      return Fail(check.error);
    }
    DropTarget(db.targets, check.value);
    db.DeleteTarget(check.value);
    return Pass;
  }
}
