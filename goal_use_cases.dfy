/** The use cases of app/api/goal/models.py. Each mutating one looks up,
    checks, and only then changes the store, so a failure changes nothing
    (the `session.begin()` transaction). */
module GoalUseCases {
  import opened Outcomes
  import opened Tables
  import opened Models
  import opened Access
  import opened TargetSchemas
  import opened Database

  const ReadDenied := "You can't read goal that you haven't created"

  /** `CreateGoal.execute`: the requester becomes the owner; the targets are
      stored in request order under the new goal, which is returned with
      them. */
  method CreateGoal(db: Store, title: string, description: string, private: bool,
                    targets: seq<TargetData>, userId: int) returns (r: GoalWithTargets)
    requires db.Valid()
    modifies db
    ensures db.Valid()
    ensures r.goal == Goal(r.goal.id, title, description, private, userId)
    ensures forall i :: 0 <= i < |old(db.goals)| ==> old(db.goals)[i].id < r.goal.id
    ensures db.goals == old(db.goals) + [r.goal]
    ensures |r.targets| == |targets|
    ensures forall i :: 0 <= i < |targets| ==>
              && r.targets[i].goalId == r.goal.id
              && TargetData(r.targets[i].title, r.targets[i].target, r.targets[i].progress) == targets[i]
    ensures Ascending(r.targets, TargetKey)
    ensures db.targets == old(db.targets) + r.targets
    ensures r == Hydrate(db.targets, r.goal)
    ensures |GoalsOf(db.goals, userId)| == |GoalsOf(old(db.goals), userId)| + 1
    ensures db.users == old(db.users)
    ensures ProgressWithinTarget(old(db.targets)) && AllValid(targets) ==> ProgressWithinTarget(db.targets)
  {
    r := db.AddGoal(title, description, private, userId, targets);
    FilterAppend(old(db.goals), [r.goal], OwnedBy(userId));
    assert Ascending(r.targets, TargetKey) by {
      FilterAscending(db.targets, TargetKey, InGoal(r.goal.id));
    }
  }

  /** `ReadGoal.execute`: 404 for a missing goal; 403 for a private goal
      read by anyone but its owner; otherwise the goal with its targets. */
  function ReadGoal(goals: seq<Goal>, targets: seq<Target>, goalId: int, userId: int): (r: Result<GoalWithTargets>)
    ensures r == Err(NotFound) <==> forall i :: 0 <= i < |goals| ==> goals[i].id != goalId
    ensures r.Ok? ==> && r.value.goal in goals && r.value.goal.id == goalId
                      && CanRead(r.value.goal, userId)
                      && r.value == Hydrate(targets, r.value.goal)
    ensures r.Err? && r.error != NotFound ==>
              && r.error == Forbidden(ReadDenied)
              && exists i :: 0 <= i < |goals| && goals[i].id == goalId && !CanRead(goals[i], userId)
    ensures Ascending(goals, GoalKey) ==>
              forall i :: 0 <= i < |goals| && goals[i].id == goalId ==> (r.Ok? <==> CanRead(goals[i], userId))
  {
    match GoalById(goals, goalId)
    case None => Err(NotFound)
    case Some(g) =>
      if g.userId != userId && g.private then Err(Forbidden(ReadDenied))
      else Ok(Hydrate(targets, g))
  }

  /** The owner can always read, and anyone can read a public goal. */
  lemma ReadGoalAllowed(goals: seq<Goal>, targets: seq<Target>, i: int, userId: int)
    requires Ascending(goals, GoalKey) && 0 <= i < |goals|
    requires goals[i].userId == userId || !goals[i].private
    ensures ReadGoal(goals, targets, goals[i].id, userId) == Ok(Hydrate(targets, goals[i]))
  {
  }

  /** `ReadUserGoals.execute` over `Goal.read_user_goals`: one page of the
      requester's goals, private ones included, in id order. */
  function ReadUserGoals(goals: seq<Goal>, targets: seq<Target>, userId: int, limit: nat, offset: nat)
    : (r: seq<GoalWithTargets>)
    ensures |r| <= limit
    ensures |r| == if offset >= |GoalsOf(goals, userId)| then 0 else Min(limit, |GoalsOf(goals, userId)| - offset)
    ensures forall i :: 0 <= i < |r| ==> r[i].goal == GoalsOf(goals, userId)[offset + i]
    ensures forall i :: 0 <= i < |r| ==>
              r[i].goal in goals && r[i].goal.userId == userId && r[i] == Hydrate(targets, r[i].goal)
    ensures Ascending(goals, GoalKey) ==> forall i, j :: 0 <= i < j < |r| ==> r[i].goal.id < r[j].goal.id
    ensures offset == 0 && limit >= |goals| ==>
              forall i :: 0 <= i < |goals| && goals[i].userId == userId ==>
                exists k :: 0 <= k < |r| && r[k].goal == goals[i]
  {
    var mine := GoalsOf(goals, userId);
    var page := Page(mine, limit, offset);
    assert offset == 0 && limit >= |goals| ==> page == mine;
    HydrateAll(targets, page)
  }

  /** Limit 1 at offset 0 gives the requester's goal with the smallest id. */
  lemma FirstUserGoal(goals: seq<Goal>, targets: seq<Target>, userId: int, i: int)
    requires Ascending(goals, GoalKey)
    requires 0 <= i < |goals| && goals[i].userId == userId
    ensures |ReadUserGoals(goals, targets, userId, 1, 0)| == 1
    ensures forall k :: 0 <= k < |goals| && goals[k].userId == userId ==>
              ReadUserGoals(goals, targets, userId, 1, 0)[0].goal.id <= goals[k].id
  {
    var mine := GoalsOf(goals, userId);
    assert goals[i] in mine;
    forall k | 0 <= k < |goals| && goals[k].userId == userId
      ensures mine[0].id <= goals[k].id
    {
      var m :| 0 <= m < |mine| && mine[m] == goals[k];
    }
  }

  /** `ReadPublicGoals` (the router's public listing): one page of the
      non-private goals of all users, in id order. */
  function ReadPublicGoals(goals: seq<Goal>, targets: seq<Target>, limit: nat, offset: nat)
    : (r: seq<GoalWithTargets>)
    ensures |r| <= limit
    ensures |r| == if offset >= |PublicGoals(goals)| then 0 else Min(limit, |PublicGoals(goals)| - offset)
    ensures forall i :: 0 <= i < |r| ==> r[i].goal == PublicGoals(goals)[offset + i]
    ensures forall i :: 0 <= i < |r| ==>
              r[i].goal in goals && !r[i].goal.private && r[i] == Hydrate(targets, r[i].goal)
    ensures Ascending(goals, GoalKey) ==> forall i, j :: 0 <= i < j < |r| ==> r[i].goal.id < r[j].goal.id
    ensures offset == 0 && limit >= |goals| ==>
              forall i :: 0 <= i < |goals| && !goals[i].private ==>
                exists k :: 0 <= k < |r| && r[k].goal == goals[i]
  {
    var shown := PublicGoals(goals);
    var page := Page(shown, limit, offset);
    assert offset == 0 && limit >= |goals| ==> page == shown;
    HydrateAll(targets, page)
  }

  /** The checks shared by both `UpdateTarget`s: the gate, then a 404 unless
      the target exists and belongs to that goal. */
  function TargetInGoalCheck(goals: seq<Goal>, targets: seq<Target>, goalId: int, targetId: int, userId: int)
    : (r: Result<Target>)
    ensures (forall i :: 0 <= i < |goals| ==> goals[i].id != goalId) ==> r == Err(NotFound)
    ensures Ascending(goals, GoalKey) &&
            (exists i :: 0 <= i < |goals| && goals[i].id == goalId && goals[i].userId != userId) ==>
              r == Err(Forbidden(ModifyDenied))
    ensures r.Ok? ==> && (exists i :: 0 <= i < |goals| && goals[i].id == goalId && goals[i].userId == userId)
                      && r.value in targets && r.value.id == targetId && r.value.goalId == goalId
    ensures Ascending(goals, GoalKey) && Ascending(targets, TargetKey) &&
            (exists i :: 0 <= i < |goals| && goals[i].id == goalId && goals[i].userId == userId) ==>
              (r.Ok? <==> exists k :: 0 <= k < |targets| && targets[k].id == targetId && targets[k].goalId == goalId)
    ensures (&& Ascending(goals, GoalKey)
             && (exists i :: 0 <= i < |goals| && goals[i].id == goalId && goals[i].userId == userId)
             && r.Err?) ==> r.error == NotFound
    ensures r.Err? ==> r.error in {NotFound, Forbidden(ModifyDenied)}
  {
    match CheckAccessToGoal(GoalById(goals, goalId), userId)
    case Fail(e) => Err(e)
    case Pass =>
      match TargetById(targets, targetId)
      case None => Err(NotFound)
      case Some(t) => if t.goalId != goalId then Err(NotFound) else Ok(t)
  }

  /** `AddTargetToGoal.execute`: behind the gate, one new target with the
      default progress 0. */
  method AddTargetToGoal(db: Store, title: string, target: int, goalId: int, userId: int)
    returns (r: Result<Target>)
    requires db.Valid()
    modifies db
    ensures db.Valid()
    ensures r.Err? <==> CheckAccessToGoal(GoalById(old(db.goals), goalId), userId).Fail?
    ensures r.Err? ==> r.error == CheckAccessToGoal(GoalById(old(db.goals), goalId), userId).error
    ensures r.Err? ==> unchanged(db)
    ensures r.Ok? ==> && r.value == Target(r.value.id, title, target, 0, goalId)
                      && (forall i :: 0 <= i < |old(db.targets)| ==> old(db.targets)[i].id < r.value.id)
                      && db.targets == old(db.targets) + [r.value]
                      && db.goals == old(db.goals) && db.users == old(db.users)
    ensures ProgressWithinTarget(old(db.targets)) && 0 <= target ==> ProgressWithinTarget(db.targets)
  {
    var gate := CheckAccessToGoal(GoalById(db.goals, goalId), userId);
    if gate.Fail? {
      return Err(gate.error);
    }
    var t := db.AddTarget(title, target, goalId);
    return Ok(t);
  }

  /** `DeleteGoal.execute`: behind the gate, removes the goal and, by
      cascade, its targets; the owner has one goal fewer. */
  method DeleteGoal(db: Store, id: int, userId: int) returns (r: Outcome)
    requires db.Valid()
    modifies db
    ensures db.Valid()
    ensures r == CheckAccessToGoal(GoalById(old(db.goals), id), userId)
    ensures r.Fail? ==> unchanged(db)
    ensures r.Pass? ==> && db.goals == Filter(old(db.goals), GoalIdIsNot(id))
                        && db.targets == Filter(old(db.targets), NotInGoal(id))
                        && GoalById(db.goals, id).None?
                        && (forall i :: 0 <= i < |db.targets| ==> db.targets[i].goalId != id)
                        && |db.goals| == |old(db.goals)| - 1
                        && |GoalsOf(db.goals, userId)| == |GoalsOf(old(db.goals), userId)| - 1
                        && db.users == old(db.users)
  {
    var goal := GoalById(db.goals, id);
    r := CheckAccessToGoal(goal, userId);
    if r.Fail? {
      return;
    }
    var i :| 0 <= i < |db.goals| && db.goals[i] == goal.value;
    forall j | 0 <= j < |db.goals| ensures GoalIdIsNot(id)(db.goals[j]) <==> j != i {
      if db.goals[j].id == id { KeyUnique(db.goals, GoalKey, i, j); }
    }
    FilterDropsOne(db.goals, i, GoalIdIsNot(id));
    FilterCountAfterDrop(db.goals, i, OwnedBy(userId));
    db.DeleteGoal(goal.value);
  }

  /** `UpdateGoal.execute`: behind the gate, sets title, description and the
      private flag; id, owner, targets and every other goal stay as they were. */
  method UpdateGoal(db: Store, id: int, title: string, description: string, private: bool, userId: int)
    returns (r: Result<GoalWithTargets>)
    requires db.Valid()
    modifies db
    ensures db.Valid()
    ensures r.Err? <==> CheckAccessToGoal(GoalById(old(db.goals), id), userId).Fail?
    ensures r.Err? ==> r.error == CheckAccessToGoal(GoalById(old(db.goals), id), userId).error
    ensures r.Err? ==> unchanged(db)
    ensures r.Ok? ==> && r.value.goal == Goal(id, title, description, private, userId)
                      && |db.goals| == |old(db.goals)|
                      && (forall i :: 0 <= i < |old(db.goals)| ==>
                            db.goals[i] == if old(db.goals)[i].id == id then r.value.goal else old(db.goals)[i])
                      && db.targets == old(db.targets) && db.users == old(db.users)
                      && r.value == Hydrate(db.targets, r.value.goal)
  {
    var goal := GoalById(db.goals, id);
    var gate := CheckAccessToGoal(goal, userId);
    if gate.Fail? {
      return Err(gate.error);
    }
    var updated := db.UpdateGoal(goal.value, title, description, private);
    return Ok(updated);
  }

  /** `UpdateTarget.execute` of this file: the gate, the goal-scoped target
      check, then title and target only. Progress is neither changed nor
      re-checked against the new target. */
  method UpdateTarget(db: Store, goalId: int, targetId: int, title: string, target: int, userId: int)
    returns (r: Result<Target>)
    requires db.Valid()
    modifies db
    ensures db.Valid()
    ensures (forall i :: 0 <= i < |old(db.goals)| ==> old(db.goals)[i].id != goalId) ==> r == Err(NotFound)
    ensures (exists i :: 0 <= i < |old(db.goals)| && old(db.goals)[i].id == goalId && old(db.goals)[i].userId != userId) ==>
              r == Err(Forbidden(ModifyDenied))
    ensures (exists i :: 0 <= i < |old(db.goals)| && old(db.goals)[i].id == goalId && old(db.goals)[i].userId == userId) ==>
              && (r.Ok? <==> exists k :: 0 <= k < |old(db.targets)| && old(db.targets)[k].id == targetId && old(db.targets)[k].goalId == goalId)
              && (r.Err? ==> r.error == NotFound)
    ensures r.Err? <==> TargetInGoalCheck(old(db.goals), old(db.targets), goalId, targetId, userId).Err?
    ensures r.Err? ==> r.error == TargetInGoalCheck(old(db.goals), old(db.targets), goalId, targetId, userId).error
    ensures r.Err? ==> unchanged(db)
    ensures r.Ok? ==> && r.value == TargetInGoalCheck(old(db.goals), old(db.targets), goalId, targetId, userId)
                                      .value.(title := title, target := target)
                      && r.value.id == targetId && r.value.goalId == goalId
                      && db.targets == Replace(old(db.targets), TargetKey, r.value)
                      && db.goals == old(db.goals) && db.users == old(db.users)
  {
    var check := TargetInGoalCheck(db.goals, db.targets, goalId, targetId, userId);
    if check.Err? {
      return Err(check.error);
    }
    var t := db.UpdateTarget(check.value, title, target);
    return Ok(t);
  }

  /** `DeleteTarget.execute` of this file: the gate, then a silent return
      when the target id is unknown. The target is not required to belong
      to the goal. */
  method DeleteTarget(db: Store, goalId: int, targetId: int, userId: int) returns (r: Outcome)
    requires db.Valid()
    modifies db
    ensures db.Valid()
    ensures r == CheckAccessToGoal(GoalById(old(db.goals), goalId), userId)
    ensures r.Fail? || TargetById(old(db.targets), targetId).None? ==> unchanged(db)
    ensures r.Pass? && TargetById(old(db.targets), targetId).Some? ==>
              && db.targets == Filter(old(db.targets), TargetIdIsNot(targetId))
              && db.goals == old(db.goals) && db.users == old(db.users)
  {
    r := CheckAccessToGoal(GoalById(db.goals, goalId), userId);
    if r.Fail? {
      return;
    }
    var t := TargetById(db.targets, targetId);
    if t.None? {
      return;
    }
    db.DeleteTarget(t.value);
  }
}
