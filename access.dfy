/** The access gate of app/api/goal/utils.py and the two policies it and
    ReadGoal apply. */
module Access {
  import opened Outcomes
  import opened Tables
  import opened Models

  const ModifyDenied := "You can't modify goals that you haven't created"

  /** Write policy: only the owner may change a goal or its targets. */
  predicate CanModify(g: Goal, userId: int) { g.userId == userId }

  /** Read policy: a public goal is readable by anyone, a private one by its owner. */
  predicate CanRead(g: Goal, userId: int) { !g.private || g.userId == userId }

  /** `check_access_to_goal`: existence first (404), then ownership (403). */
  function CheckAccessToGoal(goal: Option<Goal>, userId: int): (r: Outcome)
    ensures goal.None? ==> r == Fail(NotFound)
    ensures goal.Some? && !CanModify(goal.value, userId) ==> r == Fail(Forbidden(ModifyDenied))
    ensures r.Pass? <==> goal.Some? && CanModify(goal.value, userId)
  {
    if goal.None? then Fail(NotFound)
    else if goal.value.userId != userId then Fail(Forbidden(ModifyDenied))
    else Pass
  }

  /** The gate on a goal looked up by id in a table: 404 exactly when no row
      has that id, whoever asks; 403 exactly when the row belongs to someone
      else; a pass exactly when the requester owns it. */
  lemma GateOnTable(goals: seq<Goal>, goalId: int, userId: int)
    requires Ascending(goals, GoalKey)
    ensures CheckAccessToGoal(GoalById(goals, goalId), userId) == Fail(NotFound) <==>
              forall i :: 0 <= i < |goals| ==> goals[i].id != goalId
    ensures CheckAccessToGoal(GoalById(goals, goalId), userId) == Fail(Forbidden(ModifyDenied)) <==>
              exists i :: 0 <= i < |goals| && goals[i].id == goalId && goals[i].userId != userId
    ensures CheckAccessToGoal(GoalById(goals, goalId), userId).Pass? <==>
              exists i :: 0 <= i < |goals| && goals[i].id == goalId && goals[i].userId == userId
  {
    var r := GoalById(goals, goalId);
    if r.Some? {
      var i :| 0 <= i < |goals| && goals[i] == r.value;
      forall j | 0 <= j < |goals| && goals[j].id == goalId ensures goals[j] == r.value {
        KeyUnique(goals, GoalKey, i, j);
      }
    }
  }

  /** NotFound takes precedence: the answer for a missing goal does not
      depend on who asks, and a failing gate fails with 404 or 403 only. */
  lemma GateErrors(goal: Option<Goal>, userId: int, otherId: int)
    ensures goal.None? ==> CheckAccessToGoal(goal, userId) == CheckAccessToGoal(goal, otherId)
    ensures CheckAccessToGoal(goal, userId).Fail? ==>
              CheckAccessToGoal(goal, userId).error in {NotFound, Forbidden(ModifyDenied)}
  {
  }
}
