/** The request/response body of a target and its one validation rule
    (app/api/target/schemas.py). */
module TargetSchemas {
  import opened Outcomes

  /** The fields shared by `TargetRequest` and `TargetResponse`. */
  datatype TargetData = TargetData(title: string, target: int, progress: int)

  /** `TargetResponse`: the fields plus the row id. */
  datatype TargetResponse = TargetResponse(id: int, data: TargetData)

  const ProgressTooLarge := "Progress can not be greater than target"

  /** `validate_progress`: rejects a progress above the target with a 400 and
      otherwise returns the body unchanged. */
  function ValidateProgress(t: TargetData): (r: Result<TargetData>)
    ensures r.Ok? <==> t.progress <= t.target
    ensures r.Ok? ==> r.value == t
    ensures r.Err? ==> r.error == BadRequest(ProgressTooLarge)
  {
    if t.target < t.progress then Err(BadRequest(ProgressTooLarge)) else Ok(t)
  }

  /** `TargetRequest` inherits the validator unchanged. */
  function ValidateRequest(t: TargetData): (r: Result<TargetData>)
    ensures r.Ok? <==> t.progress <= t.target
    ensures r.Ok? ==> r.value == t
    ensures r.Err? ==> r.error == BadRequest(ProgressTooLarge)
  {
    ValidateProgress(t)
  }

  /** `TargetResponse` inherits it too: the id takes no part in the check. */
  function ValidateResponse(t: TargetResponse): (r: Result<TargetResponse>)
    ensures r.Ok? <==> t.data.progress <= t.data.target
    ensures r.Ok? ==> r.value == t
    ensures r.Err? ==> r.error == BadRequest(ProgressTooLarge)
  {
    match ValidateProgress(t.data)
    case Ok(_) => Ok(t)
    case Err(e) => Err(e)
  }

  /** Validation is idempotent: a body that passed passes again, unchanged. */
  lemma ValidateIdempotent(t: TargetData)
    requires ValidateProgress(t).Ok?
    ensures ValidateProgress(ValidateProgress(t).value) == ValidateProgress(t)
  {
  }

  /** No lower bound: negative targets and progress values pass as long as
      progress does not exceed the target; equality passes. */
  lemma NoLowerBound(title: string, target: int)
    ensures ValidateProgress(TargetData(title, target, target)).Ok?
    ensures ValidateProgress(TargetData(title, -1, -5)).Ok?
    ensures ValidateProgress(TargetData(title, target, target + 1)) == Err(BadRequest(ProgressTooLarge))
  {
  }
}
