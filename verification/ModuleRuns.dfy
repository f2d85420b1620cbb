/** `AgentWorkflowModule.execute`: one module run with its retry loop. */
module ModuleRuns {
  import opened Basics
  import opened WorkflowGraphs

  /**
   The behaviour of the user's code: node, number of earlier attempts, input.  Every node id is
   started at most once in the life of a state, so any behaviour at all has this form.
   */
  type World = (Id, nat, Value) -> Attempt

  datatype ModuleResult = Success(output: Value) | FailurePayload | Raised

  /** An attempt succeeds exactly if it returns a dict. */
  ghost predicate Good(a: Attempt) {
    a.Returned? && a.v.Dict?
  }

  ghost predicate CanSucceed(m: Module, id: Id, input: Value, world: World) {
    input.Dict? && exists k: nat :: k <= m.maxRetries && Good(world(id, k, input))
  }

  /** A failure that the scheduler tolerates: all the allowed attempts were made and were bad. */
  ghost predicate Tolerates(m: Module, input: Value) {
    m.allowFailure && input.Dict? && m.maxRetries >= 0
  }

  ghost predicate FirstGood(id: Id, input: Value, world: World, k: nat) {
    Good(world(id, k, input)) && forall i: nat :: i < k ==> !Good(world(id, i, input))
  }

  /**
   Attempts stop at the first good one.  Failure is reported only after all `maxRetries + 1`
   attempts, as a payload when the module tolerates failure and as an exception otherwise; an
   input that is not a dict raises before any attempt, tolerated or not.
   */
  method Execute(m: Module, id: Id, input: Value, world: World) returns (r: ModuleResult, calls: nat)
    ensures r.Success? <==> CanSucceed(m, id, input, world)
    ensures r.Success? ==> calls > 0 && FirstGood(id, input, world, calls - 1)
    ensures r.Success? ==> world(id, calls - 1, input) == Returned(r.output) && r.output.Dict?
    ensures !r.Success? ==> calls == if input.Dict? && m.maxRetries >= 0 then m.maxRetries + 1 else 0
    ensures r.FailurePayload? <==> !CanSucceed(m, id, input, world) && Tolerates(m, input)
  {
    var attempt: nat := 0;
    if !input.Dict? {
      return Raised, 0;
    }
    while attempt <= m.maxRetries
      invariant attempt == 0 || attempt <= m.maxRetries
      invariant forall k: nat :: k < attempt ==> !Good(world(id, k, input))
      decreases m.maxRetries + 1 - attempt
    {
      var output := world(id, attempt, input);
      if output.Returned? && output.v.Dict? {
        return Success(output.v), attempt + 1;
      }
      attempt := attempt + 1;
      if attempt > m.maxRetries {
        if !m.allowFailure {
          return Raised, attempt;
        }
        return FailurePayload, attempt;
      }
    }
    return Raised, attempt;
  }
}
