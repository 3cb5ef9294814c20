/** The work cap threaded through the engine's loops. */
module Observer {
  import opened Basics

  const USIZE_MAX: nat := U64_LIMIT - 1

  function SaturatingMul(a: nat, b: nat): (r: nat) {
    Min(a * b, USIZE_MAX)
  }

  class PatternObserver {
    const maxIterations: nat
    var count: nat

    constructor (max: nat)
      requires 0 < max <= USIZE_MAX
      ensures maxIterations == max && count == 0
    {
      maxIterations := max;
      count := 0;
    }

    /** Counts one unit of work, saturating; fails exactly when the cap is passed. */
    method Tick() returns (r: Result<()>)
      modifies this`count
      ensures count == Min(old(count) + 1, USIZE_MAX)
      ensures r == if count > maxIterations then Err(WorkCapExceeded) else Ok(())
    {
      count := Min(count + 1, USIZE_MAX);
      if count > maxIterations {
        return Err(WorkCapExceeded);
      }
      return Ok(());
    }

    method Reset()
      modifies this`count
      ensures count == 0
    {
      count := 0;
    }
  }

  /** `PatternObserver::new`: a zero cap is refused. */
  method NewObserver(max: nat) returns (r: Result<PatternObserver>)
    requires max <= USIZE_MAX
    ensures max == 0 ==> r == Err(InvalidParameter)
    ensures max > 0 ==> r.Ok? && fresh(r.value) && r.value.maxIterations == max && r.value.count == 0
  {
    if max == 0 {
      return Err(InvalidParameter);
    }
    var observer := new PatternObserver(max);
    return Ok(observer);
  }
}
