/** `ExitCode` and its `(system, user)` pair representation. */
module ExitCodes {
  import opened Words
  import opened Wrappers

  datatype ExitCode = Halted(userExit: uint32) | Paused(userExit: uint32) | SystemSplit | SessionLimit

  /** `InvalidExitCodeError(sys, user)`: the offending pair. */
  datatype InvalidExitCodeError = InvalidExitCodeError(sysExit: uint32, userExit: uint32)

  /** `ExitCode::into_pair`. */
  function IntoPair(ec: ExitCode): (p: (uint32, uint32))
    ensures p.0 <= 2
    ensures ec.Halted? || ec.Paused? ==> p.1 == ec.userExit
  {
    match ec
    case Halted(userExit) => (0, userExit)
    case Paused(userExit) => (1, userExit)
    case SystemSplit => (2, 0)
    case SessionLimit => (2, 2)
  }

  /** No two exit codes share a pair, so a claim digest tells them apart. */
  lemma IntoPairInjective(a: ExitCode, b: ExitCode)
    requires IntoPair(a) == IntoPair(b)
    ensures a == b
  {
  }

  /** `ExitCode::from_pair`: system code 0, 1, 2 are valid, anything else is an error. */
  function FromPair(sysExit: uint32, userExit: uint32): (r: Result<ExitCode, InvalidExitCodeError>)
    ensures r.Err? <==> sysExit > 2
    ensures r.Err? ==> r.error == InvalidExitCodeError(sysExit, userExit)
    ensures r.Ok? ==> IntoPair(r.value).0 == sysExit
  {
    match sysExit
    case 0 => Ok(Halted(userExit))
    case 1 => Ok(Paused(userExit))
    case 2 => Ok(SystemSplit)
    case _ => Err(InvalidExitCodeError(sysExit, userExit))
  }

  /** `from_pair` undoes `into_pair` for every exit code except `SessionLimit`. */
  lemma {:induction false} FromPairIntoPair(ec: ExitCode)
    requires ec != SessionLimit
    ensures FromPair(IntoPair(ec).0, IntoPair(ec).1) == Ok(ec)
  {
    match ec
    case Halted(u) =>
    case Paused(u) =>
    case SystemSplit =>
  }

  /**
   * `SessionLimit` does not survive the round trip: it becomes `(2, 2)`, and
   * `from_pair` reads every pair with system code 2 as `SystemSplit`.
   */
  lemma SessionLimitDoesNotRoundTrip()
    ensures IntoPair(SessionLimit) == (2, 2)
    ensures FromPair(2, 2) == Ok(SystemSplit)
    ensures FromPair(IntoPair(SessionLimit).0, IntoPair(SessionLimit).1) != Ok(SessionLimit)
  {
  }

  /**
   * In the other direction: a decoded exit code encodes back to the same pair,
   * except that with system code 2 the user code is normalised to 0.
   */
  lemma IntoPairFromPair(sysExit: uint32, userExit: uint32)
    requires FromPair(sysExit, userExit).Ok?
    ensures IntoPair(FromPair(sysExit, userExit).value) == (sysExit, if sysExit == 2 then 0 else userExit)
  {
  }

  /** `ExitCode::expects_output`. */
  function ExpectsOutput(ec: ExitCode): (b: bool)
  {
    match ec
    case Halted(_) | Paused(_) => true
    case SystemSplit | SessionLimit => false
  }

  /** An exit code expects output exactly when it is a guest exit: system code 0 or 1. */
  lemma ExpectsOutputIffGuestExit(ec: ExitCode)
    ensures ExpectsOutput(ec) <==> IntoPair(ec).0 < 2
    ensures ExpectsOutput(ec) <==> ec.Halted? || ec.Paused?
  {
  }

  /** `ExitCode::is_ok`. */
  function IsOk(ec: ExitCode): (b: bool)
  {
    ec == Halted(0)
  }

  /** Only the pair `(0, 0)` is an ok exit. */
  lemma IsOkIffZeroPair(ec: ExitCode)
    ensures IsOk(ec) <==> IntoPair(ec) == (0, 0)
    ensures IsOk(ec) ==> ExpectsOutput(ec)
  {
  }
}
