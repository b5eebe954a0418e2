// Objective recovery: what to do after a failed attempt, decided from closed technical facts, and
// what that means over whole runs.
module Recovery {
  import opened Wrappers

  const I64_MAX := 0x7FFF_FFFF_FFFF_FFFF
  const U32_MAX := 0xFFFF_FFFF
  const MAX_SHIFT := 62

  type I64 = n: int | -I64_MAX - 1 <= n <= I64_MAX
  type U32 = n: int | 0 <= n <= U32_MAX

  datatype ErrorClass = Transient | RateLimited | Authentication | Permanent | Unknown

  datatype Safety =
    | PreInvocationFailure
    | Idempotent
    | IndependentlyProvenAbsent
    | OutcomeUnknown
    | NonIdempotentFailure

  datatype Scope = ManualOnly | ObjectiveRetry | ObjectiveRetryWithinOwnerEnvelope

  datatype Policy = Policy(maxAttempts: U32, maxElapsed: I64, baseBackoff: I64, maxBackoff: I64)

  datatype Facts = Facts(
    scope: Scope,
    attempts: U32,
    firstAttempt: I64,
    lastAttempt: I64,
    now: I64,
    resourcesAvailable: bool,
    circuitOpenUntil: Option<I64>,
    errorClass: ErrorClass,
    safety: Safety,
    reversible: bool,
    safeBoundaryReached: bool,
    replanAvailable: bool,
    authorityUnchanged: bool,
    meaningfulOutcome: bool,
    userJudgmentUseful: bool,
    externalProgressPossible: bool)

  datatype DelayReason = Backoff | CircuitBreaker

  datatype Directive =
    | RetrySameEffect(notBefore: I64)
    | ReplanWithinAuthority
    | WaitUntil(notBefore: I64, reason: DelayReason)
    | WaitingExternal
    | WaitingForUser
    | PartiallyCompleted
    | GiveUp

  datatype PlanError = InvalidPolicy | InvalidClock | InvalidAttemptHistory

  datatype Planned = Ok(directive: Directive) | Err(error: PlanError)

  // ---------------------------------------------------------------- arithmetic

  function SaturatingAdd(a: I64, b: I64): I64 {
    if a + b > I64_MAX then I64_MAX else if a + b < -I64_MAX - 1 then -I64_MAX - 1 else a + b
  }

  function SaturatingMul(a: I64, b: I64): I64 {
    if a * b > I64_MAX then I64_MAX else if a * b < -I64_MAX - 1 then -I64_MAX - 1 else a * b
  }

  function Power2(n: nat): (r: nat)
    ensures r > 0
  {
    if n == 0 then 1 else 2 * Power2(n - 1)
  }

  function Min(a: int, b: int): int {
    if a <= b then a else b
  }

  lemma {:induction false} Power2Grows(m: nat, n: nat)
    requires m <= n
    ensures Power2(m) <= Power2(n)
    ensures m < n ==> 2 * Power2(m) <= Power2(n)
  {
    if m < n {
      Power2Grows(m, n - 1);
    }
  }

  lemma PowerOfMaxShift()
    ensures Power2(MAX_SHIFT) == 0x4000_0000_0000_0000
  {
    assert Power2(10) == 1024;
    assert Power2(20) == 1024 * Power2(10);
    assert Power2(30) == 1024 * Power2(20);
    assert Power2(40) == 1024 * Power2(30);
    assert Power2(50) == 1024 * Power2(40);
    assert Power2(60) == 1024 * Power2(50);
    assert Power2(62) == 4 * Power2(60);
  }

  // 1_i64.checked_shl(shift): a shift below the width never fails.
  function ShiftedOne(shift: nat): I64
    requires shift <= MAX_SHIFT
  {
    Power2Grows(shift, MAX_SHIFT);
    PowerOfMaxShift();
    Power2(shift)
  }

  predicate IsValidPolicy(p: Policy) {
    p.maxAttempts != 0 && p.maxElapsed >= 0 && p.baseBackoff >= 0 && p.maxBackoff >= p.baseBackoff
  }

  // backoff_ms
  function BackoffMs(p: Policy, attempts: U32): I64 {
    var shift := Min(if attempts == 0 then 0 else attempts - 1, MAX_SHIFT);
    Min(SaturatingMul(p.baseBackoff, ShiftedOne(shift)), p.maxBackoff)
  }

  // Saturation never shows: the delay is the exact product, capped.
  lemma BackoffIsExact(p: Policy, attempts: U32)
    requires IsValidPolicy(p) && attempts >= 1
    ensures BackoffMs(p, attempts) == Min(p.baseBackoff * Power2(Min(attempts - 1, MAX_SHIFT)), p.maxBackoff)
    ensures p.baseBackoff <= BackoffMs(p, attempts) <= p.maxBackoff
  {
    hide Power2;
    Scaled(p.baseBackoff, Power2(Min(attempts - 1, MAX_SHIFT)));
  }

  lemma Scaled(base: nat, factor: nat)
    requires factor >= 1
    ensures base <= base * factor
  {
  }

  lemma ScaledMonotone(base: nat, a: nat, b: nat)
    requires a <= b
    ensures base * a <= base * b
  {
  }

  lemma BackoffGrows(p: Policy, attempts: U32, more: U32)
    requires IsValidPolicy(p) && 1 <= attempts <= more
    ensures BackoffMs(p, attempts) <= BackoffMs(p, more)
  {
    BackoffIsExact(p, attempts);
    BackoffIsExact(p, more);
    var m, n := Min(attempts - 1, MAX_SHIFT), Min(more - 1, MAX_SHIFT);
    Power2Grows(m, n);
    ScaledMonotone(p.baseBackoff, Power2(m), Power2(n));
  }

  // The cap on the shift is invisible except to a base of one millisecond and a maximum beyond 2^62.
  lemma BackoffIsUncapped(p: Policy, attempts: U32)
    requires IsValidPolicy(p) && attempts >= 1
    ensures BackoffMs(p, attempts) == Min(p.baseBackoff * Power2(attempts - 1), p.maxBackoff)
       <==> p.baseBackoff != 1 || p.maxBackoff <= Power2(MAX_SHIFT) || attempts - 1 <= MAX_SHIFT
  {
    BackoffIsExact(p, attempts);
    PowerOfMaxShift();
    if attempts - 1 > MAX_SHIFT {
      Power2Grows(MAX_SHIFT, attempts - 1);
      hide Power2;
      var low, high := Power2(MAX_SHIFT), Power2(attempts - 1);
      ScaledMonotone(p.baseBackoff, low, high);
      if p.baseBackoff >= 2 {
        TwiceScaled(p.baseBackoff, low);
      }
    }
  }

  lemma TwiceScaled(base: nat, factor: nat)
    requires base >= 2
    ensures base * factor >= 2 * factor
  {
  }

  // ---------------------------------------------------------------- the plan

  predicate IsValidClock(f: Facts) {
    && f.firstAttempt >= 0 && f.lastAttempt >= f.firstAttempt && f.now >= f.lastAttempt
    && (f.circuitOpenUntil.Some? ==> f.circuitOpenUntil.value >= 0)
  }

  function Validate(p: Policy, f: Facts): Option<PlanError> {
    if !IsValidPolicy(p) then Some(InvalidPolicy)
    else if !IsValidClock(f) then Some(InvalidClock)
    else if f.attempts == 0 then Some(InvalidAttemptHistory)
    else None
  }

  function Exhausted(f: Facts): Directive {
    if f.externalProgressPossible then WaitingExternal
    else if f.userJudgmentUseful then WaitingForUser
    else if f.meaningfulOutcome then PartiallyCompleted
    else GiveUp
  }

  predicate PermitsRetry(s: Safety) {
    s.PreInvocationFailure? || s.Idempotent? || s.IndependentlyProvenAbsent?
  }

  predicate RetryAllowed(p: Policy, f: Facts) {
    && PermitsRetry(f.safety) && !f.errorClass.Authentication? && !f.errorClass.Permanent?
    && f.attempts < p.maxAttempts
    && f.now - f.firstAttempt <= p.maxElapsed
    && f.resourcesAvailable
  }

  predicate CircuitOpen(f: Facts) {
    f.circuitOpenUntil.Some? && f.circuitOpenUntil.value > f.now
  }

  // plan_objective_recovery
  function Plan(p: Policy, f: Facts): Planned {
    if Validate(p, f).Some? then Err(Validate(p, f).value)
    else if !f.authorityUnchanged then Ok(Exhausted(f))
    else if f.safety.OutcomeUnknown? then
      Ok(if f.externalProgressPossible then WaitingExternal else Exhausted(f))
    else if f.scope.ManualOnly? then Ok(Exhausted(f))
    else if CircuitOpen(f) then Ok(WaitUntil(f.circuitOpenUntil.value, CircuitBreaker))
    else if RetryAllowed(p, f) then
      var notBefore := SaturatingAdd(f.lastAttempt, BackoffMs(p, f.attempts));
      if notBefore > f.now then Ok(WaitUntil(notBefore, Backoff)) else Ok(RetrySameEffect(notBefore))
    else if f.replanAvailable && f.reversible && f.safeBoundaryReached then Ok(ReplanWithinAuthority)
    else Ok(Exhausted(f))
  }

  predicate Retries(p: Policy, f: Facts) {
    Plan(p, f).Ok? && Plan(p, f).directive.RetrySameEffect?
  }

  predicate Waits(p: Policy, f: Facts) {
    Plan(p, f).Ok? && Plan(p, f).directive.WaitUntil?
  }

  // A retry is planned exactly under the technical conditions, and then one backoff has passed, with
  // the end of time as the only excuse.
  lemma RetryConditions(p: Policy, f: Facts)
    ensures Retries(p, f) <==>
      && Validate(p, f).None? && f.authorityUnchanged && !f.scope.ManualOnly? && !CircuitOpen(f)
      && RetryAllowed(p, f)
      && (f.now >= f.lastAttempt + BackoffMs(p, f.attempts) || f.now == I64_MAX)
    ensures f.safety.OutcomeUnknown? ==> !Retries(p, f) && !Waits(p, f)
  {
  }

  // Waits lie in the future and are for an open breaker or a pending backoff; a replan is the last
  // autonomous resort; and the way of ending names the best of what is still possible.
  lemma OtherDirectives(p: Policy, f: Facts)
    ensures Waits(p, f) ==> Plan(p, f).directive.notBefore > f.now
    ensures Waits(p, f) && Plan(p, f).directive.reason.CircuitBreaker? ==>
      f.circuitOpenUntil == Some(Plan(p, f).directive.notBefore)
    ensures Waits(p, f) && Plan(p, f).directive.reason.Backoff? ==>
      RetryAllowed(p, f) && Plan(p, f).directive.notBefore == Min(f.lastAttempt + BackoffMs(p, f.attempts), I64_MAX)
    ensures Plan(p, f) == Ok(ReplanWithinAuthority) <==>
      && Validate(p, f).None? && f.authorityUnchanged && !f.safety.OutcomeUnknown? && !f.scope.ManualOnly?
      && !CircuitOpen(f) && !RetryAllowed(p, f)
      && f.replanAvailable && f.reversible && f.safeBoundaryReached
    ensures Plan(p, f) == Ok(WaitingExternal) ==> f.externalProgressPossible
    ensures Plan(p, f) == Ok(WaitingForUser) ==> f.userJudgmentUseful && !f.externalProgressPossible
    ensures Plan(p, f) == Ok(PartiallyCompleted) ==>
      f.meaningfulOutcome && !f.userJudgmentUseful && !f.externalProgressPossible
    ensures Plan(p, f) == Ok(GiveUp) ==>
      !f.meaningfulOutcome && !f.userJudgmentUseful && !f.externalProgressPossible
  {
    hide BackoffMs;
    if IsValidPolicy(p) && f.attempts >= 1 {
      BackoffIsExact(p, f.attempts);
    }
  }

  // ---------------------------------------------------------------- every directive, exactly

  // A policy with at least one attempt and no negative or crossed limits.
  predicate IsSanePolicy(p: Policy) {
    p.maxAttempts >= 1 && 0 <= p.maxElapsed && 0 <= p.baseBackoff <= p.maxBackoff
  }

  // Times in order, none negative.
  predicate IsSaneClock(f: Facts) {
    && 0 <= f.firstAttempt <= f.lastAttempt <= f.now
    && (f.circuitOpenUntil == None || f.circuitOpenUntil.value >= 0)
  }

  predicate IsSane(p: Policy, f: Facts) {
    IsSanePolicy(p) && IsSaneClock(f) && f.attempts >= 1
  }

  // Nobody else has to be asked, and the effect of the last attempt is not in the dark.
  predicate IsAutonomous(f: Facts) {
    && f.authorityUnchanged && f.safety != OutcomeUnknown
    && (f.scope == ObjectiveRetry || f.scope == ObjectiveRetryWithinOwnerEnvelope)
  }

  // The same effect may be asked for again: it was never asked for, is idempotent, or is proven absent.
  predicate MayRepeat(p: Policy, f: Facts) {
    && (f.safety == PreInvocationFailure || f.safety == Idempotent || f.safety == IndependentlyProvenAbsent)
    && f.errorClass != Authentication && f.errorClass != Permanent
    && f.attempts < p.maxAttempts && f.now <= f.firstAttempt + p.maxElapsed
    && f.resourcesAvailable
  }

  predicate MayReplan(f: Facts) {
    f.replanAvailable && f.reversible && f.safeBoundaryReached
  }

  predicate IsBreakerOpen(f: Facts) {
    f.circuitOpenUntil != None && f.now < f.circuitOpenUntil.value
  }

  // One doubling delay after the last attempt, up to the end of time.
  predicate IsDue(p: Policy, f: Facts, time: int)
    requires f.attempts >= 1
  {
    var delay := Min(p.baseBackoff * Power2(Min(f.attempts - 1, 62)), p.maxBackoff);
    time == Min(f.lastAttempt + delay, 0x7FFF_FFFF_FFFF_FFFF)
  }

  lemma SaneExactly(p: Policy, f: Facts)
    ensures IsSane(p, f) <==> Validate(p, f).None?
    ensures IsBreakerOpen(f) <==> CircuitOpen(f)
    ensures IsSane(p, f) ==> (MayRepeat(p, f) <==> RetryAllowed(p, f))
  {
  }

  lemma DueExactly(p: Policy, f: Facts, time: int)
    requires IsSanePolicy(p) && f.attempts >= 1 && f.lastAttempt >= 0
    ensures IsDue(p, f, time) <==> time == SaturatingAdd(f.lastAttempt, BackoffMs(p, f.attempts))
  {
    BackoffIsExact(p, f.attempts);
    hide Power2, BackoffMs;
  }

  // Each error is returned exactly for its own fault.
  lemma ErrorsExactly(p: Policy, f: Facts)
    ensures Plan(p, f) == Err(InvalidPolicy) <==> !IsSanePolicy(p)
    ensures Plan(p, f) == Err(InvalidClock) <==> IsSanePolicy(p) && !IsSaneClock(f)
    ensures Plan(p, f) == Err(InvalidAttemptHistory) <==> IsSanePolicy(p) && IsSaneClock(f) && f.attempts == 0
  {
    hide BackoffMs;
  }

  // The effect is repeated exactly when it may be, on its own authority, with no breaker open and the
  // delay over.
  lemma RetryExactly(p: Policy, f: Facts, time: I64)
    ensures Plan(p, f) == Ok(RetrySameEffect(time)) <==>
      && IsSane(p, f) && IsAutonomous(f) && !IsBreakerOpen(f) && MayRepeat(p, f)
      && IsDue(p, f, time) && time <= f.now
  {
    SaneExactly(p, f);
    if IsSane(p, f) {
      DueExactly(p, f, time);
    }
    hide BackoffMs, IsDue, MayRepeat, RetryAllowed, IsSane, IsBreakerOpen, CircuitOpen;
  }

  // Waits are exactly for an open breaker, until it closes, and for a pending delay, until that is over.
  lemma WaitsExactly(p: Policy, f: Facts, time: I64)
    ensures Plan(p, f) == Ok(WaitUntil(time, CircuitBreaker)) <==>
      IsSane(p, f) && IsAutonomous(f) && f.circuitOpenUntil == Some(time) && time > f.now
    ensures Plan(p, f) == Ok(WaitUntil(time, Backoff)) <==>
      && IsSane(p, f) && IsAutonomous(f) && !IsBreakerOpen(f) && MayRepeat(p, f)
      && IsDue(p, f, time) && time > f.now
  {
    SaneExactly(p, f);
    if IsSane(p, f) {
      DueExactly(p, f, time);
    }
    hide BackoffMs, IsDue, MayRepeat, RetryAllowed, IsSane, IsBreakerOpen;
  }

  lemma ReplanExactly(p: Policy, f: Facts)
    ensures Plan(p, f) == Ok(ReplanWithinAuthority) <==>
      IsSane(p, f) && IsAutonomous(f) && !IsBreakerOpen(f) && !MayRepeat(p, f) && MayReplan(f)
  {
    SaneExactly(p, f);
    hide BackoffMs, MayRepeat, RetryAllowed, IsSane, IsBreakerOpen, CircuitOpen;
  }

  // Nothing is left to do on the plan's own authority.
  predicate IsAtAnEnd(p: Policy, f: Facts) {
    IsSane(p, f) && !(IsAutonomous(f) && (IsBreakerOpen(f) || MayRepeat(p, f) || MayReplan(f)))
  }

  // Then the best of what is still possible is named: external progress, the user, what was reached.
  lemma EndsExactly(p: Policy, f: Facts)
    ensures Plan(p, f) == Ok(WaitingExternal) <==> IsAtAnEnd(p, f) && f.externalProgressPossible
    ensures Plan(p, f) == Ok(WaitingForUser) <==>
      IsAtAnEnd(p, f) && !f.externalProgressPossible && f.userJudgmentUseful
    ensures Plan(p, f) == Ok(PartiallyCompleted) <==>
      IsAtAnEnd(p, f) && !f.externalProgressPossible && !f.userJudgmentUseful && f.meaningfulOutcome
    ensures Plan(p, f) == Ok(GiveUp) <==>
      IsAtAnEnd(p, f) && !f.externalProgressPossible && !f.userJudgmentUseful && !f.meaningfulOutcome
  {
    SaneExactly(p, f);
    hide BackoffMs, MayRepeat, RetryAllowed, IsSane, IsBreakerOpen, CircuitOpen;
  }

  // ---------------------------------------------------------------- runs

  // Between two plans anything may change but the history of attempts, and a new attempt starts only
  // on a retry directive, after it was given.
  predicate IsStep(p: Policy, f: Facts, g: Facts) {
    && g.firstAttempt == f.firstAttempt && g.now >= f.now
    && (|| (g.attempts == f.attempts && g.lastAttempt == f.lastAttempt)
        || (Retries(p, f) && g.attempts == f.attempts + 1 && f.now <= g.lastAttempt <= g.now))
  }

  ghost predicate IsRun(p: Policy, run: seq<Facts>) {
    forall i :: 0 <= i < |run| - 1 ==> IsStep(p, run[i], run[i + 1])
  }

  predicate StartsAttempt(run: seq<Facts>, i: int)
    requires 0 <= i < |run| - 1
  {
    run[i + 1].attempts != run[i].attempts
  }

  function Max(a: int, b: int): int {
    if a >= b then a else b
  }

  lemma {:induction false} AttemptsAreBounded(p: Policy, run: seq<Facts>)
    requires run != [] && IsRun(p, run)
    ensures run[0].attempts <= run[|run| - 1].attempts <= Max(run[0].attempts, p.maxAttempts)
  {
    if |run| > 1 {
      var front := run[..|run| - 1];
      assert forall i :: 0 <= i < |front| - 1 ==> IsStep(p, front[i], front[i + 1]);
      AttemptsAreBounded(p, front);
      assert IsStep(p, run[|run| - 2], run[|run| - 1]);
    }
  }

  // Every attempt of a run was planned on facts that permit it: within the attempt and elapsed
  // limits, after an effect that was never asked for, is idempotent or proven absent, and one backoff
  // after the attempt before.
  lemma EveryAttemptIsPlanned(p: Policy, run: seq<Facts>, i: nat)
    requires IsRun(p, run) && i < |run| - 1 && StartsAttempt(run, i)
    ensures run[i].attempts < p.maxAttempts
    ensures run[i].safety == PreInvocationFailure || run[i].safety == Idempotent || run[i].safety == IndependentlyProvenAbsent
    ensures run[i].errorClass != Authentication && run[i].errorClass != Permanent && run[i].resourcesAvailable
    ensures run[i].authorityUnchanged && run[i].scope != ManualOnly && !IsBreakerOpen(run[i])
    ensures run[i].now - run[i].firstAttempt <= p.maxElapsed
    ensures run[i + 1].lastAttempt >= run[i].lastAttempt + BackoffMs(p, run[i].attempts)
      || run[i + 1].lastAttempt == I64_MAX
  {
    assert IsStep(p, run[i], run[i + 1]);
    RetryConditions(p, run[i]);
  }

  // The number of attempts a stretch of a run starts.
  function Started(run: seq<Facts>): nat {
    if |run| <= 1 then 0
    else Started(run[..|run| - 1]) + if StartsAttempt(run, |run| - 2) then 1 else 0
  }

  lemma {:induction false} StartedAttemptsAreCounted(p: Policy, run: seq<Facts>)
    requires run != [] && IsRun(p, run)
    ensures run[|run| - 1].attempts == run[0].attempts + Started(run)
    ensures run[|run| - 1].firstAttempt == run[0].firstAttempt
  {
    if |run| > 1 {
      var front := run[..|run| - 1];
      assert forall i :: 0 <= i < |front| - 1 ==> IsStep(p, front[i], front[i + 1]);
      StartedAttemptsAreCounted(p, front);
      assert IsStep(p, run[|run| - 2], run[|run| - 1]);
    }
  }

  // The delays due before the attempts numbered from + 1 up to `to`.
  function TotalBackoff(p: Policy, from: nat, to: U32): int {
    if to <= from then 0 else TotalBackoff(p, from, to - 1) + BackoffMs(p, to - 1)
  }

  // Over a whole run the attempts are at least the sum of all delays apart, up to the end of time.
  lemma {:induction false} AttemptsAreSpaced(p: Policy, run: seq<Facts>)
    requires run != [] && IsRun(p, run)
    ensures var last := run[|run| - 1];
      && run[0].attempts <= last.attempts
      && (last.lastAttempt >= run[0].lastAttempt + TotalBackoff(p, run[0].attempts, last.attempts)
          || last.lastAttempt == I64_MAX)
  {
    hide BackoffMs;
    if |run| > 1 {
      var front := run[..|run| - 1];
      assert forall i :: 0 <= i < |front| - 1 ==> IsStep(p, front[i], front[i + 1]);
      AttemptsAreSpaced(p, front);
      var f, g := run[|run| - 2], run[|run| - 1];
      assert IsStep(p, f, g);
      RetryConditions(p, f);
    }
  }

  // ---------------------------------------------------------------- runs end

  // A driver that waits as long as it is told with all other facts frozen, starts an attempt when it
  // is told to, and stops on every other directive.
  predicate IsDrivenStep(p: Policy, f: Facts, g: Facts) {
    || (Waits(p, f) && g == f.(now := g.now) && g.now >= Plan(p, f).directive.notBefore)
    || (Retries(p, f) && g.attempts == f.attempts + 1)
  }

  function WaitRank(p: Policy, f: Facts): nat {
    if !Waits(p, f) then 0 else if Plan(p, f).directive.reason.CircuitBreaker? then 2 else 1
  }

  // A breaker is waited for once, a backoff once, and no third wait follows.
  lemma WaitsGetShorter(p: Policy, f: Facts, g: Facts)
    requires Waits(p, f) && g == f.(now := g.now) && g.now >= Plan(p, f).directive.notBefore
    ensures WaitRank(p, g) < WaitRank(p, f)
  {
    hide BackoffMs;
  }

  function Budget(p: Policy, f: Facts): nat {
    3 * Max(0, p.maxAttempts - f.attempts) + WaitRank(p, f)
  }

  lemma DrivenStepSpends(p: Policy, f: Facts, g: Facts)
    requires IsDrivenStep(p, f, g)
    ensures Budget(p, g) < Budget(p, f)
  {
    hide BackoffMs;
    if Waits(p, f) {
      WaitsGetShorter(p, f, g);
    }
  }

  ghost predicate IsDriven(p: Policy, run: seq<Facts>) {
    forall i :: 0 <= i < |run| - 1 ==> IsDrivenStep(p, run[i], run[i + 1])
  }

  // Every driven run ends: at most two waits before each attempt that is left, and two at the end.
  lemma {:induction false} DrivenRunsEnd(p: Policy, run: seq<Facts>)
    requires run != [] && IsDriven(p, run)
    ensures |run| <= 1 + Budget(p, run[0])
    ensures |run| <= 3 + 3 * Max(0, p.maxAttempts - run[0].attempts)
  {
    if |run| > 1 {
      assert IsDrivenStep(p, run[0], run[1]);
      DrivenStepSpends(p, run[0], run[1]);
      var rest := run[1..];
      assert forall i :: 0 <= i < |rest| - 1 ==> IsDrivenStep(p, rest[i], rest[i + 1]);
      DrivenRunsEnd(p, rest);
    }
  }

  predicate IsSettled(d: Directive) {
    !d.WaitUntil? && !d.RetrySameEffect?
  }

  // A driven run goes on from a plan, on valid facts, exactly when the plan is to wait or to retry. With
  // DrivenRunsEnd, every maximal driven run ends settled.
  lemma DrivenRunsGoOn(p: Policy, f: Facts)
    requires Plan(p, f).Ok?
    ensures IsSettled(Plan(p, f).directive) ==> forall g :: !IsDrivenStep(p, f, g)
    ensures !IsSettled(Plan(p, f).directive) ==> exists g :: IsDrivenStep(p, f, g) && Validate(p, g).None?
  {
    hide BackoffMs;
    OtherDirectives(p, f);
    RetryConditions(p, f);
    if Waits(p, f) {
      var g := f.(now := Plan(p, f).directive.notBefore);
      assert IsDrivenStep(p, f, g) && Validate(p, g).None?;
    } else if Retries(p, f) {
      var g := f.(attempts := f.attempts + 1, lastAttempt := f.now);
      assert IsDrivenStep(p, f, g) && Validate(p, g).None?;
    }
  }
}
