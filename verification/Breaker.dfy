/** The circuit breaker: one 64-bit word updated by load / compute / compare-and-swap
    loops (glidefs/src/circuit_breaker.rs). `Step` interleaves any number of threads at
    every atomic access; `Refines` shows that every run is a run of the plain breaker
    `Apply`, which has no word, no threads and no bounded fields. */
module Breaker {

  const CLOSED: nat := 0
  const OPEN: nat := 1
  const HALF_OPEN: nat := 2
  const COUNT_LIMIT: nat := 0x4000        // 14-bit failure count
  const PERMIT_LIMIT: nat := 0x1_0000     // 16-bit permits
  const TIME_LIMIT: nat := 0x1_0000_0000  // 32-bit timestamp
  const WORD_LIMIT: nat := 0x1_0000_0000_0000_0000

  // ---- the packed word: masks and shifts of disjoint fields, as arithmetic ----

  function Pack(state: nat, failures: nat, permits: nat, time: nat): nat {
    ((state % 4 * COUNT_LIMIT + failures % COUNT_LIMIT) * PERMIT_LIMIT + permits % PERMIT_LIMIT) * TIME_LIMIT
      + time % TIME_LIMIT
  }

  function StateOf(w: nat): nat { w / (TIME_LIMIT * PERMIT_LIMIT * COUNT_LIMIT) % 4 }
  function FailuresOf(w: nat): nat { w / (TIME_LIMIT * PERMIT_LIMIT) % COUNT_LIMIT }
  function PermitsOf(w: nat): nat { w / TIME_LIMIT % PERMIT_LIMIT }
  function TimeOf(w: nat): nat { w % TIME_LIMIT }

  /** unpack after pack gives each field back, cut to its width. */
  lemma UnpackPack(state: nat, failures: nat, permits: nat, time: nat)
    ensures var w := Pack(state, failures, permits, time);
      w < WORD_LIMIT && StateOf(w) == state % 4 && FailuresOf(w) == failures % COUNT_LIMIT
      && PermitsOf(w) == permits % PERMIT_LIMIT && TimeOf(w) == time % TIME_LIMIT
  {
    var w := Pack(state, failures, permits, time);
    var a := state % 4 * COUNT_LIMIT + failures % COUNT_LIMIT;
    var b := a * PERMIT_LIMIT + permits % PERMIT_LIMIT;
    assert w / TIME_LIMIT == b;
    assert w / (TIME_LIMIT * PERMIT_LIMIT) == b / PERMIT_LIMIT == a;
    assert w / (TIME_LIMIT * PERMIT_LIMIT * COUNT_LIMIT) == a / COUNT_LIMIT == state % 4;
  }

  /** pack after unpack is the identity on words, so equal fields mean equal words. */
  lemma PackUnpack(w: nat)
    requires w < WORD_LIMIT
    ensures Pack(StateOf(w), FailuresOf(w), PermitsOf(w), TimeOf(w)) == w
  {
    var b, a := w / TIME_LIMIT, w / (TIME_LIMIT * PERMIT_LIMIT);
    assert a == b / PERMIT_LIMIT;
    assert a / COUNT_LIMIT == w / (TIME_LIMIT * PERMIT_LIMIT * COUNT_LIMIT) < 4;
    assert StateOf(w) * COUNT_LIMIT + FailuresOf(w) == a;
    assert a * PERMIT_LIMIT + PermitsOf(w) == b;
  }

  // ---- configuration and the pure part of each loop body ----

  datatype Policy = Consecutive(threshold: nat) | Windowed(threshold: nat, window: nat)

  /** `steady`: the clock never goes back and stays below 2^32. */
  datatype Config = Config(policy: Policy, resetTimeout: nat, permits: nat, steady: bool)

  function WrappingSub(a: nat, b: nat): (r: nat)
    requires a < WORD_LIMIT && b < WORD_LIMIT
    ensures r < WORD_LIMIT && (b <= a ==> r == a - b)
  {
    (a + WORD_LIMIT - b) % WORD_LIMIT
  }

  datatype AllowDecision = Admit | Reject | Probe(next: nat) | Take(next: nat) | Repair(next: nat)

  function DecideAllow(cfg: Config, w: nat, now: nat): AllowDecision
    requires now < WORD_LIMIT
  {
    if StateOf(w) == CLOSED then Admit
    else if StateOf(w) == OPEN then
      if WrappingSub(now, TimeOf(w)) >= cfg.resetTimeout then Probe(Pack(HALF_OPEN, 0, cfg.permits, now)) else Reject
    else if StateOf(w) == HALF_OPEN then
      if PermitsOf(w) == 0 then Reject else Take(Pack(HALF_OPEN, FailuresOf(w), PermitsOf(w) - 1, TimeOf(w)))
    else Repair(Pack(CLOSED, 0, 0, now))
  }

  datatype Update = Done | Swap(next: nat)

  function DecideSuccess(w: nat, now: nat): Update {
    if StateOf(w) == CLOSED || StateOf(w) == HALF_OPEN then Swap(Pack(CLOSED, 0, 0, now)) else Done
  }

  function NextCount(w: nat, reset: bool): nat { if reset then 1 else FailuresOf(w) + 1 }

  predicate Opens(cfg: Config, w: nat, reset: bool) {
    StateOf(w) == HALF_OPEN || (StateOf(w) == CLOSED && NextCount(w, reset) >= cfg.policy.threshold)
  }

  function DecideFailure(cfg: Config, w: nat, now: nat, reset: bool): Update {
    if StateOf(w) != CLOSED && StateOf(w) != HALF_OPEN then Done
    else if Opens(cfg, w, reset) then Swap(Pack(OPEN, 0, 0, now))
    else Swap(Pack(CLOSED, NextCount(w, reset), 0, now))
  }

  /** Whether a windowed failure at `now` starts a new window. */
  predicate StartsWindow(windowStart: nat, now: nat, window: nat)
    requires now < WORD_LIMIT && windowStart < WORD_LIMIT
  {
    windowStart == 0 || WrappingSub(now, windowStart) >= window
  }

  // ---- the plain breaker ----

  /** What linearises: an admitted request, a recorded failure (and whether the circuit
      trips on it), a recorded success, and the move from open to half-open. */
  datatype Event = Admitted | Failed(now: nat, trips: bool) | Succeeded | Probed(now: nat)

  datatype Plain = PlainClosed(failures: nat) | PlainOpen(since: nat) | PlainHalfOpen(granted: nat)

  /** Failures beyond the last reset are counted without bound; `granted` counts the
      requests admitted since the circuit became half-open. */
  predicate MayOpen(cfg: Config, failures: nat, trips: bool) {
    match cfg.policy
    case Consecutive(threshold) => trips == (failures % COUNT_LIMIT + 1 >= threshold)
    case Windowed(threshold, _) => trips ==> failures + 1 >= threshold
  }

  predicate Enabled(cfg: Config, p: Plain, e: Event) {
    match e
    case Admitted => !p.PlainOpen? && (p.PlainHalfOpen? ==> p.granted < cfg.permits % PERMIT_LIMIT)
    case Failed(now, trips) => !p.PlainOpen? && if p.PlainClosed? then MayOpen(cfg, p.failures, trips) else trips
    case Succeeded => !p.PlainOpen?
    case Probed(now) => p.PlainOpen? && (cfg.steady ==> now >= p.since + cfg.resetTimeout)
  }

  function Apply(cfg: Config, p: Plain, e: Event): Plain
    requires Enabled(cfg, p, e)
  {
    match e
    case Admitted => if p.PlainHalfOpen? then PlainHalfOpen(p.granted + 1) else p
    case Failed(now, trips) => if trips then PlainOpen(now) else PlainClosed(p.failures + 1)
    case Succeeded => PlainClosed(0)
    case Probed(_) => PlainHalfOpen(0)
  }

  /** `history` is a run of the plain breaker from closed that ends in `p`. */
  ghost predicate Replays(cfg: Config, history: seq<Event>, p: Plain) {
    if history == [] then p == PlainClosed(0)
    else
      var n := |history| - 1;
      exists q :: Replays(cfg, history[..n], q) && Enabled(cfg, q, history[n]) && p == Apply(cfg, q, history[n])
  }

  // ---- threads ----

  /** Where a thread is between two atomic accesses, with what it has read so far. */
  datatype Thread =
    | Idle
    | AllowStart
    | AllowLoaded(w: nat)
    | AllowReady(w: nat, now: nat)
    | SuccessStart
    | SuccessClear
    | SuccessLoop
    | SuccessLoaded(w: nat)
    | SuccessReady(w: nat, now: nat)
    | FailureStart
    | FailureTimed(now: nat)
    | FailureWindow(now: nat, windowStart: nat)
    | FailureLoop(now: nat, reset: bool)
    | FailureLoaded(w: nat, now: nat, reset: bool)
    | FailureReady(w: nat, now: nat, reset: bool)

  /** The shared word and window, the clock, the threads, and (for the proofs) what has
      linearised so far with the plain state it leads to. */
  datatype State = State(word: nat, windowStart: nat, clock: nat, threads: map<nat, Thread>, history: seq<Event>,
                         plain: Plain)

  ghost predicate Init(cfg: Config, s: State) {
    && s.clock < (if cfg.steady then TIME_LIMIT else WORD_LIMIT)
    && s.word == Pack(CLOSED, 0, 0, s.clock) && s.windowStart == 0
    && (forall t :: t in s.threads ==> s.threads[t] == Idle)
    && s.history == [] && s.plain == PlainClosed(0)
  }

  function At(s: State, t: nat): Thread { if t in s.threads then s.threads[t] else Idle }
  function Go(s: State, t: nat, pc: Thread): State { s.(threads := s.threads[t := pc]) }

  function Log(cfg: Config, s: State, e: Event): State {
    if Enabled(cfg, s.plain, e) then s.(history := s.history + [e], plain := Apply(cfg, s.plain, e))
    else s.(history := s.history + [e])
  }

  /** Time passes: forward and below 2^32 when steady, to anything otherwise. */
  ghost predicate Tick(cfg: Config, s: State, s2: State) {
    && s2 == s.(clock := s2.clock) && s2.clock < WORD_LIMIT
    && (cfg.steady ==> s.clock <= s2.clock < TIME_LIMIT)
  }

  /** Thread `t` calls one of the three operations. */
  ghost predicate Call(s: State, s2: State, t: nat) {
    At(s, t) == Idle && (s2 == Go(s, t, AllowStart) || s2 == Go(s, t, SuccessStart) || s2 == Go(s, t, FailureStart))
  }

  ghost predicate AllowStep(cfg: Config, s: State, s2: State, t: nat)
    requires s.clock < WORD_LIMIT
  {
    match At(s, t)
    case AllowStart =>
      s2 == if StateOf(s.word) == CLOSED then Log(cfg, Go(s, t, Idle), Event.Admitted)
            else Go(s, t, AllowLoaded(s.word))
    case AllowLoaded(w) =>
      s2 == Go(s, t, if DecideAllow(cfg, w, s.clock).Reject? then Idle else AllowReady(w, s.clock))
    case AllowReady(w, now) =>
      now < WORD_LIMIT && (
        s2 == Go(s, t, AllowStart) ||   // lost the race, or a spurious failure
        (s.word == w && match DecideAllow(cfg, w, now)
           case Probe(next) => s2 == Log(cfg, Go(s, t, AllowStart).(word := next), Probed(now))
           case Take(next) => s2 == Log(cfg, Go(s, t, Idle).(word := next), Event.Admitted)
           case Repair(next) => s2 == Log(cfg, Go(s, t, Idle).(word := next), Event.Admitted)
           case _ => false))
    case _ => false
  }

  ghost predicate SuccessStep(cfg: Config, s: State, s2: State, t: nat) {
    match At(s, t)
    case SuccessStart =>
      s2 == if StateOf(s.word) == CLOSED && FailuresOf(s.word) == 0 then Log(cfg, Go(s, t, Idle), Succeeded)
            else Go(s, t, SuccessClear)
    case SuccessClear => s2 == Go(s, t, SuccessLoop).(windowStart := 0)
    case SuccessLoop => s2 == Go(s, t, if DecideSuccess(s.word, 0).Done? then Idle else SuccessLoaded(s.word))
    case SuccessLoaded(w) => s2 == Go(s, t, SuccessReady(w, s.clock))
    case SuccessReady(w, now) =>
      s2 == Go(s, t, SuccessLoop) ||
      (s.word == w && match DecideSuccess(w, now)
         case Swap(next) => s2 == Log(cfg, Go(s, t, Idle).(word := next), Succeeded)
         case Done => false)
    case _ => false
  }

  ghost predicate FailureStep(cfg: Config, s: State, s2: State, t: nat)
    requires s.clock < WORD_LIMIT && s.windowStart < WORD_LIMIT
  {
    match At(s, t)
    case FailureStart =>
      s2 == Go(s, t, if cfg.policy.Windowed? then FailureTimed(s.clock) else FailureLoop(s.clock, false))
    case FailureTimed(now) => s2 == Go(s, t, FailureWindow(now, s.windowStart))
    case FailureWindow(now, was) =>
      now < WORD_LIMIT && was < WORD_LIMIT && cfg.policy.Windowed? &&
      var reset := StartsWindow(was, now, cfg.policy.window);
      s2 == Go(s, t, FailureLoop(now, reset)).(windowStart := if reset && s.windowStart == was then now
                                                              else s.windowStart)
    case FailureLoop(now, reset) => s2 == Go(s, t, FailureLoaded(s.word, now, reset))
    case FailureLoaded(w, now, reset) =>
      var now2 := if cfg.policy.Windowed? then now else s.clock;
      s2 == if DecideFailure(cfg, w, now2, reset).Done? then Go(s, t, Idle)
            else if cfg.policy.Windowed? && Opens(cfg, w, reset)
            then Go(s, t, FailureReady(w, now2, reset)).(windowStart := 0)
            else Go(s, t, FailureReady(w, now2, reset))
    case FailureReady(w, now, reset) =>
      s2 == Go(s, t, FailureLoop(now, reset)) ||
      (s.word == w && match DecideFailure(cfg, w, now, reset)
         case Swap(next) => s2 == Log(cfg, Go(s, t, Idle).(word := next), Failed(now, Opens(cfg, w, reset)))
         case Done => false)
    case _ => false
  }

  ghost predicate Moves(cfg: Config, s: State, s2: State, t: nat)
    requires s.clock < WORD_LIMIT && s.windowStart < WORD_LIMIT
  {
    Call(s, s2, t) || AllowStep(cfg, s, s2, t) || SuccessStep(cfg, s, s2, t) || FailureStep(cfg, s, s2, t)
  }

  ghost predicate Step(cfg: Config, s: State, s2: State)
    requires s.clock < WORD_LIMIT && s.windowStart < WORD_LIMIT
  {
    Tick(cfg, s, s2) || exists t :: Moves(cfg, s, s2, t)
  }

  /** Any interleaving, of any length and number of threads. */
  ghost predicate Run(cfg: Config, run: seq<State>) {
    && |run| > 0 && Init(cfg, run[0])
    && (forall i :: 0 <= i < |run| ==> run[i].clock < WORD_LIMIT && run[i].windowStart < WORD_LIMIT)
    && (forall i :: 0 <= i < |run| - 1 ==> Step(cfg, run[i], run[i + 1]))
  }

  // ---- the invariant ----

  ghost predicate WordOk(w: nat) { w < WORD_LIMIT && StateOf(w) != 3 }

  /** The word is the plain state, cut to the word's field widths. */
  ghost predicate Shows(cfg: Config, w: nat, p: Plain) {
    && WordOk(w)
    && match p
       case PlainClosed(n) =>
         StateOf(w) == CLOSED && PermitsOf(w) == 0 &&
         (if cfg.policy.Consecutive?
          then
            && FailuresOf(w) == n % COUNT_LIMIT
            && (n == 0 || n < cfg.policy.threshold || COUNT_LIMIT < cfg.policy.threshold)
          else FailuresOf(w) <= n)
       case PlainOpen(since) => w == Pack(OPEN, 0, 0, since) && (cfg.steady ==> since < TIME_LIMIT)
       case PlainHalfOpen(granted) =>
         StateOf(w) == HALF_OPEN && FailuresOf(w) == 0 && granted + PermitsOf(w) == cfg.permits % PERMIT_LIMIT
  }

  /** The thread holds a word it has loaded; it holds a time it has read. */
  predicate Holds(pc: Thread) {
    pc.AllowLoaded? || pc.AllowReady? || pc.SuccessLoaded? || pc.SuccessReady? || pc.FailureLoaded? || pc.FailureReady?
  }

  predicate Timed(pc: Thread) {
    || pc.SuccessReady? || pc.FailureReady? || pc.FailureLoop? || pc.FailureLoaded? || pc.FailureTimed?
    || pc.FailureWindow?
  }

  /** Readings a thread holds are valid words and, on a steady clock, in order. */
  ghost predicate Reading(cfg: Config, clock: nat, pc: Thread) {
    && (Holds(pc) ==> WordOk(pc.w))
    && (pc.AllowLoaded? ==> StateOf(pc.w) != CLOSED && (cfg.steady ==> TimeOf(pc.w) <= clock))
    && (pc.AllowReady? ==>
        StateOf(pc.w) != CLOSED && pc.now < WORD_LIMIT && (cfg.steady ==> TimeOf(pc.w) <= pc.now <= clock))
    && (Timed(pc) ==>
          pc.now < WORD_LIMIT && (cfg.steady ==> pc.now <= clock))
    && (pc.FailureLoop? || pc.FailureLoaded? || pc.FailureReady? ==> cfg.policy.Consecutive? ==> !pc.reset)
    && (pc.FailureWindow? ==> pc.windowStart < WORD_LIMIT)
  }

  ghost predicate Inv(cfg: Config, s: State) {
    && s.clock < WORD_LIMIT && s.windowStart < WORD_LIMIT
    && (cfg.steady ==> s.clock < TIME_LIMIT && TimeOf(s.word) <= s.clock)
    && Replays(cfg, s.history, s.plain) && Shows(cfg, s.word, s.plain)
    && forall t :: t in s.threads ==> Reading(cfg, s.clock, s.threads[t])
  }

  lemma LogKeeps(cfg: Config, history: seq<Event>, p: Plain, e: Event)
    requires Replays(cfg, history, p) && Enabled(cfg, p, e)
    ensures Replays(cfg, history + [e], Apply(cfg, p, e))
  {
    assert (history + [e])[..|history|] == history;
  }

  // ---- each compare-and-swap is one step of the plain breaker ----

  lemma ProbeShows(cfg: Config, w: nat, now: nat, p: Plain)
    requires Shows(cfg, w, p) && now < WORD_LIMIT && DecideAllow(cfg, w, now).Probe?
    requires cfg.steady ==> TimeOf(w) <= now < TIME_LIMIT
    ensures Enabled(cfg, p, Probed(now)) && Shows(cfg, DecideAllow(cfg, w, now).next, Apply(cfg, p, Probed(now)))
    ensures cfg.steady ==> TimeOf(DecideAllow(cfg, w, now).next) == now
  {
    UnpackPack(HALF_OPEN, 0, cfg.permits, now);
    if p.PlainOpen? { UnpackPack(OPEN, 0, 0, p.since); }
    hide Pack, StateOf, FailuresOf, PermitsOf, TimeOf;
  }

  lemma TakeShows(cfg: Config, w: nat, now: nat, p: Plain)
    requires Shows(cfg, w, p) && now < WORD_LIMIT && DecideAllow(cfg, w, now).Take?
    ensures Enabled(cfg, p, Admitted) && Shows(cfg, DecideAllow(cfg, w, now).next, Apply(cfg, p, Admitted))
    ensures TimeOf(DecideAllow(cfg, w, now).next) == TimeOf(w)
  {
    UnpackPack(HALF_OPEN, FailuresOf(w), PermitsOf(w) - 1, TimeOf(w));
    if p.PlainOpen? { UnpackPack(OPEN, 0, 0, p.since); }
    hide Pack, StateOf, FailuresOf, PermitsOf;
  }

  lemma SuccessShows(cfg: Config, w: nat, now: nat, p: Plain)
    requires Shows(cfg, w, p) && DecideSuccess(w, now).Swap?
    ensures Enabled(cfg, p, Succeeded) && Shows(cfg, DecideSuccess(w, now).next, Apply(cfg, p, Succeeded))
    ensures TimeOf(DecideSuccess(w, now).next) == now % TIME_LIMIT
  {
    UnpackPack(CLOSED, 0, 0, now);
    if p.PlainOpen? { UnpackPack(OPEN, 0, 0, p.since); }
    hide Pack, StateOf, FailuresOf, PermitsOf, TimeOf;
  }

  lemma FailureShows(cfg: Config, w: nat, now: nat, reset: bool, p: Plain)
    requires Shows(cfg, w, p) && DecideFailure(cfg, w, now, reset).Swap? && (cfg.steady ==> now < TIME_LIMIT)
    requires cfg.policy.Consecutive? ==> !reset
    ensures var e := Failed(now, Opens(cfg, w, reset));
      Enabled(cfg, p, e) && Shows(cfg, DecideFailure(cfg, w, now, reset).next, Apply(cfg, p, e))
    ensures TimeOf(DecideFailure(cfg, w, now, reset).next) == now % TIME_LIMIT
  {
    UnpackPack(OPEN, 0, 0, now);
    UnpackPack(CLOSED, NextCount(w, reset), 0, now);
    if p.PlainOpen? { UnpackPack(OPEN, 0, 0, p.since); }
    if p.PlainClosed? { CountStep(p.failures); assert FailuresOf(w) < COUNT_LIMIT; }
    hide Pack, StateOf, FailuresOf, PermitsOf, TimeOf;
  }

  lemma CountStep(n: nat)
    ensures (n % COUNT_LIMIT + 1) % COUNT_LIMIT == (n + 1) % COUNT_LIMIT
    ensures n < COUNT_LIMIT ==> n % COUNT_LIMIT == n
  {
  }

  // ---- every step keeps the invariant ----

  lemma LogInv(cfg: Config, s: State, e: Event, s2: State)
    requires s.clock < WORD_LIMIT && s.windowStart < WORD_LIMIT
    requires (cfg.steady ==> s.clock < TIME_LIMIT && TimeOf(s.word) <= s.clock)
    requires Replays(cfg, s.history, s.plain) && Enabled(cfg, s.plain, e) && Shows(cfg, s.word, Apply(cfg, s.plain, e))
    requires forall t :: t in s.threads ==> Reading(cfg, s.clock, s.threads[t])
    requires s2 == Log(cfg, s, e)
    ensures Inv(cfg, s2)
  {
    LogKeeps(cfg, s.history, s.plain, e);
  }

  lemma OpenTime(cfg: Config, w: nat, p: Plain)
    requires Shows(cfg, w, p)
    ensures p.PlainClosed? <==> StateOf(w) == CLOSED
    ensures p.PlainOpen? <==> StateOf(w) == OPEN
    ensures p.PlainHalfOpen? <==> StateOf(w) == HALF_OPEN
  {
    if p.PlainOpen? { UnpackPack(OPEN, 0, 0, p.since); }
  }

  lemma AllowKeeps(cfg: Config, s: State, s2: State, t: nat)
    requires Inv(cfg, s) && AllowStep(cfg, s, s2, t)
    ensures Inv(cfg, s2)
  {
    OpenTime(cfg, s.word, s.plain);
    match At(s, t) {
      case AllowStart =>
        if StateOf(s.word) == CLOSED {
          hide Shows;
          assert Shows(cfg, s.word, Apply(cfg, s.plain, Admitted));
          LogInv(cfg, Go(s, t, Idle), Admitted, s2);
        }
      case AllowLoaded(w) =>
      case AllowReady(w, now) =>
        if s2 != Go(s, t, AllowStart) {
          match DecideAllow(cfg, w, now) {
            case Probe(next) =>
              ProbeShows(cfg, w, now, s.plain);
              hide Shows, DecideAllow, Pack, Apply, Enabled, StateOf;
              LogInv(cfg, Go(s, t, AllowStart).(word := next), Probed(now), s2);
            case Take(next) =>
              TakeShows(cfg, w, now, s.plain);
              hide Shows, DecideAllow, Pack, Apply, Enabled, StateOf;
              LogInv(cfg, Go(s, t, Idle).(word := next), Admitted, s2);
            case _ =>
          }
        }
      case _ =>
    }
  }

  lemma SuccessSwap(cfg: Config, s: State, s2: State, t: nat, w: nat, now: nat)
    requires Inv(cfg, s) && At(s, t) == SuccessReady(w, now) && s.word == w && DecideSuccess(w, now).Swap?
    requires s2 == Log(cfg, Go(s, t, Idle).(word := DecideSuccess(w, now).next), Succeeded)
    ensures Inv(cfg, s2)
  {
    SuccessShows(cfg, w, now, s.plain);
    var next := DecideSuccess(w, now).next;
    hide Shows, DecideSuccess, Pack, Apply, Enabled, StateOf, Log;
    LogInv(cfg, Go(s, t, Idle).(word := next), Succeeded, s2);
  }

  lemma SuccessKeeps(cfg: Config, s: State, s2: State, t: nat)
    requires Inv(cfg, s) && SuccessStep(cfg, s, s2, t)
    ensures Inv(cfg, s2)
  {
    OpenTime(cfg, s.word, s.plain);
    match At(s, t) {
      case SuccessStart =>
        if StateOf(s.word) == CLOSED && FailuresOf(s.word) == 0 {
          LogInv(cfg, Go(s, t, Idle), Succeeded, s2);
        }
      case SuccessReady(w, now) =>
        if s2 != Go(s, t, SuccessLoop) { SuccessSwap(cfg, s, s2, t, w, now); }
      case _ => hide Shows, Replays, StateOf, FailuresOf;
    }
  }

  lemma FailureSwap(cfg: Config, s: State, s2: State, t: nat, w: nat, now: nat, reset: bool)
    requires Inv(cfg, s) && At(s, t) == FailureReady(w, now, reset) && s.word == w
    requires DecideFailure(cfg, w, now, reset).Swap?
    requires s2 ==
      Log(cfg, Go(s, t, Idle).(word := DecideFailure(cfg, w, now, reset).next), Failed(now, Opens(cfg, w, reset)))
    ensures Inv(cfg, s2)
  {
    FailureShows(cfg, w, now, reset, s.plain);
    var next, e := DecideFailure(cfg, w, now, reset).next, Failed(now, Opens(cfg, w, reset));
    hide Shows, DecideFailure, Opens, Pack, Apply, Enabled, StateOf, Log;
    LogInv(cfg, Go(s, t, Idle).(word := next), e, s2);
  }

  lemma FailureKeeps(cfg: Config, s: State, s2: State, t: nat)
    requires Inv(cfg, s) && FailureStep(cfg, s, s2, t)
    ensures Inv(cfg, s2)
  {
    match At(s, t) {
      case FailureReady(w, now, reset) =>
        if s2 != Go(s, t, FailureLoop(now, reset)) { FailureSwap(cfg, s, s2, t, w, now, reset); }
      case _ => hide Shows, DecideFailure, Opens, Replays;
    }
  }

  lemma StepKeeps(cfg: Config, s: State, s2: State)
    requires Inv(cfg, s) && Step(cfg, s, s2)
    ensures Inv(cfg, s2)
  {
    hide Shows, Replays, AllowStep, SuccessStep, FailureStep;
    if !Tick(cfg, s, s2) {
      var t :| Moves(cfg, s, s2, t);
      if AllowStep(cfg, s, s2, t) { AllowKeeps(cfg, s, s2, t); }
      else if SuccessStep(cfg, s, s2, t) { SuccessKeeps(cfg, s, s2, t); }
      else if FailureStep(cfg, s, s2, t) { FailureKeeps(cfg, s, s2, t); }
    }
  }

  lemma InitInv(cfg: Config, s: State)
    requires Init(cfg, s)
    ensures Inv(cfg, s)
  {
    UnpackPack(CLOSED, 0, 0, s.clock);
  }

  lemma {:induction false} Reaches(cfg: Config, run: seq<State>, i: nat)
    requires Run(cfg, run) && i < |run|
    ensures Inv(cfg, run[i])
  {
    if i == 0 { InitInv(cfg, run[0]); } else {
      Reaches(cfg, run, i - 1);
      StepKeeps(cfg, run[i - 1], run[i - 1 + 1]);
    }
  }

  // ---- what every history looks like, counted without the breaker ----

  /** Failures since the last success, trip or probe. */
  function FailuresSince(h: seq<Event>): nat {
    if h == [] then 0 else
    match h[|h| - 1]
    case Failed(_, trips) => if trips then 0 else FailuresSince(h[..|h| - 1]) + 1
    case Admitted => FailuresSince(h[..|h| - 1])
    case _ => 0
  }

  /** Requests admitted since the circuit last became half-open. */
  function AdmittedSince(h: seq<Event>): nat {
    if h == [] || h[|h| - 1].Probed? then 0
    else AdmittedSince(h[..|h| - 1]) + if h[|h| - 1].Admitted? then 1 else 0
  }

  /** When the circuit last opened. */
  function LastTrip(h: seq<Event>): int {
    if h == [] then -1
    else if h[|h| - 1].Failed? && h[|h| - 1].trips then h[|h| - 1].now
    else LastTrip(h[..|h| - 1])
  }

  datatype Phase = Closed | Opened | HalfOpened

  /** The circuit's phase, replayed from the events that change it. */
  function PhaseOf(h: seq<Event>): Phase {
    if h == [] then Closed else
    match h[|h| - 1]
    case Failed(_, trips) => if trips then Opened else Closed
    case Succeeded => Closed
    case Probed(_) => HalfOpened
    case Admitted => PhaseOf(h[..|h| - 1])
  }

  lemma {:induction false} ReplayCounts(cfg: Config, h: seq<Event>, p: Plain)
    requires Replays(cfg, h, p)
    ensures PhaseOf(h) ==
      match p case PlainClosed(_) => Closed case PlainOpen(_) => Opened case PlainHalfOpen(_) => HalfOpened
    ensures p.PlainClosed? ==> p.failures == FailuresSince(h)
    ensures p.PlainHalfOpen? ==> p.granted == AdmittedSince(h)
    ensures p.PlainOpen? ==> p.since == LastTrip(h)
    decreases |h|
  {
    if h != [] {
      var n := |h| - 1;
      var q :| Replays(cfg, h[..n], q) && Enabled(cfg, q, h[n]) && p == Apply(cfg, q, h[n]);
      ReplayCounts(cfg, h[..n], q);
    }
  }

  /** Each event of a history was enabled after the events before it. */
  ghost predicate Legal(cfg: Config, h: seq<Event>, j: nat)
    requires j < |h|
  {
    var b := h[..j];
    match h[j]
    case Admitted =>
      PhaseOf(b) != Opened && (PhaseOf(b) == HalfOpened ==> AdmittedSince(b) < cfg.permits % PERMIT_LIMIT)
    case Failed(_, trips) =>
      && PhaseOf(b) != Opened
      && (PhaseOf(b) == HalfOpened ==> trips)
      && (PhaseOf(b) == Closed ==> MayOpen(cfg, FailuresSince(b), trips))
    case Succeeded => PhaseOf(b) != Opened
    case Probed(now) =>
      PhaseOf(b) == Opened && (cfg.steady ==> LastTrip(b) >= 0 && now >= LastTrip(b) + cfg.resetTimeout)
  }

  lemma {:induction false} ReplayLegal(cfg: Config, h: seq<Event>, p: Plain, j: nat)
    requires Replays(cfg, h, p) && j < |h|
    ensures Legal(cfg, h, j)
    decreases |h|
  {
    var n := |h| - 1;
    var q :| Replays(cfg, h[..n], q) && Enabled(cfg, q, h[n]) && p == Apply(cfg, q, h[n]);
    if j == n { ReplayCounts(cfg, h[..n], q); } else {
      ReplayLegal(cfg, h[..n], q, j);
      assert h[..n][..j] == h[..j];
    }
  }

  /** The refinement: in every interleaving, what linearises is a legal history, and the
      word shows exactly the state that history leads to. */
  lemma Refines(cfg: Config, run: seq<State>, i: nat)
    requires Run(cfg, run) && i < |run|
    ensures Replays(cfg, run[i].history, run[i].plain) && Shows(cfg, run[i].word, run[i].plain)
    ensures forall j :: 0 <= j < |run[i].history| ==> Legal(cfg, run[i].history, j)
    ensures StateOf(run[i].word) ==
      match PhaseOf(run[i].history) case Closed => CLOSED case Opened => OPEN case HalfOpened => HALF_OPEN
  {
    Reaches(cfg, run, i);
    var s := run[i];
    forall j | 0 <= j < |s.history| ensures Legal(cfg, s.history, j) { ReplayLegal(cfg, s.history, s.plain, j); }
    ReplayCounts(cfg, s.history, s.plain);
    OpenTime(cfg, s.word, s.plain);
  }

  /** Permits are conserved in every half-open epoch of every run. */
  lemma PermitsConserved(cfg: Config, run: seq<State>, i: nat)
    requires Run(cfg, run) && i < |run| && StateOf(run[i].word) == HALF_OPEN
    ensures AdmittedSince(run[i].history) + PermitsOf(run[i].word) == cfg.permits % PERMIT_LIMIT
  {
    Reaches(cfg, run, i);
    ReplayCounts(cfg, run[i].history, run[i].plain);
    OpenTime(cfg, run[i].word, run[i].plain);
  }

  /** Consecutive policy: a closed word's count is the failures since the last reset, cut
      to 14 bits, and for thresholds that fit it never reaches the threshold. */
  lemma ClosedCount(cfg: Config, run: seq<State>, i: nat)
    requires Run(cfg, run) && i < |run| && StateOf(run[i].word) == CLOSED && cfg.policy.Consecutive?
    ensures FailuresOf(run[i].word) == FailuresSince(run[i].history) % COUNT_LIMIT
    ensures 1 <= cfg.policy.threshold <= COUNT_LIMIT ==>
      FailuresOf(run[i].word) == FailuresSince(run[i].history) < cfg.policy.threshold
  {
    Reaches(cfg, run, i);
    ReplayCounts(cfg, run[i].history, run[i].plain);
    OpenTime(cfg, run[i].word, run[i].plain);
  }

  /** Consecutive policy, threshold within 14 bits: the circuit opens on exactly the
      threshold-th failure since the last reset, in every interleaving. */
  lemma TripsExactly(cfg: Config, run: seq<State>, i: nat, j: nat)
    requires Run(cfg, run) && i < |run| && j < |run[i].history|
    requires cfg.policy.Consecutive? && 1 <= cfg.policy.threshold <= COUNT_LIMIT
    requires run[i].history[j].Failed? && PhaseOf(run[i].history[..j]) == Closed
    ensures run[i].history[j].trips <==> FailuresSince(run[i].history[..j]) + 1 == cfg.policy.threshold
  {
    Refines(cfg, run, i);
    var h := run[i].history;
    assert Legal(cfg, h, j);
    BelowThreshold(cfg, h[..j], run[i], j);
  }

  lemma {:induction false} BelowThreshold(cfg: Config, b: seq<Event>, s: State, j: nat)
    requires forall k :: 0 <= k < |s.history| ==> Legal(cfg, s.history, k)
    requires j <= |s.history| && b == s.history[..j]
    requires cfg.policy.Consecutive? && 1 <= cfg.policy.threshold <= COUNT_LIMIT
    ensures FailuresSince(b) < cfg.policy.threshold
    decreases j
  {
    if j > 0 {
      BelowThreshold(cfg, s.history[..j - 1], s, j - 1);
      assert Legal(cfg, s.history, j - 1);
      assert b[..j - 1] == s.history[..j - 1];
    }
  }

  /** Beyond 14 bits the count wraps first: no run ever opens. */
  lemma NeverTrips(cfg: Config, run: seq<State>, i: nat)
    requires Run(cfg, run) && i < |run| && cfg.policy.Consecutive? && cfg.policy.threshold > COUNT_LIMIT
    ensures StateOf(run[i].word) == CLOSED
  {
    Refines(cfg, run, i);
    AlwaysClosed(cfg, run[i].history, |run[i].history|);
    assert run[i].history[..|run[i].history|] == run[i].history;
  }

  lemma {:induction false} AlwaysClosed(cfg: Config, h: seq<Event>, j: nat)
    requires forall k :: 0 <= k < |h| ==> Legal(cfg, h, k)
    requires j <= |h| && cfg.policy.Consecutive? && cfg.policy.threshold > COUNT_LIMIT
    ensures PhaseOf(h[..j]) == Closed
  {
    if j > 0 {
      AlwaysClosed(cfg, h, j - 1);
      assert Legal(cfg, h, j - 1);
      assert h[..j][..j - 1] == h[..j - 1];
    }
  }

  function Last(run: seq<State>): State
    requires |run| > 0
  {
    run[|run| - 1]
  }

  lemma Extend(cfg: Config, run: seq<State>, s: State) returns (more: seq<State>)
    requires Run(cfg, run) && s.clock < WORD_LIMIT && s.windowStart < WORD_LIMIT && Moves(cfg, Last(run), s, 0)
    ensures Run(cfg, more) && Last(more) == s
  {
    hide Moves;
    more := run + [s];
    forall i | 0 <= i < |more| - 1 ensures Step(cfg, more[i], more[i + 1]) {
      if i < |run| - 1 { assert Step(cfg, run[i], run[i + 1]); }
    }
  }

  /** One failure by a thread that meets no interference. */
  lemma SoloFailure(cfg: Config, before: seq<State>) returns (run: seq<State>)
    requires cfg.policy.Consecutive? && Run(cfg, before) && At(Last(before), 0) == Idle
    requires StateOf(Last(before).word) == CLOSED
    ensures Run(cfg, run) && At(Last(run), 0) == Idle
    ensures Last(run).history ==
      Last(before).history + [Failed(Last(before).clock, Opens(cfg, Last(before).word, false))]
  {
    hide StateOf, FailuresOf, Pack, AllowStep, SuccessStep, Enabled, Apply, Run, Step;
    Bounded(cfg, before);
    var s := Last(before);
    var b := Go(Go(s, 0, FailureStart), 0, FailureLoop(s.clock, false));
    var c := Go(b, 0, FailureLoaded(s.word, s.clock, false));
    var d := Go(c, 0, FailureReady(s.word, s.clock, false));
    var next := DecideFailure(cfg, s.word, s.clock, false).next;
    run := Extend(cfg, before, Go(s, 0, FailureStart));
    run := Extend(cfg, run, b);
    run := Extend(cfg, run, c);
    run := Extend(cfg, run, d);
    run := Extend(cfg, run, Log(cfg, Go(d, 0, Idle).(word := next), Failed(s.clock, Opens(cfg, s.word, false))));
  }

  lemma Bounded(cfg: Config, run: seq<State>)
    requires Run(cfg, run)
    ensures |run| > 0 && Last(run).clock < WORD_LIMIT && Last(run).windowStart < WORD_LIMIT
  {
  }

  /** With a threshold that fits in 14 bits, `n` failures in a row give a run that counts
      to `n`, and the threshold-th opens the circuit: with `NeverTrips`, a consecutive
      breaker can open if and only if its threshold is at most 16384. */
  lemma {:induction false} CanTrip(cfg: Config, n: nat) returns (run: seq<State>)
    requires cfg.policy.Consecutive? && 1 <= cfg.policy.threshold <= COUNT_LIMIT && n <= cfg.policy.threshold
    ensures Run(cfg, run) && At(Last(run), 0) == Idle
    ensures n < cfg.policy.threshold ==> Last(run).plain == PlainClosed(n)
    ensures n == cfg.policy.threshold ==> StateOf(Last(run).word) == OPEN
  {
    if n == 0 {
      run := [State(Pack(CLOSED, 0, 0, 0), 0, 0, map[], [], PlainClosed(0))];
    } else {
      var before := CanTrip(cfg, n - 1);
      var s := Last(before);
      Reaches(cfg, before, |before| - 1);
      OpenTime(cfg, s.word, s.plain);
      run := SoloFailure(cfg, before);
      FailureCounted(cfg, run, s, n - 1);
    }
  }

  lemma FailureCounted(cfg: Config, run: seq<State>, s: State, n: nat)
    requires cfg.policy.Consecutive? && 1 <= cfg.policy.threshold <= COUNT_LIMIT && n < cfg.policy.threshold
    requires Run(cfg, run) && Inv(cfg, s) && s.plain == PlainClosed(n) && StateOf(s.word) == CLOSED
    requires Last(run).history == s.history + [Failed(s.clock, Opens(cfg, s.word, false))]
    ensures n + 1 < cfg.policy.threshold ==> Last(run).plain == PlainClosed(n + 1)
    ensures n + 1 == cfg.policy.threshold ==> StateOf(Last(run).word) == OPEN
  {
    var z := Last(run);
    Reaches(cfg, run, |run| - 1);
    ReplayCounts(cfg, z.history, z.plain);
    ReplayCounts(cfg, s.history, s.plain);
    assert z.history[..|s.history|] == s.history;
    OpenTime(cfg, z.word, z.plain);
  }

  /** Windowed policy: whatever the races on the window, the circuit never opens before
      the threshold-th failure since the last reset. */
  lemma NeverEarly(cfg: Config, run: seq<State>, i: nat, j: nat)
    requires Run(cfg, run) && i < |run| && j < |run[i].history| && cfg.policy.Windowed?
    requires run[i].history[j].Failed? && run[i].history[j].trips && PhaseOf(run[i].history[..j]) == Closed
    ensures FailuresSince(run[i].history[..j]) + 1 >= cfg.policy.threshold
  {
    Refines(cfg, run, i);
    assert Legal(cfg, run[i].history, j);
  }

  /** On a steady clock no request is admitted while open, and the circuit leaves open
      only once the timeout has passed since it last opened. */
  lemma OpenHolds(cfg: Config, run: seq<State>, i: nat, j: nat)
    requires Run(cfg, run) && i < |run| && j < |run[i].history| && cfg.steady && PhaseOf(run[i].history[..j]) == Opened
    ensures run[i].history[j].Probed? && run[i].history[j].now >= LastTrip(run[i].history[..j]) + cfg.resetTimeout
  {
    Refines(cfg, run, i);
    assert Legal(cfg, run[i].history, j);
  }

  /** The timeout test on a 32-bit clock: opened at `t0`, asked at `t1`, it passes early
      exactly when the clock has wrapped in between. */
  lemma EarlyExactly(t0: nat, t1: nat, timeout: nat)
    requires t0 <= t1 && t1 - t0 < timeout <= WORD_LIMIT - TIME_LIMIT
    ensures WrappingSub(t1 % TIME_LIMIT, t0 % TIME_LIMIT) >= timeout <==> t1 % TIME_LIMIT < t0 % TIME_LIMIT
  {
    var a, b := t1 % TIME_LIMIT, t0 % TIME_LIMIT;
    if a >= b { assert t1 / TIME_LIMIT >= t0 / TIME_LIMIT; assert a - b <= t1 - t0; }
    else { assert (a + WORD_LIMIT - b) % WORD_LIMIT == a + WORD_LIMIT - b; }
  }

  /** One request by a thread that meets no interference, while the circuit is open. */
  lemma SoloAllow(cfg: Config, before: seq<State>) returns (run: seq<State>)
    requires Run(cfg, before) && At(Last(before), 0) == Idle && StateOf(Last(before).word) == OPEN
    requires TimeOf(Last(before).word) < WORD_LIMIT && Last(before).clock < WORD_LIMIT
    ensures var s := Last(before);
      && Run(cfg, run)
      && Last(run).history ==
        if WrappingSub(s.clock, TimeOf(s.word)) >= cfg.resetTimeout then s.history + [Probed(s.clock)] else s.history
  {
    hide StateOf, FailuresOf, TimeOf, PermitsOf, Pack, WrappingSub, SuccessStep, FailureStep, Enabled, Apply, Run,
         Step;
    Bounded(cfg, before);
    var s := Last(before);
    var a := Go(s, 0, AllowStart);
    var b := Go(a, 0, AllowLoaded(s.word));
    run := Extend(cfg, before, a);
    run := Extend(cfg, run, b);
    if DecideAllow(cfg, s.word, s.clock).Reject? {
      run := Extend(cfg, run, Go(b, 0, Idle));
    } else {
      var c := Go(b, 0, AllowReady(s.word, s.clock));
      run := Extend(cfg, run, c);
      var next := DecideAllow(cfg, s.word, s.clock).next;
      run := Extend(cfg, run, Log(cfg, Go(c, 0, AllowStart).(word := next), Probed(s.clock)));
    }
  }

  /** After any run that ends open since `t0` with the time at `t1`, both shown by a clock of 32
      bits: a request before the timeout is up makes the circuit half-open exactly if the
      clock has wrapped in between. */
  lemma EarlyInRun(cfg: Config, before: seq<State>, t0: nat, t1: nat) returns (run: seq<State>)
    requires Run(cfg, before) && At(Last(before), 0) == Idle && Last(before).plain == PlainOpen(t0 % TIME_LIMIT)
    requires t0 <= t1 && t1 - t0 < cfg.resetTimeout <= WORD_LIMIT - TIME_LIMIT && Last(before).clock == t1 % TIME_LIMIT
    ensures Run(cfg, run)
    ensures Last(run).history ==
      Last(before).history + if t1 % TIME_LIMIT < t0 % TIME_LIMIT then [Probed(t1 % TIME_LIMIT)] else []
  {
    var s := Last(before);
    Reaches(cfg, before, |before| - 1);
    OpenTime(cfg, s.word, s.plain);
    UnpackPack(OPEN, 0, 0, t0 % TIME_LIMIT);
    hide Run, Pack, StateOf, Replays;
    EarlyExactly(t0, t1, cfg.resetTimeout);
    run := SoloAllow(cfg, before);
  }

  // ---- half-open without permits ----

  ghost predicate Allowing(pc: Thread) { pc.Idle? || pc.AllowStart? || pc.AllowLoaded? || pc.AllowReady? }
  ghost predicate OnlyAllows(s: State) { forall t :: t in s.threads ==> Allowing(s.threads[t]) }

  /** Once its permits are gone a half-open circuit rejects every request, at any later
      time, until some call already admitted reports back. */
  lemma {:induction false} Exhausted(cfg: Config, run: seq<State>, i: nat, k: nat)
    requires Run(cfg, run) && i <= k < |run| && StateOf(run[i].word) == HALF_OPEN && PermitsOf(run[i].word) == 0
    requires forall m :: i <= m <= k ==> OnlyAllows(run[m])
    ensures run[k].word == run[i].word && run[k].history == run[i].history
    decreases k
  {
    if i < k {
      Exhausted(cfg, run, i, k - 1);
      var s, s2 := run[k - 1], run[k - 1 + 1];
      assert Step(cfg, s, s2) && OnlyAllows(s);
      hide Pack, StateOf, PermitsOf, FailuresOf, TimeOf;
      if !Tick(cfg, s, s2) {
        var t :| Moves(cfg, s, s2, t);
        assert Allowing(At(s, t));
      }
    }
  }
}
