/** The breaker driven by one thread at a time, on a clock that does not go back: under
    the windowed policy every counted failure lies in one window
    (glidefs/src/circuit_breaker.rs). */
module BreakerWindow {
  import opened Breaker

  /** Counted failures of one window: none before `start`, any two less than `window` apart. */
  ghost predicate InWindow(times: seq<nat>, start: nat, window: nat, last: nat) {
    && (forall i :: 0 <= i < |times| ==> times[i] <= last)
    && (|times| > 1 ==> start != 0 && window > 0)
    && (start != 0 ==> forall i :: 0 <= i < |times| ==>
          start <= times[i] && (times[i] == start || times[i] < start + window))
  }

  lemma Later(times: seq<nat>, start: nat, window: nat, last: nat, now: nat)
    requires InWindow(times, start, window, last) && last <= now
    ensures InWindow(times, start, window, now)
  {
  }

  /** Adding a failure at `now` keeps the counted failures in one window. */
  lemma Counted(times: seq<nat>, start: nat, window: nat, last: nat, now: nat)
    requires InWindow(times, start, window, last) && start <= last <= now < WORD_LIMIT
    ensures var restart := StartsWindow(start, now, window);
      var counted := (if restart then [] else times) + [now];
      && InWindow(counted, if restart then now else start, window, now)
      && InWindow([], if restart then now else start, window, now)
      && forall i, j :: 0 <= i < |counted| && 0 <= j < |counted| && i != j ==> counted[i] < counted[j] + window
  {
  }

  lemma Widths(w: nat)
    requires WordOk(w)
    ensures StateOf(w) in {CLOSED, OPEN, HALF_OPEN} && FailuresOf(w) < COUNT_LIMIT
    ensures PermitsOf(w) < PERMIT_LIMIT && TimeOf(w) < TIME_LIMIT
  {
  }

  class CircuitBreaker {
    const cfg: Config
    var state: nat
    var windowStart: nat
    ghost var last: nat         // the latest clock reading
    ghost var times: seq<nat>   // when the failures in the count were recorded

    ghost predicate Valid()
      reads this
    {
      && cfg.policy.Windowed? && WordOk(state) && windowStart <= last < WORD_LIMIT
      && (StateOf(state) == CLOSED ==>
          |times| == FailuresOf(state) && InWindow(times, windowStart, cfg.policy.window, last))
    }

    constructor (threshold: nat, window: nat, resetTimeout: nat, permits: nat, now: nat)
      requires now < WORD_LIMIT
      ensures Valid() && last == now && times == [] && StateOf(state) == CLOSED
    {
      cfg := Config(Windowed(threshold, window), resetTimeout, permits, false);
      state, windowStart, last, times := Pack(CLOSED, 0, 0, now), 0, now, [];
      UnpackPack(CLOSED, 0, 0, now);
    }

    /** allow: the second turn of the loop is the one after winning the probe. */
    method Allow(now: nat) returns (ok: bool)
      requires Valid() && last <= now < WORD_LIMIT
      modifies `state, `last
      ensures Valid() && last == now
      ensures var w := old(state);
        && (StateOf(w) == CLOSED ==> ok && state == w)
        && (StateOf(w) == HALF_OPEN ==>
              && ok == (PermitsOf(w) > 0)
              && state == if ok then Pack(HALF_OPEN, FailuresOf(w), PermitsOf(w) - 1, TimeOf(w)) else w)
        && (StateOf(w) == OPEN ==>
              if WrappingSub(now, TimeOf(w)) < cfg.resetTimeout then !ok && state == w
              else ok == (cfg.permits % PERMIT_LIMIT > 0) && StateOf(state) == HALF_OPEN
                   && PermitsOf(state) + (if ok then 1 else 0) == cfg.permits % PERMIT_LIMIT)
    {
      hide Pack, StateOf, FailuresOf, PermitsOf, TimeOf, InWindow;
      last := now;
      Widths(state);
      if StateOf(state) == CLOSED { Later(times, windowStart, cfg.policy.window, old(last), now); }
      while true
        invariant last == now && Valid()
        invariant state ==
          old(state) || (StateOf(old(state)) == OPEN && WrappingSub(now, TimeOf(old(state))) >= cfg.resetTimeout
                    && StateOf(state) == HALF_OPEN && PermitsOf(state) == cfg.permits % PERMIT_LIMIT)
        decreases StateOf(state) == OPEN
      {
        match DecideAllow(cfg, state, now) {
          case Admit => return true;
          case Reject => return false;
          case Probe(next) =>
            UnpackPack(HALF_OPEN, 0, cfg.permits, now);
            state := next;
          case Take(next) =>
            Widths(state);
            UnpackPack(HALF_OPEN, FailuresOf(state), PermitsOf(state) - 1, TimeOf(state));
            state := next;
            return true;
          case Repair(next) => assert false;
        }
      }
    }

    /** record_success: a closed or half-open circuit is closed with nothing counted. */
    method RecordSuccess(now: nat)
      requires Valid() && last <= now < WORD_LIMIT
      modifies this
      ensures Valid() && last == now
      ensures StateOf(old(state)) == OPEN ==> state == old(state)
      ensures StateOf(old(state)) != OPEN ==> StateOf(state) == CLOSED && times == []
    {
      last := now;
      if StateOf(state) == CLOSED && FailuresOf(state) == 0 { return; }
      windowStart := 0;
      match DecideSuccess(state, now) {
        case Done =>
        case Swap(next) =>
          UnpackPack(CLOSED, 0, 0, now);
          state, times := next, [];
      }
    }

    /** record_failure under the windowed policy: `counted` is what the failure adds to.
        From closed the circuit opens exactly when the failures of one window, this one
        included, reach the threshold. */
    method RecordFailure(now: nat) returns (trips: bool, ghost counted: seq<nat>)
      requires Valid() && last <= now < WORD_LIMIT
      modifies this
      ensures Valid() && last == now
      ensures StateOf(old(state)) == OPEN ==> !trips && state == old(state)
      ensures StateOf(old(state)) == HALF_OPEN ==> trips
      ensures StateOf(old(state)) == CLOSED ==>
        && counted == (if StartsWindow(old(windowStart), now, cfg.policy.window) then [] else old(times)) + [now]
        && (trips <==> |counted| >= cfg.policy.threshold)
        && (forall i, j :: 0 <= i < |counted| && 0 <= j < |counted| && i != j ==>
            counted[i] < counted[j] + cfg.policy.window)
      ensures trips ==> StateOf(state) == OPEN && TimeOf(state) == now % TIME_LIMIT
      ensures StateOf(old(state)) == CLOSED && !trips ==> StateOf(state) == CLOSED
      ensures StateOf(old(state)) == CLOSED && !trips ==> FailuresOf(state) == |counted| % COUNT_LIMIT
    {
      hide Pack, StateOf, FailuresOf, PermitsOf, TimeOf, InWindow, WrappingSub;
      last := now;
      Widths(state);
      if StateOf(state) == CLOSED { Counted(times, windowStart, cfg.policy.window, old(last), now); }
      var reset := StartsWindow(windowStart, now, cfg.policy.window);
      counted := (if reset then [] else times) + [now];
      if reset { windowStart := now; }
      trips := Opens(cfg, state, reset);
      UnpackPack(OPEN, 0, 0, now);
      UnpackPack(CLOSED, NextCount(state, reset), 0, now);
      match DecideFailure(cfg, state, now, reset) {
        case Done =>
        case Swap(next) =>
          if trips { windowStart := 0; }
          state := next;
          times := if |counted| == COUNT_LIMIT then [] else counted;
      }
    }
  }
}
