/** The health checker of a service: how long it has been failing, when that is reported, and when it is polled. */
module HealthChecker {
  import opened Options
  import opened Times

  type Error = nat

  /** A failed poll carries an error. */
  datatype Poll = Poll(error: Option<Error>, now: Time)

  /** The start and the latest error of a streak of failures; the zero time if there is none. */
  datatype Streak = Streak(start: Time, mostRecent: Option<Error>)

  const UNSET := Streak(ZERO_TIME, None)

  function AfterFailure(s: Streak, now: Time, error: Error): Streak {
    Streak(if s.start == ZERO_TIME then now else s.start, Some(error))
  }

  // ---------------------------------------------------------------- the code

  class ErrorStreak {
    var startOfStreak: Time
    var mostRecentError: Option<Error>

    ghost function Value(): Streak
      reads this
    {
      Streak(startOfStreak, mostRecentError)
    }

    constructor ()
      ensures Value() == UNSET
    {
      startOfStreak, mostRecentError := ZERO_TIME, None;
    }

    method UpdateLastError(timestamp: Time, error: Error)
      modifies this
      ensures Value() == AfterFailure(old(Value()), timestamp, error)
    {
      if startOfStreak == ZERO_TIME { startOfStreak := timestamp; }
      mostRecentError := Some(error);
    }

    method Reset()
      modifies this
      ensures Value() == UNSET
    {
      startOfStreak, mostRecentError := ZERO_TIME, None;
    }
  }

  /** What a poll does to the streak, and whether it reports the service as unhealthy. */
  function AfterPoll(s: Streak, p: Poll): Streak {
    match p.error case None => UNSET case Some(e) => AfterFailure(s, p.now, e)
  }

  predicate Reports(s: Streak, p: Poll, maxUnhealthy: Time) {
    p.error.Some? && p.now - AfterPoll(s, p).start >= maxUnhealthy
  }

  /** The timer of the poll: `due` while one is scheduled. */
  class HealthCheckerState {
    const streak: ErrorStreak
    const maxUnhealthyDuration: Time
    const pollFrequency: Time
    var lastSuccess: Time
    var initialized: bool
    var due: Option<Time>
    var stopped: bool

    /** A checker that was stopped has no poll scheduled. */
    ghost predicate Valid()
      reads this
    {
      && (stopped ==> due.None?) && (due.Some? || stopped ==> initialized)
    }

    constructor (maxUnhealthyDuration: Time, pollFrequency: Time)
      ensures Valid() && streak.Value() == UNSET && fresh(streak) && !stopped && !initialized
      ensures this.maxUnhealthyDuration == maxUnhealthyDuration && this.pollFrequency == pollFrequency
    {
      this.maxUnhealthyDuration, this.pollFrequency := maxUnhealthyDuration, pollFrequency;
      streak := new ErrorStreak();
      lastSuccess, initialized, due, stopped := ZERO_TIME, false, None, false;
    }

    method InitializePolling(now: Time, firstPollDelay: Time)
      requires Valid()
      modifies this
      ensures Valid() && initialized && stopped == old(stopped) && lastSuccess == old(lastSuccess)
      ensures due == if old(initialized) then old(due) else Some(now + firstPollDelay)
    {
      if initialized { return; }
      initialized, due := true, Some(now + firstPollDelay);
    }

    method SchedulePoll(now: Time, nextPollDelay: Time)
      requires Valid() && initialized
      modifies this`due
      ensures Valid()
      ensures due == if stopped then old(due) else Some(now + nextPollDelay)
    {
      if stopped { return; }
      due := Some(now + nextPollDelay);
    }

    method Stop()
      requires Valid() && initialized
      modifies this
      ensures Valid() && stopped && due.None? && initialized && lastSuccess == old(lastSuccess)
    {
      if stopped { return; }
      due := None;
      stopped := true;
    }

    /** One poll. A stop before its end keeps the next one from being scheduled. */
    method Run(p: Poll, stoppedMeanwhile: bool) returns (unhealthy: Option<Error>)
      requires Valid() && initialized
      modifies this, streak
      ensures Valid() && initialized
      ensures streak.Value() == AfterPoll(old(streak.Value()), p)
      ensures unhealthy == if Reports(old(streak.Value()), p, maxUnhealthyDuration) then p.error else None
      ensures stopped == (old(stopped) || stoppedMeanwhile)
      ensures due == if stopped then None else Some(p.now + pollFrequency)
      ensures lastSuccess == if p.error.None? then p.now else old(lastSuccess)
    {
      unhealthy := None;
      if p.error.None? {
        lastSuccess := p.now;
        streak.Reset();
      } else {
        streak.UpdateLastError(p.now, p.error.value);
        var streakDuration := p.now - streak.startOfStreak;
        if streakDuration >= maxUnhealthyDuration { unhealthy := p.error; }
      }
      if stoppedMeanwhile { Stop(); }
      SchedulePoll(p.now, pollFrequency);
    }
  }

  // ---------------------------------------------------------------- histories

  function AfterPolls(polls: seq<Poll>): Streak {
    if polls == [] then UNSET else AfterPoll(AfterPolls(polls[..|polls| - 1]), polls[|polls| - 1])
  }

  /** No poll has the zero time. */
  ghost predicate Dated(polls: seq<Poll>) {
    forall i :: 0 <= i < |polls| ==> polls[i].now != ZERO_TIME
  }

  /** `f` is the first failure of the unbroken failures that end the history. */
  ghost predicate StreakFrom(polls: seq<Poll>, f: nat) {
    && f < |polls| && (forall i | f <= i < |polls| :: polls[i].error.Some?)
    && (f > 0 ==> polls[f - 1].error.None?)
  }

  /** The streak is unset after a success, and otherwise started with the first failure since. */
  lemma {:induction false} StreakIsKnown(polls: seq<Poll>) returns (f: nat)
    requires Dated(polls)
    ensures if polls == [] || polls[|polls| - 1].error.None? then AfterPolls(polls) == UNSET
            else StreakFrom(polls, f) && AfterPolls(polls) == Streak(polls[f].now, polls[|polls| - 1].error)
  {
    f := 0;
    if polls != [] {
      var rest := polls[..|polls| - 1];
      var g := StreakIsKnown(rest);
      f := if rest == [] || rest[|rest| - 1].error.None? then |rest| else g;
    }
  }

  lemma StreakUnique(polls: seq<Poll>, f: nat, g: nat)
    requires StreakFrom(polls, f) && StreakFrom(polls, g)
    ensures f == g
  {
  }

  /**
   The service is reported as unhealthy at the last poll of a history exactly if that poll failed and at least
   the maximum duration has passed since the first failure after the last success.
   */
  lemma ReportedExactly(polls: seq<Poll>, maxUnhealthy: Time)
    requires polls != [] && Dated(polls)
    ensures var n := |polls| - 1;
            Reports(AfterPolls(polls[..n]), polls[n], maxUnhealthy) <==>
              exists f: nat :: StreakFrom(polls, f) && polls[n].now - polls[f].now >= maxUnhealthy
  {
    var f := StreakIsKnown(polls);
    if polls[|polls| - 1].error.Some? {
      forall g: nat | StreakFrom(polls, g) ensures g == f {
        StreakUnique(polls, f, g);
      }
    }
  }

  /** A failure at the zero time does not start a streak: the next failure does. */
  lemma ZeroTimeForgotten(e: Error, later: Time)
    requires later > ZERO_TIME
    ensures AfterPolls([Poll(Some(e), ZERO_TIME), Poll(Some(e), later)]).start == later
  {
    var polls := [Poll(Some(e), ZERO_TIME), Poll(Some(e), later)];
    var first := polls[..1];
    assert first == [polls[0]] && first[..0] == [];
    assert AfterPolls(first) == AfterPoll(AfterPolls(first[..0]), first[0]);
    assert AfterPolls(polls) == AfterPoll(AfterPolls(first), polls[1]);
  }
}
