/**
 `Watchdog.run`: the loop that watches one phase against two deadlines.

 Time is real. What the world does in the k-th turn of the loop is the k-th
 `Turn` of an arbitrary script: whether the phase has ended, how late the wait
 returns, what the log size poll answers and how long it takes.
 */
module Watchdog {
  import opened Wrappers

  const POLL_TIMEOUT: real := 45.0
  const TOLERANCE: real := 0.000001

  /** Seconds; 0 switches a limit off, but the poll interval is positive. */
  datatype Limits = Limits(deadline: real, quiet: real, poll: real) {
    ghost predicate Valid() {
      deadline >= 0.0 && quiet >= 0.0 && poll > 0.0
    }
  }

  datatype Turn = Turn(over: bool, finish: Option<real>, late: real, size: Option<nat>, cost: real)

  type Script = nat -> Turn

  /** The host keeps to its word: a wait is late by at most `jitter`, a poll takes at most its timeout. */
  ghost predicate Honest(script: Script, jitter: real) {
    forall k ::
      && 0.0 <= script(k).late <= jitter
      && 0.0 <= script(k).cost <= POLL_TIMEOUT
      && (script(k).finish.Some? ==> script(k).finish.value >= 0.0)
  }

  datatype Reason = Deadline | NoProgress

  /** Watching turn `turn` at time `at`; `checked` is when the limits were last looked at. */
  datatype State =
    | Watching(turn: nat, at: real, lastSize: Option<nat>, progressAt: real, checked: real)
    | Ended(at: real)
    | Aborting(at: real, reason: Reason, turn: nat, progressAt: real, checked: real)

  function Min(a: real, b: real): real { if a < b then a else b }
  function Max(a: real, b: real): real { if a < b then b else a }

  function Wait(l: Limits, phaseStart: real, at: real, progressAt: real): real {
    var upToDeadline := if l.deadline > 0.0 then Min(l.poll, phaseStart + l.deadline - at) else l.poll;
    Max(0.0, if l.quiet > 0.0 then Min(upToDeadline, progressAt + l.quiet - at) else upToDeadline)
  }

  /** Growth is credited when a size was read and is not the one read before. */
  predicate Credits(l: Limits, lastSize: Option<nat>, turn: Turn) {
    l.quiet > 0.0 && turn.size.Some? && turn.size != lastSize
  }

  function Step(l: Limits, phaseStart: real, script: Script, s: State): State {
    if !s.Watching? then s else
    var turn := script(s.turn);
    var wait := Wait(l, phaseStart, s.at, s.progressAt);
    if turn.over then Ended(s.at)
    else if turn.finish.Some? && turn.finish.value <= wait then Ended(s.at + turn.finish.value)
    else
      var now := s.at + wait + turn.late;
      var after := if l.quiet > 0.0 then now + turn.cost else now;
      var credited := Credits(l, s.lastSize, turn);
      var progressAt := if credited then now else s.progressAt;
      if l.deadline > 0.0 && now - phaseStart >= l.deadline - TOLERANCE then
        Aborting(after, Deadline, s.turn, progressAt, now)
      else if l.quiet > 0.0 && now - progressAt >= l.quiet - TOLERANCE then
        Aborting(after, NoProgress, s.turn, progressAt, now)
      else
        Watching(s.turn + 1, after, if credited then turn.size else s.lastSize, progressAt, now)
  }

  function Begin(at: real): State {
    Watching(0, at, None, at, at)
  }

  /** The state after `n` turns of an attempt that began at `start`. */
  function After(l: Limits, phaseStart: real, script: Script, start: real, n: nat): State {
    if n == 0 then Begin(start) else Step(l, phaseStart, script, After(l, phaseStart, script, start, n - 1))
  }

  /** The loop itself; `n` is any number of turns after which it has ended. */
  method Run(l: Limits, phaseStart: real, script: Script, start: real, ghost n: nat) returns (end: State)
    requires !After(l, phaseStart, script, start, n).Watching?
    ensures end == After(l, phaseStart, script, start, n)
  {
    end := Begin(start);
    ghost var k := 0;
    while end.Watching?
      invariant k <= n && end == After(l, phaseStart, script, start, k)
      decreases n - k
    {
      end := Step(l, phaseStart, script, end);
      k := k + 1;
    }
    Stays(l, phaseStart, script, start, k, n);
  }

  lemma {:induction false} Stays(l: Limits, phaseStart: real, script: Script, start: real, k: nat, n: nat)
    requires k <= n && !After(l, phaseStart, script, start, k).Watching?
    ensures After(l, phaseStart, script, start, n) == After(l, phaseStart, script, start, k)
  {
    if k < n {
      Stays(l, phaseStart, script, start, k, n - 1);
    }
  }

  // ----- the deadline

  /** When the attempt's last turn can start. */
  function LastTurn(l: Limits, phaseStart: real, start: real): real {
    Max(start, phaseStart + l.deadline + (if l.quiet > 0.0 then POLL_TIMEOUT else 0.0))
  }

  lemma {:induction false} WatchingInTime(l: Limits, phaseStart: real, script: Script, start: real, jitter: real,
                                          n: nat)
    requires l.Valid() && l.deadline > 0.0 && Honest(script, jitter)
    requires After(l, phaseStart, script, start, n).Watching?
    ensures var s := After(l, phaseStart, script, start, n);
            start <= s.at <= LastTurn(l, phaseStart, start) && s.turn == n
  {
    if n > 0 {
      WatchingInTime(l, phaseStart, script, start, jitter, n - 1);
      assert 0.0 <= script(n - 1).late && 0.0 <= script(n - 1).cost <= POLL_TIMEOUT;
    }
  }

  /** One turn adds its wait, which does not reach past the deadline, how late that returns, and its poll. */
  lemma TurnInTime(l: Limits, phaseStart: real, script: Script, start: real, jitter: real, s: State)
    requires l.Valid() && l.deadline > 0.0 && Honest(script, jitter) && s.Watching?
    requires s.at <= LastTurn(l, phaseStart, start)
    ensures var t := Step(l, phaseStart, script, s);
            && t.at <= LastTurn(l, phaseStart, start) + jitter + (if l.quiet > 0.0 then POLL_TIMEOUT else 0.0)
            && (t.Ended? ==> t.at <= LastTurn(l, phaseStart, start))
            && (t.Aborting? && t.reason == Deadline ==> t.at >= t.checked >= phaseStart + l.deadline - TOLERANCE)
  {
    assert 0.0 <= script(s.turn).late <= jitter && 0.0 <= script(s.turn).cost <= POLL_TIMEOUT;
    assert s.at + Wait(l, phaseStart, s.at, s.progressAt) <= LastTurn(l, phaseStart, start);
  }

  /**
   A deadline abort begins no earlier than the deadline and, like the phase's end, no
   later than two polls after it (one the last turn waited for, one of its own), plus
   how late a wait may return. Without a log to poll it is on time but for that.
   */
  lemma {:induction false} DeadlineKept(l: Limits, phaseStart: real, script: Script, start: real, jitter: real, n: nat)
    requires l.Valid() && l.deadline > 0.0 && Honest(script, jitter) && jitter >= 0.0
    ensures var s := After(l, phaseStart, script, start, n);
            var poll := if l.quiet > 0.0 then POLL_TIMEOUT else 0.0;
            && s.at <= Max(start, phaseStart + l.deadline + poll) + jitter + poll
            && (s.Ended? ==> s.at <= Max(start, phaseStart + l.deadline + poll))
            && (s.Aborting? && s.reason == Deadline ==> s.at >= s.checked >= phaseStart + l.deadline - TOLERANCE)
  {
    if n > 0 {
      var before := After(l, phaseStart, script, start, n - 1);
      if before.Watching? {
        WatchingInTime(l, phaseStart, script, start, jitter, n - 1);
        TurnInTime(l, phaseStart, script, start, jitter, before);
      } else {
        DeadlineKept(l, phaseStart, script, start, jitter, n - 1);
      }
    }
  }

  /** A phase run twice is bounded like one run once: the second attempt counts from the phase's start. */
  lemma {:induction false} TwoAttempts(l: Limits, phaseStart: real, first: Script, second: Script, jitter: real,
                                       n: nat, m: nat)
    requires l.Valid() && l.deadline > 0.0 && Honest(first, jitter) && Honest(second, jitter) && jitter >= 0.0
    requires After(l, phaseStart, first, phaseStart, n).Ended?
    ensures After(l, phaseStart, second, After(l, phaseStart, first, phaseStart, n).at, m).at
         <= phaseStart + l.deadline + 2.0 * POLL_TIMEOUT + jitter
  {
    DeadlineKept(l, phaseStart, first, phaseStart, jitter, n);
    DeadlineKept(l, phaseStart, second, After(l, phaseStart, first, phaseStart, n).at, jitter, m);
  }

  // ----- the no-progress limit

  /** When turn `j` looked at the limits. */
  function CheckTime(l: Limits, phaseStart: real, script: Script, start: real, j: nat): real
    requires After(l, phaseStart, script, start, j).Watching?
  {
    var s := After(l, phaseStart, script, start, j);
    s.at + Wait(l, phaseStart, s.at, s.progressAt) + script(j).late
  }

  ghost predicate CreditedAt(l: Limits, phaseStart: real, script: Script, start: real, j: nat) {
    var s := After(l, phaseStart, script, start, j);
    s.Watching? && Credits(l, s.lastSize, script(j))
  }

  /** A turn that does not end the phase looks after it waited, and credits growth at that moment. */
  lemma TurnLooks(l: Limits, phaseStart: real, script: Script, jitter: real, s: State)
    requires l.Valid() && Honest(script, jitter) && s.Watching?
    ensures var t := Step(l, phaseStart, script, s);
      var now := s.at + Wait(l, phaseStart, s.at, s.progressAt) + script(s.turn).late;
      !t.Ended? ==>
        && s.at <= now == t.checked <= t.at
        && t.progressAt == (if Credits(l, s.lastSize, script(s.turn)) then now else s.progressAt)
        && (t.Watching? ==> t.turn == s.turn + 1)
  {
    assert 0.0 <= script(s.turn).late && 0.0 <= script(s.turn).cost;
  }

  lemma {:induction false} LastProgress(l: Limits, phaseStart: real, script: Script, start: real, jitter: real, n: nat)
    requires l.Valid() && Honest(script, jitter)
    requires n > 0 ==> After(l, phaseStart, script, start, n - 1).Watching?
    requires !After(l, phaseStart, script, start, n).Ended?
    ensures var s := After(l, phaseStart, script, start, n);
            && start <= s.progressAt <= s.checked <= s.at
            && (s.Watching? ==> s.turn == n)
            && (forall j | 0 <= j < n && CreditedAt(l, phaseStart, script, start, j) ::
                  CheckTime(l, phaseStart, script, start, j) <= s.progressAt)
  {
    if n > 0 {
      LastProgress(l, phaseStart, script, start, jitter, n - 1);
      TurnLooks(l, phaseStart, script, jitter, After(l, phaseStart, script, start, n - 1));
    }
  }

  /** A no-progress abort: for `quiet` seconds before it looked, no growth of the log was credited. */
  lemma NoProgressMeans(l: Limits, phaseStart: real, script: Script, start: real, jitter: real, n: nat)
    requires l.Valid() && Honest(script, jitter) && n > 0
    requires After(l, phaseStart, script, start, n - 1).Watching?
    requires var s := After(l, phaseStart, script, start, n); s.Aborting? && s.reason == NoProgress
    ensures var s := After(l, phaseStart, script, start, n);
            && l.quiet > 0.0 && s.checked - start >= l.quiet - TOLERANCE
            && (l.deadline > 0.0 ==> s.checked < phaseStart + l.deadline - TOLERANCE)
            && forall j | 0 <= j < n && CreditedAt(l, phaseStart, script, start, j) ::
                 CheckTime(l, phaseStart, script, start, j) <= s.checked - (l.quiet - TOLERANCE)
  {
    LastProgress(l, phaseStart, script, start, jitter, n);
  }

  // ----- whether the loop ends

  /** Every attempt comes to an end, whatever the host does. */
  ghost predicate AlwaysEnds(l: Limits, phaseStart: real, start: real) {
    forall script, jitter | Honest(script, jitter) :: exists n :: !After(l, phaseStart, script, start, n).Watching?
  }

  /** Looks at the limits are at least this far apart. */
  function Pace(l: Limits): real {
    Min(l.poll, TOLERANCE)
  }

  /** `n` times the pace. */
  function Paces(l: Limits, n: nat): real {
    if n == 0 then 0.0 else Paces(l, n - 1) + Pace(l)
  }

  /** What holds between two looks at the limits that neither of them ended. */
  ghost predicate Settled(l: Limits, phaseStart: real, s: State) {
    && s.Watching? && s.checked <= s.at && s.checked < phaseStart + l.deadline - TOLERANCE
    && (l.quiet > 0.0 ==> s.checked - s.progressAt < l.quiet - TOLERANCE)
  }

  lemma NextLook(l: Limits, phaseStart: real, script: Script, s: State)
    requires l.Valid() && l.deadline > 0.0 && s.Watching? && s.checked <= s.at
    requires 0.0 <= script(s.turn).late && 0.0 <= script(s.turn).cost
    requires Step(l, phaseStart, script, s).Watching?
    ensures Settled(l, phaseStart, Step(l, phaseStart, script, s))
    ensures Settled(l, phaseStart, s) ==> Step(l, phaseStart, script, s).checked >= s.checked + Pace(l)
    ensures Step(l, phaseStart, script, s).checked >= s.at
  {
  }

  lemma {:induction false} LooksAreApart(l: Limits, phaseStart: real, script: Script, start: real, jitter: real, n: nat)
    requires l.Valid() && l.deadline > 0.0 && Honest(script, jitter) && n > 0
    requires After(l, phaseStart, script, start, n).Watching?
    ensures Settled(l, phaseStart, After(l, phaseStart, script, start, n))
    ensures After(l, phaseStart, script, start, n).checked >= start + Paces(l, n - 1)
    ensures After(l, phaseStart, script, start, n).turn == n
    decreases n
  {
    var before := After(l, phaseStart, script, start, n - 1);
    if n > 1 {
      LooksAreApart(l, phaseStart, script, start, jitter, n - 1);
    }
    assert 0.0 <= script(n - 1).late && 0.0 <= script(n - 1).cost;
    NextLook(l, phaseStart, script, before);
  }

  /** Enough turns to pass any stretch of time. */
  lemma EnoughPaces(l: Limits, stretch: real) returns (n: nat)
    requires l.Valid()
    ensures Paces(l, n) >= stretch
  {
    n := 0;
    if stretch > 0.0 {
      n := (stretch / Pace(l)).Floor + 1;
      PacesMultiply(l, n);
      Covers(stretch, Pace(l), n as real);
    }
  }

  lemma Covers(stretch: real, pace: real, n: real)
    requires pace > 0.0 && n >= stretch / pace
    ensures n * pace >= stretch
  {
    var exact := stretch / pace;
    assert exact * pace == stretch;
    assert (n - exact) * pace >= 0.0;
    assert n * pace == (n - exact) * pace + exact * pace;
  }

  lemma {:induction false} PacesMultiply(l: Limits, n: nat)
    ensures Paces(l, n) == n as real * Pace(l)
  {
    if n > 0 {
      PacesMultiply(l, n - 1);
      assert n as real * Pace(l) == (n - 1) as real * Pace(l) + Pace(l);
    }
  }

  /** With a deadline the loop ends within a number of turns known beforehand. */
  lemma EndsByDeadline(l: Limits, phaseStart: real, script: Script, start: real, jitter: real, n: nat)
    requires l.Valid() && l.deadline > 0.0 && Honest(script, jitter) && n > 0
    requires Paces(l, n - 1) >= phaseStart + l.deadline - start
    ensures !After(l, phaseStart, script, start, n).Watching?
  {
    if After(l, phaseStart, script, start, n).Watching? {
      LooksAreApart(l, phaseStart, script, start, jitter, n);
    }
  }

  lemma {:induction false} EndsAtOnce(l: Limits, phaseStart: real, script: Script, start: real, jitter: real)
    requires l.Valid() && 0.0 < l.quiet <= TOLERANCE && Honest(script, jitter)
    ensures !After(l, phaseStart, script, start, 1).Watching?
  {
    var first: nat := 0;
    assert 0.0 <= script(first).late;
    assert After(l, phaseStart, script, start, 0) == Begin(start);
  }

  /** A phase that never ends and whose log grows at every poll. */
  function Endless(): Script {
    (k: nat) => Turn(false, None, 0.0, Some(k), 0.0)
  }

  lemma {:induction false} EndlessGoesOn(l: Limits, phaseStart: real, start: real, n: nat)
    requires l.Valid() && l.deadline == 0.0 && (l.quiet == 0.0 || l.quiet > TOLERANCE)
    ensures var s := After(l, phaseStart, Endless(), start, n);
            s.Watching? && s.turn == n && (s.lastSize.Some? ==> s.lastSize.value < n)
  {
    if n > 0 {
      EndlessGoesOn(l, phaseStart, start, n - 1);
    }
  }

  /**
   The loop is sure to end exactly when a deadline is set, or a no-progress limit so
   short that the first look breaches it. With the deadline switched off nothing
   bounds a phase that hangs while its log grows, or one that has no log.
   */
  lemma EndsIff(l: Limits, phaseStart: real, start: real)
    requires l.Valid()
    ensures AlwaysEnds(l, phaseStart, start) <==> l.deadline > 0.0 || 0.0 < l.quiet <= TOLERANCE
  {
    if l.deadline > 0.0 {
      forall script, jitter | Honest(script, jitter)
        ensures exists n :: !After(l, phaseStart, script, start, n).Watching?
      {
        var n := EnoughPaces(l, phaseStart + l.deadline - start);
        EndsByDeadline(l, phaseStart, script, start, jitter, n + 1);
      }
    } else if 0.0 < l.quiet <= TOLERANCE {
      forall script, jitter | Honest(script, jitter)
        ensures exists n :: !After(l, phaseStart, script, start, n).Watching?
      {
        EndsAtOnce(l, phaseStart, script, start, jitter);
      }
    } else {
      assert Honest(Endless(), 0.0);
      forall n: nat ensures After(l, phaseStart, Endless(), start, n).Watching? {
        EndlessGoesOn(l, phaseStart, start, n);
      }
    }
  }
}
