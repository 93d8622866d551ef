/**
 `publish_crates.py`: the resumable walk over the publish order.

 The `Runner` is the world: the registry, cargo and the clock. Its answers are
 arbitrary, so every contract here holds for every registry. Each run writes a log
 of what it did; a run that is killed leaves a prefix of such a log.
 */
module Publisher {
  import opened Wrappers

  const PUBLISHED := 200
  const ABSENT := 404
  const INDEX_POLL_SECONDS: real := 10.0

  datatype Crate = Crate(name: string, version: string)

  datatype Event =
    | Probed(crate: Crate, status: int)
    | PublishStarted(crate: Crate)
    | PublishEnded(crate: Crate, code: int, rateLimited: bool)
    | Slept(seconds: real)

  datatype Failure = NoPlan | OddStatus(crate: Crate, status: int) | PublishFailed(crate: Crate)
                   | StillRefused(crate: Crate) | NeverVisible(crate: Crate) | BadSleep

  datatype Outcome = Finished(published: nat, present: nat) | Stopped(failure: Failure)

  class Runner {
    var clock: real
    ghost var log: seq<Event>

    constructor ()
      ensures log == []
    {
      clock, log := 0.0, [];
    }

    /** An HTTP status, or 0 when nothing answered; it takes some time. */
    method Probe(crate: Crate) returns (status: int)
      modifies this
      ensures log == old(log) + [Probed(crate, status)] && clock >= old(clock)
    {
      status := *;
      var took: real :| took >= 0.0;
      clock := clock + took;
      log := log + [Probed(crate, status)];
    }

    method CargoPublish(crate: Crate) returns (code: int, rateLimited: bool)
      modifies this
      ensures log == old(log) + [PublishStarted(crate), PublishEnded(crate, code, rateLimited)] && clock >= old(clock)
    {
      code, rateLimited := *, *;
      var took: real :| took >= 0.0;
      clock := clock + took;
      log := log + [PublishStarted(crate), PublishEnded(crate, code, rateLimited)];
    }

    /** Sleeps at least as long as asked; a negative time is refused by raising. */
    method Sleep(seconds: real) returns (ok: bool)
      modifies this
      ensures ok <==> seconds >= 0.0
      ensures ok ==> log == old(log) + [Slept(seconds)] && clock >= old(clock) + seconds
      ensures !ok ==> log == old(log) && clock == old(clock)
    {
      ok := seconds >= 0.0;
      if ok {
        var over: real :| over >= 0.0;
        clock := clock + seconds + over;
        log := log + [Slept(seconds)];
      }
    }
  }

  // ----- what a log must keep to

  ghost predicate Seen(crates: seq<Crate>, run: seq<Event>) {
    forall c | c in crates :: Probed(c, PUBLISHED) in run
  }

  /** The last answer before event `i` was that `crate` is absent. */
  ghost predicate FoundAbsent(run: seq<Event>, i: nat, crate: Crate)
    requires i <= |run|
  {
    exists j :: 0 <= j < i && run[j] == Probed(crate, ABSENT) && forall m | j < m < i :: !run[m].Probed?
  }

  /** A publish starts only for a crate just found absent, with all before it in the plan seen. */
  ghost predicate Allowed(plan: seq<Crate>, run: seq<Event>, i: nat)
    requires i < |run| && run[i].PublishStarted?
  {
    && FoundAbsent(run, i, run[i].crate)
    && exists p :: 0 <= p < |plan| && plan[p] == run[i].crate && Seen(plan[..p], run[..i])
  }

  ghost predicate Disciplined(plan: seq<Crate>, run: seq<Event>) {
    forall i | 0 <= i < |run| && run[i].PublishStarted? :: Allowed(plan, run, i)
  }

  /** Stopping a run anywhere leaves a log that keeps to the same rules. */
  lemma {:induction false} PrefixDisciplined(plan: seq<Crate>, run: seq<Event>, k: nat)
    requires Disciplined(plan, run) && k <= |run|
    ensures Disciplined(plan, run[..k])
  {
    var cut := run[..k];
    forall i | 0 <= i < |cut| && cut[i].PublishStarted? ensures Allowed(plan, cut, i) {
      assert Allowed(plan, run, i);
      assert cut[..i] == run[..i];
      var j :| 0 <= j < i && run[j] == Probed(run[i].crate, ABSENT) && forall m | j < m < i :: !run[m].Probed?;
      assert cut[j] == run[j];
    }
  }

  /** Events after the end of a log do not make an earlier publish less allowed. */
  lemma AppendDisciplined(plan: seq<Crate>, run: seq<Event>, more: seq<Event>)
    requires Disciplined(plan, run)
    requires forall i | |run| <= i < |run + more| && (run + more)[i].PublishStarted? :: Allowed(plan, run + more, i)
    ensures Disciplined(plan, run + more)
  {
    var all := run + more;
    forall i | 0 <= i < |all| && all[i].PublishStarted? ensures Allowed(plan, all, i) {
      if i < |run| {
        assert Allowed(plan, run, i);
        assert all[..i] == run[..i] && all[i] == run[i];
        var j :| 0 <= j < i && run[j] == Probed(run[i].crate, ABSENT) && forall m | j < m < i :: !run[m].Probed?;
        assert all[j] == run[j];
      }
    }
  }

  // ----- any number of runs

  function Flatten(runs: seq<seq<Event>>): seq<Event> {
    if runs == [] then [] else runs[0] + Flatten(runs[1..])
  }

  /** The registry never answers that a version is absent once it has shown it. */
  ghost predicate NeverForgets(history: seq<Event>) {
    forall i, j | 0 <= i < j < |history| && history[i].Probed? && history[i].status == PUBLISHED ::
      history[j] != Probed(history[i].crate, ABSENT)
  }

  ghost predicate Careful(run: seq<Event>) {
    forall k | 0 <= k < |run| && run[k].PublishStarted? :: FoundAbsent(run, k, run[k].crate)
  }

  lemma {:induction false} HistoryFoundAbsent(runs: seq<seq<Event>>, i: nat)
    requires forall run | run in runs :: Careful(run)
    requires i < |Flatten(runs)| && Flatten(runs)[i].PublishStarted?
    ensures FoundAbsent(Flatten(runs), i, Flatten(runs)[i].crate)
  {
    var head, rest := runs[0], Flatten(runs[1..]);
    var history := head + rest;
    var crate := history[i].crate;
    if i < |head| {
      assert Careful(head) && head[i] == history[i];
      var j :| 0 <= j < i && head[j] == Probed(crate, ABSENT) && forall m | j < m < i :: !head[m].Probed?;
      assert history[j] == head[j];
      assert forall m | j < m < i :: history[m] == head[m];
    } else {
      HistoryFoundAbsent(runs[1..], i - |head|);
      var j :| 0 <= j < i - |head| && rest[j] == Probed(crate, ABSENT)
        && forall m | j < m < i - |head| :: !rest[m].Probed?;
      assert history[|head| + j] == rest[j];
      forall m | |head| + j < m < i ensures !history[m].Probed? {
        assert history[m] == rest[m - |head|];
      }
    }
  }

  /** With such a registry a version once seen is never published again, by any run, however earlier ones ended. */
  lemma SeenIsNeverPublished(plans: seq<seq<Crate>>, runs: seq<seq<Event>>, i: nat, k: nat)
    requires |plans| == |runs| && forall r | 0 <= r < |runs| :: Disciplined(plans[r], runs[r])
    requires NeverForgets(Flatten(runs)) && i < k < |Flatten(runs)|
    requires Flatten(runs)[i].Probed? && Flatten(runs)[i].status == PUBLISHED
    ensures Flatten(runs)[k] != PublishStarted(Flatten(runs)[i].crate)
  {
    var history := Flatten(runs);
    var crate := history[i].crate;
    if history[k] == PublishStarted(crate) {
      forall run: seq<Event> | run in runs ensures Careful(run) {
        var r :| 0 <= r < |runs| && runs[r] == run;
        forall m | 0 <= m < |run| && run[m].PublishStarted? ensures FoundAbsent(run, m, run[m].crate) {
          assert Allowed(plans[r], run, m);
        }
      }
      HistoryFoundAbsent(runs, k);
    }
  }

  // ----- the publisher

  /** The events of publishing one crate: nothing but its publishes and at most one wait. */
  ghost predicate Attempt(part: seq<Event>, crate: Crate, wait: real) {
    && (forall e | e in part :: e == PublishStarted(crate) || (e.PublishEnded? && e.crate == crate) || e == Slept(wait))
    && multiset(part)[PublishStarted(crate)] <= 2
    && multiset(part)[Slept(wait)] <= 1
  }

  /** Waiting for the index: probes of the crate and short sleeps, adding up to less than the limit and one sleep. */
  ghost predicate Polling(part: seq<Event>, crate: Crate, timeout: real) {
    && (forall e | e in part :: (e.Probed? && e.crate == crate) || e == Slept(INDEX_POLL_SECONDS))
    && (timeout >= 0.0 ==>
          multiset(part)[Slept(INDEX_POLL_SECONDS)] as real * INDEX_POLL_SECONDS < timeout + INDEX_POLL_SECONDS)
  }

  /** How many sleeps a timeout leaves room for. */
  function Room(timeout: real): nat {
    if timeout <= 0.0 then 0 else (timeout / INDEX_POLL_SECONDS).Floor + 1
  }

  class Publisher {
    const runner: Runner
    const dryRun: bool
    const waitSeconds: real
    const indexTimeout: real
    var waits: nat

    constructor (runner: Runner, dryRun: bool, waitSeconds: real, indexTimeout: real)
      ensures this.runner == runner && this.dryRun == dryRun && waits == 0
      ensures this.waitSeconds == waitSeconds && this.indexTimeout == indexTimeout
    {
      this.runner, this.dryRun, this.waitSeconds, this.indexTimeout := runner, dryRun, waitSeconds, indexTimeout;
      waits := 0;
    }

    method IsPublished(crate: Crate) returns (r: Result<bool, Failure>, ghost status: int)
      modifies runner
      ensures runner.log == old(runner.log) + [Probed(crate, status)]
      ensures r == if status == PUBLISHED then Ok(true)
                   else if status == ABSENT then Ok(false)
                   else Err(OddStatus(crate, status))
    {
      var answer := runner.Probe(crate);
      status := answer;
      r := if answer == PUBLISHED then Ok(true)
           else if answer == ABSENT then Ok(false)
           else Err(OddStatus(crate, answer));
    }

    /** At most two publishes with at most one wait between them. */
    method PublishOne(crate: Crate) returns (r: Option<Failure>, ghost part: seq<Event>)
      modifies this`waits, runner
      ensures runner.log == old(runner.log) + part && Attempt(part, crate, waitSeconds)
      ensures old(waits) <= waits <= old(waits) + 1
      ensures r.None? ==> part != [] && part[|part| - 1].PublishEnded? && part[|part| - 1].code == 0
    {
      part := [];
      var waited := false;
      while true
        invariant runner.log == old(runner.log) + part
        invariant forall e | e in part ::
          e == PublishStarted(crate) || (e.PublishEnded? && e.crate == crate) || e == Slept(waitSeconds)
        invariant multiset(part)[PublishStarted(crate)] == (if waited then 1 else 0)
        invariant multiset(part)[Slept(waitSeconds)] == (if waited then 1 else 0)
        invariant waits == old(waits) + if waited then 1 else 0
        decreases !waited
      {
        var code, rateLimited := runner.CargoPublish(crate);
        part := part + [PublishStarted(crate), PublishEnded(crate, code, rateLimited)];
        if code == 0 {
          return None, part;
        }
        if !rateLimited {
          return Some(PublishFailed(crate)), part;
        }
        if waited {
          return Some(StillRefused(crate)), part;
        }
        waited := true;
        waits := waits + 1;
        var slept := runner.Sleep(waitSeconds);
        if !slept {
          return Some(BadSleep), part;
        }
        part := part + [Slept(waitSeconds)];
      }
    }

    /** Polls until the version shows or the limit passes. */
    method WaitForIndex(crate: Crate) returns (r: Option<Failure>, ghost part: seq<Event>)
      modifies runner
      ensures runner.log == old(runner.log) + part && Polling(part, crate, indexTimeout)
      ensures r.None? ==> Probed(crate, PUBLISHED) in part
    {
      part := [];
      var start := runner.clock;
      ghost var sleeps: nat := 0;
      while true
        invariant runner.log == old(runner.log) + part
        invariant forall e | e in part :: (e.Probed? && e.crate == crate) || e == Slept(INDEX_POLL_SECONDS)
        invariant sleeps == multiset(part)[Slept(INDEX_POLL_SECONDS)] && sleeps <= Room(indexTimeout)
        invariant runner.clock - start >= sleeps as real * INDEX_POLL_SECONDS
        invariant indexTimeout >= 0.0 ==> sleeps as real * INDEX_POLL_SECONDS < indexTimeout + INDEX_POLL_SECONDS
        decreases Room(indexTimeout) - sleeps
      {
        var status := runner.Probe(crate);
        part := part + [Probed(crate, status)];
        var elapsed := runner.clock - start;
        if status == PUBLISHED {
          return None, part;
        }
        if elapsed >= indexTimeout {
          return Some(NeverVisible(crate)), part;
        }
        var _ := runner.Sleep(INDEX_POLL_SECONDS);
        MoreRoom(indexTimeout, sleeps);
        part, sleeps := part + [Slept(INDEX_POLL_SECONDS)], sleeps + 1;
      }
    }

    /** One crate of the walk. */
    method Step(plan: seq<Crate>, p: nat, ghost run: seq<Event>)
      returns (r: Result<bool, Failure>, ghost part: seq<Event>)
      requires p < |plan| && Disciplined(plan, run) && (dryRun || Seen(plan[..p], run))
      modifies this`waits, runner
      ensures runner.log == old(runner.log) + part && Disciplined(plan, run + part)
      ensures r.Ok? && !dryRun ==> Probed(plan[p], PUBLISHED) in part
      ensures dryRun ==> forall e | e in part :: !e.PublishStarted?
      ensures forall c :: multiset(part)[PublishStarted(c)] <= if c == plan[p] then 2 else 0
      ensures old(waits) <= waits <= old(waits) + if r == Ok(false) then 0 else 1
    {
      ghost var status;
      var present;
      present, status := IsPublished(plan[p]);
      part := [Probed(plan[p], status)];
      AppendDisciplined(plan, run, part);
      match present
      case Err(e) => r := Err(e);
      case Ok(true) => r := Ok(false);
      case Ok(false) =>
        r := Ok(true);
        if !dryRun {
          ghost var attempt, polling;
          var failed;
          failed, attempt := PublishOne(plan[p]);
          AttemptDisciplined(plan, p, run, attempt, waitSeconds);
          part := part + attempt;
          assert run + [Probed(plan[p], status)] + attempt == run + part;
          if failed.None? {
            failed, polling := WaitForIndex(plan[p]);
            AppendDisciplined(plan, run + part, polling);
            assert run + part + polling == run + (part + polling);
            part := part + polling;
          }
          if failed.Some? {
            r := Err(failed.value);
          }
        }
    }

    /** The walk over the publish order. */
    method Run(plan: seq<Crate>) returns (r: Outcome, ghost run: seq<Event>)
      modifies this`waits, runner
      ensures runner.log == old(runner.log) + run && Disciplined(plan, run)
      ensures r.Finished? ==>
        r.published + r.present == |plan| && waits <= old(waits) + r.published && (!dryRun ==> Seen(plan, run))
      ensures dryRun ==> forall e | e in run :: !e.PublishStarted?
      ensures Sparing(plan, run)
      ensures old(waits) <= waits <= old(waits) + |plan|
    {
      run := [];
      var published, present := 0, 0;
      for p := 0 to |plan|
        invariant runner.log == old(runner.log) + run && Disciplined(plan, run)
        invariant published + present == p && published >= 0 && present >= 0
        invariant dryRun || Seen(plan[..p], run)
        invariant dryRun ==> forall e | e in run :: !e.PublishStarted?
        invariant Sparing(plan[..p], run)
        invariant old(waits) <= waits <= old(waits) + published
      {
        ghost var part;
        var step;
        step, part := Step(plan, p, run);
        MoreSparing(plan, p, run, part);
        if step.Ok? {
          SeenMore(plan, p, run, part, dryRun);
        }
        run := run + part;
        if step.Err? {
          return Stopped(step.error), run;
        }
        if step.value {
          published := published + 1;
        } else {
          present := present + 1;
        }
      }
      assert plan[..|plan|] == plan;
      r := Finished(published, present);
    }
  }

  /** At most two publishes start for each time a crate is planned. */
  ghost predicate Sparing(plan: seq<Crate>, run: seq<Event>) {
    forall c :: multiset(run)[PublishStarted(c)] <= 2 * multiset(plan)[c]
  }

  lemma MoreSparing(plan: seq<Crate>, p: nat, run: seq<Event>, part: seq<Event>)
    requires p < |plan| && Sparing(plan[..p], run)
    requires forall c :: multiset(part)[PublishStarted(c)] <= if c == plan[p] then 2 else 0
    ensures Sparing(plan[..p + 1], run + part) && Sparing(plan, run + part)
  {
    assert plan[..p + 1] == plan[..p] + [plan[p]];
    assert plan == plan[..p + 1] + plan[p + 1..];
  }

  lemma SeenMore(plan: seq<Crate>, p: nat, run: seq<Event>, part: seq<Event>, dryRun: bool)
    requires p < |plan| && (dryRun || (Seen(plan[..p], run) && Probed(plan[p], PUBLISHED) in part))
    ensures dryRun || Seen(plan[..p + 1], run + part)
  {
    assert plan[..p + 1] == plan[..p] + [plan[p]];
  }

  lemma AttemptDisciplined(plan: seq<Crate>, p: nat, run: seq<Event>, attempt: seq<Event>, wait: real)
    requires p < |plan| && Disciplined(plan, run + [Probed(plan[p], ABSENT)]) && Seen(plan[..p], run)
    requires Attempt(attempt, plan[p], wait)
    ensures Disciplined(plan, run + [Probed(plan[p], ABSENT)] + attempt)
  {
    var before := run + [Probed(plan[p], ABSENT)];
    var all := before + attempt;
    forall i | |before| <= i < |all| && all[i].PublishStarted? ensures Allowed(plan, all, i) {
      assert all[i] == attempt[i - |before|];
      assert all[|run|] == Probed(plan[p], ABSENT);
      forall m | |run| < m < i ensures !all[m].Probed? {
        assert all[m] == attempt[m - |before|];
      }
      assert run <= all[..i];
    }
    AppendDisciplined(plan, before, attempt);
  }

  lemma MoreRoom(timeout: real, sleeps: nat)
    requires sleeps as real * INDEX_POLL_SECONDS < timeout
    ensures sleeps < Room(timeout)
  {
    assert sleeps as real < timeout / INDEX_POLL_SECONDS;
  }
}
