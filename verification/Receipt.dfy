/** The watchdog's kill, and the receipt of a run: `kill`, `run_entry`, `record_abort`, `execute`. */
module Receipt {
  import opened Wrappers

  const KILL_ROUNDS := 3
  const EXIT_TIMEOUT := 124

  // ----- ending the processes and proving it

  datatype Process = Process(pid: int, started: string)

  /** The process a run was started as; not `valid` where another one has its number by now. */
  datatype Root = Root(pid: int, started: string, valid: bool)

  datatype Evidence = Evidence(root: Option<Root>, tree: seq<Process>)

  /** One check that processes ended: which were asked about, and which were alive, if it answered. */
  datatype Check = Check(asked: seq<Process>, alive: Option<seq<Process>>)

  /** `survivors` is `None` when nothing could be proved. */
  datatype Kill = Kill(refused: bool, survivors: Option<seq<Process>>)

  /** Some check that answered reported `p` as not alive. */
  ghost predicate ReportedGone(checks: seq<Check>, p: Process) {
    exists c :: c in checks && p in c.asked && c.alive.Some? && p !in c.alive.value
  }

  class Host {
    ghost var checks: seq<Check>

    constructor ()
      ensures checks == []
    {
      checks := [];
    }

    /** Asks which of the processes are alive; the call may not answer, and any reply is allowed for. */
    method Alive(asked: seq<Process>) returns (alive: Option<seq<Process>>)
      modifies this
      ensures checks == old(checks) + [Check(asked, alive)]
    {
      alive := *;
      checks := checks + [Check(asked, alive)];
    }

    /**
     No survivor is reported only when a check that answered found each recorded process
     gone; at most one check and KILL_ROUNDS rounds are made, and none without a valid root.
     */
    method KillTree(found: Evidence) returns (kill: Kill, ghost made: seq<Check>)
      modifies this
      ensures checks == old(checks) + made && |made| <= 1 + KILL_ROUNDS
      ensures kill.refused <==> found.root.None? || !found.root.value.valid || found.tree == []
      ensures kill.refused ==> made == [] && kill.survivors == None
      ensures kill.survivors == Some([]) ==> forall p | p in found.tree :: ReportedGone(made, p)
      ensures kill.survivors.Some? ==> forall p | p in found.tree :: p in kill.survivors.value || ReportedGone(made, p)
      ensures kill.survivors.Some? && kill.survivors.value != [] ==> |made| == 1 + KILL_ROUNDS
    {
      made := [];
      if found.root.None? || !found.root.value.valid || found.tree == [] {
        return Kill(true, None), made;
      }
      var alive := Alive(found.tree);
      made := [Check(found.tree, alive)];
      for round := 0 to KILL_ROUNDS
        invariant checks == old(checks) + made && 1 <= |made| <= 1 + round
        invariant alive.Some? ==> forall p | p in found.tree :: p in alive.value || ReportedGone(made, p)
        invariant alive.Some? && alive.value != [] ==> |made| == 1 + round
      {
        if alive.None? || alive.value == [] {
          break;
        }
        ghost var asked := alive.value;
        alive := Alive(alive.value);
        ghost var more := made + [Check(asked, alive)];
        forall p | p in found.tree && alive.Some? ensures p in alive.value || ReportedGone(more, p) {
          if ReportedGone(made, p) {
            var c :| c in made && p in c.asked && c.alive.Some? && p !in c.alive.value;
            assert c in more;
          } else {
            assert Check(asked, alive) in more;
          }
        }
        made := more;
      }
      kill := Kill(false, alive);
    }
  }

  // ----- judging one run of a phase

  const STAGE := "stage"
  const HOSTED_LIKE := "hosted-like"
  const INTEGRATION_TARGETS := 6

  /** What the hosted-like phase printed; `gaps` are the names whose failure the host explains. */
  datatype Report = Report(
    library: int, names: seq<string>, gaps: set<string>, failed: int,
    integrationExit: int, integrationResults: Option<int>, crlf: bool, blocked: seq<string>)

  /** A phase that ended: its exit status, whether its output names a blocked program, and its report. */
  datatype Reply = Reply(exit: int, namesBlock: bool, report: Report)

  /** One run of a phase under the watchdog: it ended, the watchdog stopped it, or calling the host raised. */
  datatype Run =
    | Ended(phase: string, reply: Reply)
    | Stopped(phase: string, found: Evidence, kill: Kill)
    | Raised(phase: string)

  datatype Facts = Facts(gaps: seq<string>, failures: seq<string>, passed: bool, lineEndingFailure: bool)

  function Keep(names: seq<string>, chosen: set<string>): (kept: seq<string>) {
    if names == [] then []
    else (if names[0] in chosen then [names[0]] else []) + Keep(names[1..], chosen)
  }

  function Drop(names: seq<string>, chosen: set<string>): (kept: seq<string>) {
    if names == [] then []
    else (if names[0] in chosen then [] else [names[0]]) + Drop(names[1..], chosen)
  }

  function JudgeHostedLike(reply: Reply, requireCrlf: bool): (facts: Facts) {
    var report := reply.report;
    var gaps := Keep(report.names, report.gaps);
    var failures := Drop(report.names, report.gaps);
    var integrationRan := report.integrationExit == 0 || report.integrationResults == Some(INTEGRATION_TARGETS);
    var passed :=
      && report.library > 0
      && (reply.exit == 0 || (gaps != [] && failures == [] && report.failed == |gaps| && integrationRan));
    var lineEndingFailure := requireCrlf && !report.crlf;
    Facts(gaps, failures, passed && !lineEndingFailure, lineEndingFailure)
  }

  /** Whether a failed run is run once more: the host's block is all that failed. */
  predicate BlockedRetry(phase: string, reply: Reply, requireCrlf: bool) {
    if reply.exit == 0 then false
    else if phase != HOSTED_LIKE then reply.namesBlock
    else
      var facts := JudgeHostedLike(reply, requireCrlf);
      && reply.report.blocked != []
      && !facts.passed && facts.failures == [] && reply.report.failed == |facts.gaps|
      && !facts.lineEndingFailure
  }

  /** The verdict a run deserves by itself; a stopped run never passes. */
  predicate Passes(run: Run, requireCrlf: bool) {
    && run.Ended?
    && (if run.phase == HOSTED_LIKE then JudgeHostedLike(run.reply, requireCrlf).passed else run.reply.exit == 0)
  }

  /** A test that failed for no reason of the host's. */
  predicate Broken(run: Run) {
    && run.Ended? && run.phase == HOSTED_LIKE && run.reply.exit != 0
    && exists n :: n in run.reply.report.names && n !in run.reply.report.gaps
  }

  lemma {:induction false} Dropped(names: seq<string>, chosen: set<string>, n: string)
    ensures n in Drop(names, chosen) <==> n in names && n !in chosen
  {
    if names != [] {
      Dropped(names[1..], chosen, n);
    }
  }

  lemma {:induction false} AllKept(names: seq<string>, chosen: set<string>)
    ensures Drop(names, chosen) == [] <==> forall n | n in names :: n in chosen
    ensures |Keep(names, chosen)| + |Drop(names, chosen)| == |names|
  {
    if names != [] {
      AllKept(names[1..], chosen);
      assert forall n | n in names :: n == names[0] || n in names[1..];
    }
  }

  /** What a passing hosted-like run has shown, whatever its exit status. */
  lemma HostedLikePasses(reply: Reply, requireCrlf: bool)
    ensures var report := reply.report;
      Passes(Ended(HOSTED_LIKE, reply), requireCrlf) <==>
        && report.library > 0 && (requireCrlf ==> report.crlf)
        && (reply.exit != 0 ==>
              && report.names != [] && (forall n | n in report.names :: n in report.gaps)
              && report.failed == |report.names|
              && (report.integrationExit == 0 || report.integrationResults == Some(INTEGRATION_TARGETS)))
  {
    AllKept(reply.report.names, reply.report.gaps);
  }

  /** A broken test is neither passed over nor given a second chance. */
  lemma BrokenFails(run: Run, requireCrlf: bool)
    requires Broken(run)
    ensures !Passes(run, requireCrlf)
    ensures !BlockedRetry(run.phase, run.reply, requireCrlf)
  {
    var n :| n in run.reply.report.names && n !in run.reply.report.gaps;
    Dropped(run.reply.report.names, run.reply.report.gaps, n);
  }

  // ----- the receipt

  /** A receipt's entry; without a verdict of its own, its exit status decides. */
  datatype Entry = Entry(shape: string, exit: Option<int>, passed: Option<bool>, attempts: seq<Option<int>>) {
    predicate Passed() {
      if passed.Some? then passed.value else exit == Some(0)
    }
  }

  /** `ended` is the receipt's `remote_processes_ended`. */
  datatype Abort = Abort(phase: string, ended: Option<bool>)

  /** The last run of a phase, among runs. */
  function Final(runs: seq<Run>, phase: string): (last: Option<Run>)
    ensures last.Some? ==> last.value in runs && last.value.phase == phase
    ensures last.None? ==> forall r | r in runs :: r.phase != phase
  {
    if runs == [] then None
    else if runs[|runs| - 1].phase == phase then Some(runs[|runs| - 1])
    else Final(runs[..|runs| - 1], phase)
  }

  predicate Settled(runs: seq<Run>, phase: string, requireCrlf: bool) {
    Final(runs, phase).Some? && Passes(Final(runs, phase).value, requireCrlf)
  }

  /** A run that is not its phase's last is a retried one, and the next run is its phase's last. */
  ghost predicate RetriesAreBlocks(runs: seq<Run>, requireCrlf: bool) {
    forall i, j | 0 <= i < j < |runs| && runs[i].phase == runs[j].phase ::
      && j == i + 1 && runs[i].Ended?
      && BlockedRetry(runs[i].phase, runs[i].reply, requireCrlf)
  }

  /** An entry has the exit status of each attempt, and the last one's as its own. */
  predicate Records(e: Entry, phase: string, attempts: seq<Run>) {
    && e.shape == phase && attempts != [] && |e.attempts| == |attempts|
    && (forall i | 0 <= i < |attempts| :: attempts[i].Ended? && e.attempts[i] == Some(attempts[i].reply.exit))
    && e.exit == e.attempts[|attempts| - 1]
  }

  class Receipt {
    var shapes: seq<Entry>
    var abort: Option<Abort>
    /** Every run of a phase so far, in order. */
    ghost var runs: seq<Run>

    constructor ()
      ensures shapes == [] && abort == None && runs == []
    {
      shapes, abort, runs := [], None, [];
    }

    predicate Passed()
      reads this
    {
      shapes != [] && forall e | e in shapes :: e.Passed()
    }

    /** One watched run: it ends somehow, raises, or is stopped and its processes are killed. */
    method Watch(host: Host, phase: string) returns (run: Run)
      modifies this`runs, host
      ensures run.phase == phase && runs == old(runs) + [run]
      ensures run.Stopped? && run.kill.survivors == Some([]) ==>
        forall p | p in run.found.tree :: ReportedGone(host.checks, p)
    {
      if * {
        var reply: Reply := *;
        run := Ended(phase, reply);
      } else if * {
        run := Raised(phase);
      } else {
        var found: Evidence := *;
        var kill, made := host.KillTree(found);
        run := Stopped(phase, found, kill);
        forall p | kill.survivors == Some([]) && p in found.tree ensures ReportedGone(host.checks, p) {
          var c :| c in made && p in c.asked && c.alive.Some? && p !in c.alive.value;
          assert c in host.checks;
        }
      }
      runs := runs + [run];
    }

    /** Runs one phase and records its entry; a stopped phase leaves that to `RecordAbort`. */
    method RunEntry(host: Host, phase: string, requireCrlf: bool) returns (last: Run)
      requires forall r | r in runs :: r.phase != phase
      requires RetriesAreBlocks(runs, requireCrlf)
      modifies this`shapes, this`runs, host
      ensures runs == old(runs) + [last] || exists first: Run :: first.Ended? && runs == old(runs) + [first, last]
      ensures forall i | |old(runs)| <= i < |runs| :: runs[i].phase == phase
      ensures RetriesAreBlocks(runs, requireCrlf)
      ensures !last.Ended? ==> shapes == old(shapes)
      ensures last.Ended? ==>
        && |shapes| == |old(shapes)| + 1 && old(shapes) <= shapes
        && Records(shapes[|old(shapes)|], phase, runs[|old(runs)|..])
        && (shapes[|old(shapes)|].Passed() <==> Passes(last, requireCrlf))
      ensures last.Stopped? && last.kill.survivors == Some([]) ==>
        forall p | p in last.found.tree :: ReportedGone(host.checks, p)
    {
      last := Watch(host, phase);
      if !last.Ended? {
        return;
      }
      var attempts := [Some(last.reply.exit)];
      if BlockedRetry(phase, last.reply, requireCrlf) {
        ghost var first := last;
        last := Watch(host, phase);
        assert runs == old(runs) + [first, last];
        if !last.Ended? {
          return;
        }
        attempts := attempts + [Some(last.reply.exit)];
      }
      var passed := if phase == HOSTED_LIKE then Some(JudgeHostedLike(last.reply, requireCrlf).passed) else None;
      shapes := shapes + [Entry(phase, Some(last.reply.exit), passed, attempts)];
    }

    method RecordAbort(phase: string, kill: Kill)
      modifies this`shapes, this`abort
      ensures abort.Some? && abort.value.phase == phase
      ensures abort.value.ended == Some(true) <==> kill.survivors == Some([])
      ensures abort.value.ended == None <==> kill.survivors == None
      ensures shapes == old(shapes) + if phase == STAGE then [] else [Entry(phase, None, Some(false), [None])]
      ensures phase != STAGE ==> !Passed()
    {
      var ended := if kill.survivors.None? then None else Some(kill.survivors.value == []);
      abort := Some(Abort(phase, ended));
      if phase != STAGE {
        var entry := Entry(phase, None, Some(false), [None]);
        shapes := shapes + [entry];
        assert entry in shapes && !entry.Passed();
      }
    }

    /** The check shapes and then the hosted-like phase, each where the options ask for it. */
    static function Plan(checkShapes: bool, hostedLike: bool): (plan: seq<string>)
      ensures forall i, j | 0 <= i < j < |plan| :: plan[i] != plan[j]
      ensures STAGE !in plan
    {
      (if checkShapes then ["ordinary", "transport"] else []) + (if hostedLike then [HOSTED_LIKE] else [])
    }

    /** Runs the planned phases in order, until one does not end by itself. */
    method RunPlan(host: Host, plan: seq<string>, requireCrlf: bool) returns (last: Option<Run>)
      requires shapes == [] && |runs| == 1 && runs[0].phase == STAGE && runs[0].Ended?
      requires STAGE !in plan && forall i, j | 0 <= i < j < |plan| :: plan[i] != plan[j]
      modifies this`shapes, this`runs, host
      ensures old(runs) <= runs && RetriesAreBlocks(runs, requireCrlf)
      ensures last.None? ==> AllRan(plan, requireCrlf)
      ensures last.Some? ==>
        && !last.value.Ended? && runs[|runs| - 1] == last.value && last.value.phase in plan
        && (forall i | 0 <= i < |runs| - 1 :: runs[i].Ended?)
        && (last.value.Stopped? && last.value.kill.survivors == Some([]) ==>
              forall p | p in last.value.found.tree :: ReportedGone(host.checks, p))
    {
      for i := 0 to |plan|
        invariant |shapes| == i && old(runs) <= runs && RetriesAreBlocks(runs, requireCrlf)
        invariant forall r | r in runs :: r.Ended? && (r.phase == STAGE || r.phase in plan[..i])
        invariant forall j | 0 <= j < i :: shapes[j].Passed() <==> Settled(runs, plan[j], requireCrlf)
      {
        ghost var before := runs;
        var run := RunEntry(host, plan[i], requireCrlf);
        if !run.Ended? {
          return Some(run);
        }
        forall j | 0 <= j <= i ensures shapes[j].Passed() <==> Settled(runs, plan[j], requireCrlf) {
          FinalOfMore(before, runs, plan[i], plan[j]);
        }
      }
      return None;
    }

    /** Every planned phase ran to its end, and has an entry that says what its last run deserves. */
    ghost predicate AllRan(plan: seq<string>, requireCrlf: bool)
      reads this
    {
      && (forall r | r in runs :: r.Ended?) && (forall i | 0 <= i < |runs| :: runs[i].Ended?)
      && |shapes| == |plan|
      && forall j | 0 <= j < |plan| :: shapes[j].Passed() <==> Settled(runs, plan[j], requireCrlf)
    }

    /** The planned phases all ended, and each one's last run passes. */
    ghost predicate AllSettled(plan: seq<string>, requireCrlf: bool)
      reads this
    {
      && plan != []
      && (forall r | r in runs :: r.Ended?)
      && forall phase | phase in plan :: Settled(runs, phase, requireCrlf)
    }

    lemma {:induction false} PassedIffSettled(plan: seq<string>, requireCrlf: bool)
      requires AllRan(plan, requireCrlf)
      ensures Passed() <==> AllSettled(plan, requireCrlf)
    {
      if Passed() {
        forall phase | phase in plan ensures Settled(runs, phase, requireCrlf) {
          var j :| 0 <= j < |plan| && plan[j] == phase;
          assert shapes[j] in shapes;
        }
      }
      if AllSettled(plan, requireCrlf) {
        forall j | 0 <= j < |plan| ensures shapes[j].Passed() {
          assert plan[j] in plan;
        }
      }
    }

    /**
     The phases of a run, up to the exit status: 0 exactly when every phase ended by itself and the
     last run of every planned phase passes, EXIT_TIMEOUT exactly when one was stopped, and then
     the receipt does not pass. No receipt is written when staging failed or a call raised.
     */
    method Execute(host: Host, checkShapes: bool, hostedLike: bool, requireCrlf: bool)
      returns (written: bool, exit: int)
      requires shapes == [] && abort == None && runs == []
      modifies this, host
      ensures runs != [] && runs[0].phase == STAGE && RetriesAreBlocks(runs, requireCrlf)
      ensures exit == EXIT_TIMEOUT <==> exists r :: r in runs && r.Stopped?
      ensures exit == EXIT_TIMEOUT <==> abort.Some?
      ensures abort.Some? ==>
        && written && !Passed()
        && runs[|runs| - 1].Stopped? && runs[|runs| - 1].phase == abort.value.phase
        && (abort.value.ended == Some(true) ==>
              forall p | p in runs[|runs| - 1].found.tree :: ReportedGone(host.checks, p))
      ensures !written <==> (runs[0].Ended? && runs[0].reply.exit != 0) || exists r :: r in runs && r.Raised?
      ensures exit == 0 <==> written && AllSettled(Plan(checkShapes, hostedLike), requireCrlf)
      ensures exit == 0 ==> Passed()
      ensures exit in {0, 1, EXIT_TIMEOUT}
    {
      var staged := Watch(host, STAGE);
      assert runs == [staged];
      var last := Some(staged);
      if staged.Ended? {
        if staged.reply.exit != 0 {
          return false, 1;
        }
        last := RunPlan(host, Plan(checkShapes, hostedLike), requireCrlf);
      }
      LastTells(runs);
      if last.Some? && last.value.Raised? {
        return false, 1;
      }
      written := true;
      if last.Some? {
        RecordAbort(last.value.phase, last.value.kill);
        exit := EXIT_TIMEOUT;
      } else {
        PassedIffSettled(Plan(checkShapes, hostedLike), requireCrlf);
        exit := if Passed() then 0 else 1;
      }
    }
  }

  /** Where all runs before the last one ended, the last one tells how the phases went. */
  lemma LastTells(runs: seq<Run>)
    requires runs != [] && forall i | 0 <= i < |runs| - 1 :: runs[i].Ended?
    ensures var last := runs[|runs| - 1];
      && (last.Stopped? <==> exists r :: r in runs && r.Stopped?)
      && (last.Raised? <==> exists r :: r in runs && r.Raised?)
  {
    assert runs[|runs| - 1] in runs;
  }

  /** Further runs of one phase leave every other phase's last run as it was. */
  lemma {:induction false} FinalOfMore(before: seq<Run>, after: seq<Run>, ran: string, phase: string)
    requires before <= after
    requires forall i | |before| <= i < |after| :: after[i].phase == ran
    ensures ran != phase ==> Final(after, phase) == Final(before, phase)
    ensures ran == phase && |before| < |after| ==> Final(after, phase) == Some(after[|after| - 1])
    decreases |after|
  {
    if |before| < |after| {
      FinalOfMore(before, after[..|after| - 1], ran, phase);
    } else {
      assert before == after;
    }
  }

  lemma {:induction false} FinalIsLast(runs: seq<Run>, phase: string) returns (k: nat)
    requires Final(runs, phase).Some?
    ensures k < |runs| && runs[k] == Final(runs, phase).value
    ensures forall i | k < i < |runs| :: runs[i].phase != phase
  {
    if runs[|runs| - 1].phase == phase {
      k := |runs| - 1;
    } else {
      k := FinalIsLast(runs[..|runs| - 1], phase);
    }
  }

  /** Where the hosted-like phase passes in the end, no run of it met a test that the host does not explain. */
  lemma PassedMeansUnbroken(runs: seq<Run>, requireCrlf: bool, i: nat)
    requires RetriesAreBlocks(runs, requireCrlf) && Settled(runs, HOSTED_LIKE, requireCrlf)
    requires i < |runs|
    ensures !Broken(runs[i])
  {
    var k := FinalIsLast(runs, HOSTED_LIKE);
    if Broken(runs[i]) {
      BrokenFails(runs[i], requireCrlf);
    }
  }
}
