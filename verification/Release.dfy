/**
 `release.py`: cutting a release as a state machine over history, working tree and tags.

 A run may stop at any point (a failing gate, a killed process). Between runs the user may
 edit the tree and commit. Tags are keyed by the version they name.
 */
module Release {
  import opened Wrappers

  const RECENT := 200

  /** A crate under `crates/`: the `N` of its `0.0.N`, and the one each of its internal edges asks for. */
  datatype Crate = Crate(version: nat, edges: seq<nat>)

  /** The product version, the Bazel artifact's, gwz-core's internal edges, and the crates. */
  datatype Lines = Lines(product: string, bazel: string, edges: seq<nat>, crates: seq<Crate>)

  datatype Commit = Commit(lines: Lines, subject: string)

  datatype State = State(history: seq<Commit>, tree: Lines, tags: map<string, nat>) {
    predicate Valid() {
      history != [] && forall v | v in tags :: tags[v] < |history|
    }

    function Head(): nat
      requires Valid()
    {
      |history| - 1
    }

    predicate Clean()
      requires Valid()
    {
      tree == history[Head()].lines
    }
  }

  /** The one internal number the crates share, if they do. */
  function Internal(lines: Lines): (line: Option<nat>) {
    if lines.crates != [] && forall c | c in lines.crates :: c.version == lines.crates[0].version
    then Some(lines.crates[0].version)
    else None
  }

  /** What the lockstep gate demands: the crates share a number, and every internal edge asks for it. */
  predicate Lockstep(lines: Lines) {
    && Internal(lines).Some?
    && (forall e | e in lines.edges :: e == Internal(lines).value)
    && forall c | c in lines.crates :: forall e | e in c.edges :: e == Internal(lines).value
  }

  function BumpedEdges(edges: seq<nat>, current: nat, next: nat): (bumped: seq<nat>)
    ensures |bumped| == |edges|
    ensures forall i | 0 <= i < |edges| :: bumped[i] == if edges[i] == current then next else edges[i]
  {
    seq(|edges|, i requires 0 <= i < |edges| => if edges[i] == current then next else edges[i])
  }

  function BumpedCrate(c: Crate, current: nat, next: nat): (bumped: Crate) {
    Crate(if c.version == current then next else c.version, BumpedEdges(c.edges, current, next))
  }

  /** Every version and every edge at `current` moved to `next`. */
  function Bumped(lines: Lines, current: nat, next: nat): (bumped: Lines) {
    lines.(edges := BumpedEdges(lines.edges, current, next),
           crates := seq(|lines.crates|, i requires 0 <= i < |lines.crates| =>
                           BumpedCrate(lines.crates[i], current, next)))
  }

  /** Bumping moves the shared number, and a tree in lockstep stays so. */
  lemma BumpKeepsLockstep(lines: Lines, next: nat)
    requires Internal(lines).Some?
    ensures Internal(Bumped(lines, Internal(lines).value, next)) == Some(next)
    ensures Lockstep(lines) ==> Lockstep(Bumped(lines, Internal(lines).value, next))
  {
    var n := Internal(lines).value;
    var b := Bumped(lines, n, next);
    forall i | 0 <= i < |b.crates| ensures b.crates[i].version == next {
      assert lines.crates[i] in lines.crates;
    }
    if Lockstep(lines) {
      forall c | c in b.crates ensures forall e | e in c.edges :: e == next {
        var i :| 0 <= i < |b.crates| && b.crates[i] == c;
        assert lines.crates[i] in lines.crates;
        forall e | e in c.edges ensures e == next {
          var j :| 0 <= j < |c.edges| && c.edges[j] == e;
          assert lines.crates[i].edges[j] in lines.crates[i].edges;
        }
      }
      forall e | e in b.edges ensures e == next {
        var j :| 0 <= j < |b.edges| && b.edges[j] == e;
        assert lines.edges[j] in lines.edges;
      }
    }
  }

  function Message(version: string): string {
    "chore(release): gwz-core " + version
  }

  predicate Recent(history: seq<Commit>, subject: string) {
    exists i :: 0 <= i < |history| && |history| - RECENT <= i && history[i].subject == subject
  }

  /** The commit a release writes: the product lines at the version, every internal one further. */
  predicate Released(before: Lines, after: Commit, version: string) {
    && Internal(before).Some?
    && after.lines ==
       Bumped(before, Internal(before).value, Internal(before).value + 1).(product := version, bazel := version)
    && after.subject == Message(version)
  }

  // ----- one run, seen from outside

  /** What a run for `version` asks of the repository it starts from. */
  predicate Releasable(s: State, version: string)
    requires s.Valid()
  {
    && s.Clean() && Lockstep(s.tree)
    && (if version in s.tags then s.tags[version] == s.Head() && s.tree.product == version
        else if s.tree.product == version && s.tree.bazel == version then Recent(s.history, Message(version))
        else true)
  }

  predicate Committed(s: State, t: State, version: string)
    requires s.Valid()
  {
    && s.Clean() && version !in s.tags
    && !(s.tree.product == version && s.tree.bazel == version)
    && |t.history| == |s.history| + 1 && s.history <= t.history
    && Released(s.tree, t.history[|s.history|], version)
  }

  /** A run, stopped anywhere or not: one commit and one tag at most, the tag only at the last commit. */
  predicate RunOf(s: State, t: State, version: string)
    requires s.Valid()
  {
    && t.Valid()
    && (t.history == s.history || Committed(s, t, version))
    && (t.tags == s.tags || TagAdded(s, t, version))
  }

  predicate TagAdded(s: State, t: State, version: string)
    requires s.Valid() && t.Valid()
  {
    && version !in s.tags && t.tags == s.tags[version := t.Head()] && t.Clean()
    && t.tree.product == version && Lockstep(t.tree)
    && (t.history == s.history ==> Releasable(s, version))
  }

  /** A commit of the user's that leaves both version lines alone. */
  predicate LeavesLines(s: State, t: State)
    requires s.Valid()
  {
    && t.Valid() && t.tags == s.tags
    && s.history <= t.history && |t.history| <= |s.history| + 1
    && t.history[t.Head()].lines.product == s.history[s.Head()].lines.product
    && Internal(t.history[t.Head()].lines) == Internal(s.history[s.Head()].lines)
  }

  ghost predicate Next(s: State, t: State)
    requires s.Valid()
  {
    LeavesLines(s, t) || exists version :: RunOf(s, t, version)
  }

  // ----- the implementation

  datatype Outcome = Stopped | Refused | Tagged

  class Repository {
    var history: seq<Commit>
    var tree: Lines
    var tags: map<string, nat>

    function Now(): State
      reads this
    {
      State(history, tree, tags)
    }

    constructor (initial: Commit)
      ensures Now() == State([initial], initial.lines, map[]) && Kept(Now())
    {
      history, tree, tags := [initial], initial.lines, map[];
    }

    /** Rewrites the manifests one by one, gwz-core's first; stopping leaves some at the old number. */
    method BumpInternal(current: nat, next: nat) returns (stopped: bool)
      modifies this`tree
      ensures tree.product == old(tree.product) && tree.bazel == old(tree.bazel)
      ensures !stopped ==> tree == Bumped(old(tree), current, next)
    {
      tree := tree.(edges := BumpedEdges(tree.edges, current, next));
      for i := 0 to |tree.crates|
        invariant tree.product == old(tree.product) && tree.bazel == old(tree.bazel)
        invariant tree.edges == BumpedEdges(old(tree.edges), current, next) && |tree.crates| == |old(tree.crates)|
        invariant forall j | 0 <= j < |tree.crates| ::
          tree.crates[j] == if j < i then BumpedCrate(old(tree.crates)[j], current, next) else old(tree.crates)[j]
      {
        if * {
          return true;
        }
        tree := tree.(crates := tree.crates[i := BumpedCrate(tree.crates[i], current, next)]);
      }
      stopped := false;
    }

    /** Never moves a tag. */
    method EnsureTag(version: string, target: nat) returns (ok: bool)
      modifies this`tags
      ensures ok <==> version !in old(tags) || old(tags)[version] == target
      ensures tags == if version in old(tags) then old(tags) else old(tags)[version := target]
    {
      if version in tags {
        return tags[version] == target;
      }
      tags := tags[version := target];
      ok := true;
    }

    /** Brings the lines to the release and commits them. */
    method WriteRelease(version: string) returns (stopped: bool)
      requires Now().Valid() && Now().Clean() && version !in tags && Lockstep(tree)
      requires !(tree.product == version && tree.bazel == version)
      modifies this`tree, this`history
      ensures Now().Valid()
      ensures stopped ==> history == old(history)
      ensures !stopped ==> Committed(old(Now()), Now(), version) && Now().Clean() && Lockstep(tree)
    {
      tree := tree.(product := version);
      if * {
        return true;
      }
      tree := tree.(bazel := version);
      var line := Internal(tree).value;
      BumpKeepsLockstep(tree, line + 1);
      stopped := BumpInternal(line, line + 1);
      if * {
        stopped := true;
      }
      if !stopped {
        history := history + [Commit(tree, Message(version))];
      }
    }

    /** One run: `Refused` exactly when the repository does not qualify, unless it was stopped. */
    method Cut(version: string) returns (outcome: Outcome)
      requires Now().Valid()
      modifies this
      ensures RunOf(old(Now()), Now(), version)
      ensures outcome == Tagged ==>
        && Releasable(old(Now()), version) && Now().Clean()
        && version in tags && tags[version] == Now().Head() && tree.product == version
      ensures outcome == Refused ==> !Releasable(old(Now()), version) && history == old(history) && tags == old(tags)
      ensures Kept(old(Now())) ==> Kept(Now())
    {
      outcome := Attempt(version);
      if Kept(old(Now())) {
        RunKeeps(old(Now()), Now(), version);
      }
    }

    method Attempt(version: string) returns (outcome: Outcome)
      requires Now().Valid()
      modifies this
      ensures RunOf(old(Now()), Now(), version)
      ensures outcome == Tagged ==>
        && Releasable(old(Now()), version) && Now().Clean()
        && version in tags && tags[version] == Now().Head() && tree.product == version
      ensures outcome == Refused ==> !Releasable(old(Now()), version) && history == old(history) && tags == old(tags)
    {
      if !Now().Clean() || !Lockstep(tree) {
        return Refused;
      }
      if version in tags {
        if tags[version] != Now().Head() || tree.product != version {
          return Refused;
        }
        outcome := Tagged;
        if * {
          outcome := Stopped;
        }
        return;
      }
      if * {
        return Stopped;
      }
      if tree.product != version || tree.bazel != version {
        var stopped := WriteRelease(version);
        if stopped {
          return Stopped;
        }
      } else if !Recent(history, Message(version)) {
        return Refused;
      }
      if * {
        return Stopped;
      }
      var _ := EnsureTag(version, Now().Head());
      outcome := Tagged;
      if * {
        outcome := Stopped;
      }
    }
  }

  // ----- over every sequence of runs and commits

  predicate SameLine(a: Commit, b: Commit) {
    Internal(a.lines).Some? && Internal(a.lines) == Internal(b.lines)
  }

  /** The internal line never goes back, and moves whenever the product version does. */
  ghost predicate Ordered(history: seq<Commit>) {
    forall i, j | 0 <= i < j < |history| && Internal(history[i].lines).Some? && Internal(history[j].lines).Some? ::
      && Internal(history[i].lines).value <= Internal(history[j].lines).value
      && (SameLine(history[i], history[j]) ==> history[i].lines.product == history[j].lines.product)
  }

  ghost predicate Faithful(s: State)
    requires s.Valid()
  {
    forall v | v in s.tags :: s.history[s.tags[v]].lines.product == v && Lockstep(s.history[s.tags[v]].lines)
  }

  ghost predicate Kept(s: State) {
    s.Valid() && Ordered(s.history) && Faithful(s)
  }

  /** Once the crates disagree they stay so, hence a last line that exists bounds every earlier one. */
  lemma {:induction false} OrderedGrows(history: seq<Commit>, more: Commit)
    requires history != [] && Ordered(history)
    requires
      var last := history[|history| - 1].lines;
      || (more.lines.product == last.product && Internal(more.lines) == Internal(last))
      || (Internal(last).Some? && Internal(more.lines) == Some(Internal(last).value + 1))
    ensures Ordered(history + [more])
  {
    var all := history + [more];
    forall i, j | 0 <= i < j < |all| && Internal(all[i].lines).Some? && Internal(all[j].lines).Some?
      ensures
        && Internal(all[i].lines).value <= Internal(all[j].lines).value
        && (SameLine(all[i], all[j]) ==> all[i].lines.product == all[j].lines.product)
    {
      if j == |history| && i < j - 1 {
        assert all[i] == history[i] && all[j - 1] == history[j - 1];
      } else if j < |history| {
        assert all[i] == history[i] && all[j] == history[j];
      }
    }
  }

  lemma {:induction false} RunKeeps(s: State, t: State, version: string)
    requires Kept(s) && RunOf(s, t, version)
    ensures Kept(t)
  {
    if t.history != s.history {
      BumpKeepsLockstep(s.tree, Internal(s.tree).value + 1);
      OrderedGrows(s.history, t.history[|s.history|]);
      assert t.history == s.history + [t.history[|s.history|]];
    }
  }

  lemma {:induction false} CommitKeeps(s: State, t: State)
    requires Kept(s) && LeavesLines(s, t)
    ensures Kept(t)
  {
    if |t.history| == |s.history| {
      assert t.history == s.history;
    } else {
      OrderedGrows(s.history, t.history[|s.history|]);
      assert t.history == s.history + [t.history[|s.history|]];
    }
  }

  /** A sequence of states, each the next of the one before. */
  ghost predicate Course(states: seq<State>)
  {
    && states != [] && states[0].Valid()
    && (|states| > 1 ==> Next(states[0], states[1]) && Course(states[1..]))
  }

  /** A tag once created never moves, and the commits it names stay. */
  lemma {:induction false} TagsNeverMove(states: seq<State>, version: string)
    requires Course(states) && version in states[0].tags
    ensures var last := states[|states| - 1]; last.Valid() && version in last.tags
    ensures var last := states[|states| - 1];
      && last.tags[version] == states[0].tags[version]
      && last.history[last.tags[version]] == states[0].history[states[0].tags[version]]
  {
    if |states| > 1 {
      TagsNeverMove(states[1..], version);
    }
  }

  lemma {:induction false} CourseKeeps(states: seq<State>)
    requires Course(states) && Kept(states[0])
    ensures Kept(states[|states| - 1])
  {
    if |states| > 1 {
      if LeavesLines(states[0], states[1]) {
        CommitKeeps(states[0], states[1]);
      } else {
        var version :| RunOf(states[0], states[1], version);
        RunKeeps(states[0], states[1], version);
      }
      CourseKeeps(states[1..]);
    }
  }

  /** Each tagged commit carries its tag's version, and two tags never share an internal line. */
  lemma {:induction false} ReleasesAreApart(states: seq<State>, a: string, b: string)
    requires Course(states) && Kept(states[0])
    requires a in states[|states| - 1].tags && b in states[|states| - 1].tags && a != b
    ensures var last := states[|states| - 1];
      && last.Valid()
      && last.history[last.tags[a]].lines.product == a
      && Lockstep(last.history[last.tags[a]].lines)
      && !SameLine(last.history[last.tags[a]], last.history[last.tags[b]])
  {
    CourseKeeps(states);
  }

  // ----- product versions edited by hand

  predicate IsRelease(c: Commit) {
    Message("") <= c.subject
  }

  /** Release commits advance the internal line by one, and nothing else moves it. */
  ghost predicate Advancing(history: seq<Commit>) {
    && (forall i | 0 <= i < |history| :: Internal(history[i].lines).Some?)
    && forall i | 0 < i < |history| ::
      Internal(history[i].lines).value == Internal(history[i - 1].lines).value + if IsRelease(history[i]) then 1 else 0
  }

  /** A commit that may move the product line by hand, but not the internal one, and is not taken for a release. */
  predicate HandCommit(s: State, t: State)
    requires s.Valid()
  {
    && t.Valid() && t.tags == s.tags
    && |t.history| == |s.history| + 1 && s.history <= t.history
    && Internal(t.history[|s.history|].lines) == Internal(s.history[s.Head()].lines)
    && !IsRelease(t.history[|s.history|])
  }

  lemma {:induction false} HandBumpsAdvance(s: State, t: State, version: string)
    requires s.Valid() && Advancing(s.history)
    requires RunOf(s, t, version) || HandCommit(s, t)
    ensures Advancing(t.history)
  {
    if t.history != s.history {
      var more := t.history[|s.history|];
      assert t.history == s.history + [more];
      if Committed(s, t, version) {
        BumpKeepsLockstep(s.tree, Internal(s.tree).value + 1);
      }
      assert RunOf(s, t, version) ==> Message("") <= Message(version);
    }
  }

  /** The line at `k` is the one the release commit at `r` brought exactly when no release commit came between. */
  lemma {:induction false} LineCameWithRelease(history: seq<Commit>, r: nat, k: nat)
    requires Advancing(history) && r <= k < |history|
    ensures Internal(history[r].lines).value <= Internal(history[k].lines).value
    ensures SameLine(history[r], history[k]) <==> forall i | r < i <= k :: !IsRelease(history[i])
    decreases k
  {
    if r < k {
      LineCameWithRelease(history, r, k - 1);
    }
  }

  /** Release 2 is written but not tagged, release 3 is tagged, and the product line is put back to 2 by hand. */
  function HandStory(): seq<State> {
    var first := Commit(Lines("1", "1", [], [Crate(1, [])]), "start");
    var second := Commit(Lines("2", "2", [], [Crate(2, [])]), Message("2"));
    var third := Commit(Lines("3", "3", [], [Crate(3, [])]), Message("3"));
    var hand := Commit(Lines("2", "2", [], [Crate(3, [])]), "go back");
    [ State([first], first.lines, map[]),
      State([first, second], second.lines, map[]),
      State([first, second, third], third.lines, map["3" := 2]),
      State([first, second, third, hand], hand.lines, map["3" := 2]),
      State([first, second, third, hand], hand.lines, map["3" := 2, "2" := 3]) ]
  }

  lemma HandStorySteps()
    ensures |HandStory()| == 5 && HandStory()[0].tags == map[]
    ensures forall i | 0 <= i < 5 :: HandStory()[i].Valid()
    ensures RunOf(HandStory()[0], HandStory()[1], "2") && RunOf(HandStory()[1], HandStory()[2], "3")
    ensures RunOf(HandStory()[3], HandStory()[4], "2")
  {
    assert HandStory()[3].history[1].subject == Message("2");
  }

  /**
   Finding the release commit in the log does not show that the line came with it: the product
   line put back by hand is tagged on the later release's line.
   */
  lemma HandBumpSharesLine()
    ensures |HandStory()| == 5 && HandStory()[0].tags == map[]
    ensures forall i | 0 <= i < 5 :: HandStory()[i].Valid()
    ensures RunOf(HandStory()[0], HandStory()[1], "2") && RunOf(HandStory()[1], HandStory()[2], "3")
    ensures HandCommit(HandStory()[2], HandStory()[3]) && RunOf(HandStory()[3], HandStory()[4], "2")
    ensures var last := HandStory()[4];
      "2" in last.tags && "3" in last.tags && SameLine(last.history[last.tags["2"]], last.history[last.tags["3"]])
  {
    HandStorySteps();
    assert Message("")[0] == 'c';
  }
}
