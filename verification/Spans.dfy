/** `blocks` of `check_member_step_boundary.py`: the braces of a text and what they enclose. */
module Spans {
  // ----- the blocks of a text, by counting braces

  /** The brace that closes `depth` blocks from `j` on, or the end of the text. */
  function CloseFrom(code: string, j: nat, depth: nat): (c: nat)
    requires j <= |code| && depth > 0
    ensures j <= c <= |code| && (c < |code| ==> code[c] == '}')
    decreases |code| - j
  {
    if j == |code| then j
    else if code[j] == '{' then CloseFrom(code, j + 1, depth + 1)
    else if code[j] == '}' then if depth == 1 then j else CloseFrom(code, j + 1, depth - 1)
    else CloseFrom(code, j + 1, depth)
  }

  predicate Opens(code: string, o: nat) {
    o < |code| && code[o] == '{'
  }

  function Close(code: string, o: nat): (c: nat)
    requires Opens(code, o)
    ensures o < c <= |code|
  {
    CloseFrom(code, o + 1, 1)
  }

  /** The block opened at `o` holds the offset. */
  predicate Holds(code: string, o: nat, i: nat) {
    Opens(code, o) && o <= i < Close(code, o)
  }

  lemma {:induction false} DeeperClosesLater(code: string, j: nat, d: nat, e: nat)
    requires j <= |code| && 0 < d <= e
    ensures CloseFrom(code, j, d) <= CloseFrom(code, j, e)
    ensures d < e && CloseFrom(code, j, e) < |code| ==> CloseFrom(code, j, d) < CloseFrom(code, j, e)
    decreases |code| - j
  {
    if j < |code| {
      if code[j] == '{' {
        DeeperClosesLater(code, j + 1, d + 1, e + 1);
      } else if code[j] == '}' {
        if d > 1 {
          DeeperClosesLater(code, j + 1, d - 1, e - 1);
        }
      } else {
        DeeperClosesLater(code, j + 1, d, e);
      }
    }
  }

  /** A scan that has not closed by `k` is still inside some block there. */
  lemma {:induction false} StillOpen(code: string, j: nat, d: nat, k: nat) returns (e: nat)
    requires j <= k <= |code| && d > 0 && k <= CloseFrom(code, j, d)
    ensures e > 0 && CloseFrom(code, j, d) == CloseFrom(code, k, e)
    decreases k - j
  {
    if j == k {
      e := d;
    } else {
      e := StillOpen(code, j + 1,
        if code[j] == '{' then d + 1 else if code[j] == '}' && d > 1 then d - 1 else d, k);
    }
  }

  /** Blocks are nested or apart: one opened inside another closes before it, or both run to the end. */
  lemma Laminar(code: string, a: nat, b: nat)
    requires Opens(code, a) && Opens(code, b) && a < b < Close(code, a)
    ensures Close(code, b) <= Close(code, a)
    ensures Close(code, b) == Close(code, a) ==> Close(code, a) == |code|
  {
    var e := StillOpen(code, a + 1, 1, b);
    DeeperClosesLater(code, b + 1, 1, e + 1);
  }

  // ----- `blocks`

  type Span = (nat, nat)

  /** Where blocks open before `n`, in order. */
  function Openings(code: string, n: nat): (r: seq<nat>)
    requires n <= |code|
    ensures forall p | 0 <= p < |r| :: r[p] < n && Opens(code, r[p])
  {
    if n == 0 then [] else Openings(code, n - 1) + if code[n - 1] == '{' then [n - 1] else []
  }

  lemma {:induction false} OpeningsRise(code: string, n: nat)
    requires n <= |code|
    ensures forall p, q | 0 <= p < q < |Openings(code, n)| :: Openings(code, n)[p] < Openings(code, n)[q]
  {
    if n > 0 {
      OpeningsRise(code, n - 1);
    }
  }

  lemma {:induction false} OpeningsAreAll(code: string, n: nat, o: nat)
    requires o < n <= |code| && Opens(code, o)
    ensures o in Openings(code, n)
  {
    if o < n - 1 {
      OpeningsAreAll(code, n - 1, o);
    }
  }

  /** The spans open where the blocks do, in the order they open. */
  ghost predicate AllBlocks(code: string, spans: seq<Span>, upTo: nat) {
    && upTo <= |code| && |spans| == |Openings(code, upTo)|
    && forall p | 0 <= p < |spans| :: spans[p].0 == Openings(code, upTo)[p]
  }

  /** The last-opened block that holds offset `i`, by its place among the spans; -1 where none does. */
  ghost predicate IsInnermost(code: string, spans: seq<Span>, i: nat, p: int) {
    && -1 <= p < |spans|
    && (p >= 0 ==> Holds(code, spans[p].0, i))
    && forall q | p < q < |spans| :: !Holds(code, spans[q].0, i)
  }

  ghost predicate Charted(code: string, spans: seq<Span>, innermost: seq<int>) {
    && AllBlocks(code, spans, |code|)
    && (forall p | 0 <= p < |spans| :: spans[p].1 == Close(code, spans[p].0))
    && |innermost| == |code|
    && forall i | 0 <= i < |code| :: IsInnermost(code, spans, i, innermost[i])
  }

  ghost predicate Rising(stack: seq<nat>, count: nat) {
    && (forall d | 0 <= d < |stack| :: stack[d] < count)
    && forall d, e | 0 <= d < e < |stack| :: stack[d] < stack[e]
  }

  /** An open block closes where its depth on the stack says, and its span is still open-ended. */
  ghost predicate Standing(code: string, spans: seq<Span>, p: nat, at: nat, depth: int) {
    && p < |spans| && at <= |code| && depth > 0 && Opens(code, spans[p].0)
    && Close(code, spans[p].0) == CloseFrom(code, at, depth) && spans[p].1 == |code|
  }

  ghost predicate Stacked(code: string, spans: seq<Span>, stack: seq<nat>, at: nat) {
    forall d | 0 <= d < |stack| :: Standing(code, spans, stack[d], at, |stack| - d)
  }

  /** The other blocks are closed for good. */
  ghost predicate ClosedRest(code: string, spans: seq<Span>, stack: seq<nat>, at: nat) {
    forall p: nat | p < |spans| && p !in stack ::
      Opens(code, spans[p].0) && spans[p].1 == Close(code, spans[p].0) && spans[p].1 < at
  }

  datatype Scan = Scan(spans: seq<Span>, stack: seq<nat>, innermost: seq<int>) {
    predicate Fits() {
      forall d | 0 <= d < |stack| :: stack[d] < |spans|
    }
  }

  /** The character at `at` opens a block, closes the last open one, or does neither. */
  function Step(code: string, at: nat, s: Scan): (t: Scan)
    requires at < |code| && s.Fits()
    ensures t.Fits()
  {
    var top := |s.stack| - 1;
    var (spans, stack) :=
      if code[at] == '{' then (s.spans + [(at, |code|)], s.stack + [|s.spans|])
      else if code[at] == '}' && s.stack != [] then
        (s.spans[s.stack[top] := (s.spans[s.stack[top]].0, at)], s.stack[..top])
      else (s.spans, s.stack);
    Scan(spans, stack, s.innermost + [if stack != [] then stack[|stack| - 1] else -1])
  }

  function Steps(code: string, at: nat): (s: Scan)
    requires at <= |code|
    ensures s.Fits()
  {
    if at == 0 then Scan([], [], []) else Step(code, at - 1, Steps(code, at - 1))
  }

  method Blocks(code: string) returns (spans: seq<Span>, innermost: seq<int>)
    ensures Charted(code, spans, innermost)
  {
    spans, innermost := [], [];
    var stack: seq<nat> := [];
    for at := 0 to |code|
      invariant Scan(spans, stack, innermost) == Steps(code, at)
    {
      assert Steps(code, at).Fits();
      if code[at] == '{' {
        spans := spans + [(at, |code|)];
        stack := stack + [|spans| - 1];
      } else if code[at] == '}' && stack != [] {
        var top := stack[|stack| - 1];
        stack := stack[..|stack| - 1];
        spans := spans[top := (spans[top].0, at)];
      }
      innermost := innermost + [if stack != [] then stack[|stack| - 1] else -1];
    }
    StepsKeep(code, |code|);
    AllCharted(code, Steps(code, |code|));
  }

  ghost predicate Kept(code: string, at: nat, s: Scan) {
    && at <= |code|
    && AllBlocks(code, s.spans, at) && Rising(s.stack, |s.spans|)
    && Stacked(code, s.spans, s.stack, at) && ClosedRest(code, s.spans, s.stack, at)
    && |s.innermost| == at && forall i | 0 <= i < at :: IsInnermost(code, s.spans, i, s.innermost[i])
  }

  lemma AllCharted(code: string, s: Scan)
    requires Kept(code, |code|, s)
    ensures Charted(code, s.spans, s.innermost)
  {
    forall p: nat | p < |s.spans| ensures s.spans[p].1 == Close(code, s.spans[p].0) {
      if p in s.stack {
        var d :| 0 <= d < |s.stack| && s.stack[d] == p;
      }
    }
  }

  lemma {:induction false} StepsKeep(code: string, at: nat)
    requires at <= |code|
    ensures Kept(code, at, Steps(code, at))
  {
    if at > 0 {
      StepsKeep(code, at - 1);
      StepKeeps(code, at - 1, Steps(code, at - 1));
    }
  }

  lemma StepKeeps(code: string, at: nat, s: Scan)
    requires at < |code| && Kept(code, at, s)
    ensures Kept(code, at + 1, Step(code, at, s))
  {
    var t := Step(code, at, s);
    assert s.Fits();
    BlocksGrow(code, at, s);
    RisingKeeps(code, at, s);
    StackKeeps(code, at, s);
    RestKeeps(code, at, s);
    InnermostKeeps(code, at, s);
    TopIsInnermost(code, t, at);
  }

  lemma RisingKeeps(code: string, at: nat, s: Scan)
    requires at < |code| && s.Fits() && Rising(s.stack, |s.spans|)
    ensures var t := Step(code, at, s); Rising(t.stack, |t.spans|)
  {
  }

  lemma {:induction false} StackKeeps(code: string, at: nat, s: Scan)
    requires at < |code| && s.Fits() && Rising(s.stack, |s.spans|) && Stacked(code, s.spans, s.stack, at)
    ensures var t := Step(code, at, s); Stacked(code, t.spans, t.stack, at + 1)
  {
    var t := Step(code, at, s);
    forall d | 0 <= d < |t.stack| ensures Standing(code, t.spans, t.stack[d], at + 1, |t.stack| - d) {
      if d < |s.stack| {
        assert Standing(code, s.spans, s.stack[d], at, |s.stack| - d);
      }
    }
  }

  lemma {:induction false} RestKeeps(code: string, at: nat, s: Scan)
    requires at < |code| && s.Fits() && Rising(s.stack, |s.spans|)
    requires Stacked(code, s.spans, s.stack, at) && ClosedRest(code, s.spans, s.stack, at)
    ensures var t := Step(code, at, s); ClosedRest(code, t.spans, t.stack, at + 1)
  {
    var t := Step(code, at, s);
    forall p: nat | p < |t.spans| && p !in t.stack
      ensures Opens(code, t.spans[p].0) && t.spans[p].1 == Close(code, t.spans[p].0) && t.spans[p].1 < at + 1
    {
      if p in s.stack {
        var d :| 0 <= d < |s.stack| && s.stack[d] == p;
      } else {
        assert p < |s.spans| && t.spans[p] == s.spans[p];
      }
    }
  }

  lemma {:induction false} InnermostKeeps(code: string, at: nat, s: Scan)
    requires at < |code| && s.Fits()
    requires |s.innermost| == at && forall i | 0 <= i < at :: IsInnermost(code, s.spans, i, s.innermost[i])
    ensures var t := Step(code, at, s); forall i | 0 <= i < at :: IsInnermost(code, t.spans, i, t.innermost[i])
  {
    var t := Step(code, at, s);
    forall i | 0 <= i < at ensures IsInnermost(code, t.spans, i, t.innermost[i]) {
      assert IsInnermost(code, s.spans, i, s.innermost[i]);
      SameInnermost(code, s.spans, t.spans, i, s.innermost[i]);
    }
  }

  /** Blocks that open later do not matter to an offset, nor does where a span is said to close. */
  lemma SameInnermost(code: string, before: seq<Span>, after: seq<Span>, i: nat, p: int)
    requires IsInnermost(code, before, i, p) && |before| <= |after|
    requires forall q | 0 <= q < |before| :: after[q].0 == before[q].0
    requires forall q | |before| <= q < |after| :: after[q].0 > i
    ensures IsInnermost(code, after, i, p)
  {
    forall q | p < q < |after| ensures !Holds(code, after[q].0, i) {
      if q < |before| {
        assert !Holds(code, before[q].0, i);
      }
    }
  }

  lemma {:induction false} TopIsInnermost(code: string, s: Scan, at: nat)
    requires at < |code| && AllBlocks(code, s.spans, at + 1) && Rising(s.stack, |s.spans|)
    requires Stacked(code, s.spans, s.stack, at + 1) && ClosedRest(code, s.spans, s.stack, at + 1)
    ensures IsInnermost(code, s.spans, at, if s.stack != [] then s.stack[|s.stack| - 1] else -1)
  {
  }

  lemma {:induction false} BlocksGrow(code: string, at: nat, s: Scan)
    requires at < |code| && s.Fits() && AllBlocks(code, s.spans, at)
    ensures AllBlocks(code, Step(code, at, s).spans, at + 1)
  {
  }
}
