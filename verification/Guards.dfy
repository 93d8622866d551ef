/** Whether a call is guarded: `functions` and the climb in `findings`, over the spans of `blocks`. */
module Guards {
  import opened Wrappers
  import opened Spans

  // ----- function bodies

  /** The brace that opens a body after `j`: the first outside brackets, unless a semicolon outside them comes first. */
  function BodyFrom(code: string, j: nat, depth: int): (o: Option<nat>)
    requires j <= |code|
    ensures o.Some? ==> j <= o.value && Opens(code, o.value)
    decreases |code| - j
  {
    if j == |code| then None
    else if code[j] in "([" then BodyFrom(code, j + 1, depth + 1)
    else if code[j] in ")]" then BodyFrom(code, j + 1, depth - 1)
    else if depth == 0 && code[j] == ';' then None
    else if depth == 0 && code[j] == '{' then Some(j)
    else BodyFrom(code, j + 1, depth)
  }

  /** How many more brackets open than close from `from` up to `j`. */
  function Brackets(code: string, from: nat, j: nat): (n: int)
    requires from <= j <= |code|
  {
    if j == from then 0
    else Brackets(code, from, j - 1)
         + (if code[j - 1] in "([" then 1 else if code[j - 1] in ")]" then -1 else 0)
  }

  /** A semicolon or a brace outside brackets: what decides whether a function has a body. */
  predicate Decides(code: string, from: nat, j: nat)
    requires from <= j < |code|
  {
    code[j] in ";{" && Brackets(code, from, j) == 0
  }

  /** The first such place from `from` on. */
  predicate IsFirst(code: string, from: nat, j: nat) {
    from <= j < |code| && Decides(code, from, j) && forall k | from <= k < j :: !Decides(code, from, k)
  }

  lemma {:induction false} BodyFromFirst(code: string, from: nat, j: nat)
    requires from <= j <= |code| && forall k | from <= k < j :: !Decides(code, from, k)
    ensures var o := BodyFrom(code, j, Brackets(code, from, j));
      match o {
        case Some(b) => IsFirst(code, from, b) && code[b] == '{'
        case None => forall k: nat | IsFirst(code, from, k) :: code[k] == ';'
      }
    decreases |code| - j
  {
    if j < |code| {
      if Decides(code, from, j) {
        assert IsFirst(code, from, j);
      } else {
        BodyFromFirst(code, from, j + 1);
      }
    }
  }

  /** The body's brace is the first semicolon or brace outside brackets, if that is a brace. */
  lemma BodyIsFirst(code: string, from: nat, o: nat)
    requires from <= |code|
    ensures BodyFrom(code, from, 0) == Some(o) <==> IsFirst(code, from, o) && code[o] == '{'
  {
    BodyFromFirst(code, from, from);
  }

  /** A function with a body; a match of the `fn` pattern is a name and the offset after it. */
  datatype Function = Function(name: string, open: nat, close: nat)

  type Match = (string, nat)

  function Bodies(code: string, matches: seq<Match>): (fns: seq<Function>)
    requires forall m | m in matches :: m.1 <= |code|
    ensures forall f | f in fns :: Opens(code, f.open) && f.close == Close(code, f.open)
  {
    if matches == [] then []
    else
      var last := matches[|matches| - 1];
      var o := BodyFrom(code, last.1, 0);
      Bodies(code, matches[..|matches| - 1])
      + if o.Some? then [Function(last.0, o.value, Close(code, o.value))] else []
  }

  method Body(code: string, spans: seq<Span>, innermost: seq<int>, from: nat) returns (found: Option<Span>)
    requires Charted(code, spans, innermost) && from <= |code|
    ensures var o := BodyFrom(code, from, 0); found == if o.Some? then Some((o.value, Close(code, o.value))) else None
  {
    var depth, j := 0, from;
    while j < |code|
      invariant from <= j <= |code| && BodyFrom(code, j, depth) == BodyFrom(code, from, 0)
    {
      if code[j] in "([" {
        depth := depth + 1;
      } else if code[j] in ")]" {
        depth := depth - 1;
      } else if depth == 0 && code[j] == ';' {
        return None;
      } else if depth == 0 && code[j] == '{' {
        OpeningIsInnermost(code, spans, innermost, j);
        return Some(spans[innermost[j]]);
      }
      j := j + 1;
    }
    found := None;
  }

  method Functions(code: string, spans: seq<Span>, innermost: seq<int>, matches: seq<Match>)
    returns (fns: seq<Function>)
    requires Charted(code, spans, innermost) && forall m | m in matches :: m.1 <= |code|
    ensures fns == Bodies(code, matches)
  {
    fns := [];
    for i := 0 to |matches|
      invariant fns == Bodies(code, matches[..i])
    {
      assert matches[..i + 1][..i] == matches[..i];
      var found := Body(code, spans, innermost, matches[i].1);
      if found.Some? {
        fns := fns + [Function(matches[i].0, found.value.0, found.value.1)];
      }
    }
    assert matches[..|matches|] == matches;
  }

  lemma SpanOf(code: string, spans: seq<Span>, innermost: seq<int>, o: nat) returns (p: nat)
    requires Charted(code, spans, innermost) && Opens(code, o)
    ensures p < |spans| && spans[p] == (o, Close(code, o))
  {
    OpeningsAreAll(code, |code|, o);
    p :| p < |spans| && Openings(code, |code|)[p] == o;
  }

  /** At its own brace, a block is the innermost one. */
  lemma OpeningIsInnermost(code: string, spans: seq<Span>, innermost: seq<int>, o: nat)
    requires Charted(code, spans, innermost) && Opens(code, o)
    ensures 0 <= innermost[o] < |spans| && spans[innermost[o]] == (o, Close(code, o))
  {
    var p := SpanOf(code, spans, innermost, o);
    OpeningsRise(code, |code|);
    assert IsInnermost(code, spans, o, innermost[o]);
    assert Holds(code, spans[p].0, o);
  }

  // ----- the owner of a call

  predicate Encloses(f: Function, at: nat) {
    f.open < at < f.close
  }

  /** The enclosing function whose body opens last. */
  ghost predicate IsOwner(fns: seq<Function>, at: nat, owner: Option<Function>) {
    match owner
    case None => forall f | f in fns :: !Encloses(f, at)
    case Some(g) => g in fns && Encloses(g, at) && forall f | f in fns && Encloses(f, at) :: f.open <= g.open
  }

  /** The shortest enclosing body, which is the innermost one because bodies are nested or apart. */
  method Owner(code: string, fns: seq<Function>, at: nat) returns (owner: Option<Function>)
    requires forall f | f in fns :: Opens(code, f.open) && f.close == Close(code, f.open)
    ensures IsOwner(fns, at, owner)
  {
    owner := None;
    for i := 0 to |fns|
      invariant IsOwner(fns[..i], at, owner)
    {
      var f := fns[i];
      if Encloses(f, at) {
        if owner.Some? {
          ShorterIsInner(code, f, owner.value, at);
        }
        if owner.None? || f.close - f.open < owner.value.close - owner.value.open {
          owner := Some(f);
        }
      }
    }
  }

  lemma ShorterIsInner(code: string, f: Function, g: Function, at: nat)
    requires Opens(code, f.open) && f.close == Close(code, f.open) && Encloses(f, at)
    requires Opens(code, g.open) && g.close == Close(code, g.open) && Encloses(g, at)
    ensures f.close - f.open < g.close - g.open <==> g.open < f.open
  {
    if g.open < f.open {
      Laminar(code, g.open, f.open);
    } else if f.open < g.open {
      Laminar(code, f.open, g.open);
    }
  }

  // ----- the climb

  /** `q` lies in the block opened at `o` and in no block inside it. */
  ghost predicate DirectlyIn(code: string, o: nat, q: nat) {
    Holds(code, o, q) && forall n: nat | o < n :: !Holds(code, n, q)
  }

  /** The block opened at `o` holds the call and has an `.enter(` before it at its own depth. */
  ghost predicate EnteredBlock(code: string, enters: seq<nat>, at: nat, o: nat) {
    Holds(code, o, at) && exists q :: q in enters && o < q < at && DirectlyIn(code, o, q)
  }

  ghost predicate Guarded(code: string, enters: seq<nat>, at: nat, owner: nat) {
    exists o: nat :: owner <= o && EnteredBlock(code, enters, at, o)
  }

  lemma InnermostIsDirect(code: string, spans: seq<Span>, innermost: seq<int>, q: nat, p: nat)
    requires Charted(code, spans, innermost) && q < |code| && p < |spans|
    ensures innermost[q] == p <==> DirectlyIn(code, spans[p].0, q)
  {
    OpeningsRise(code, |code|);
    assert IsInnermost(code, spans, q, innermost[q]);
    if innermost[q] == p {
      forall n: nat | spans[p].0 < n ensures !Holds(code, n, q) {
        if Holds(code, n, q) {
          var r := SpanOf(code, spans, innermost, n);
        }
      }
    } else if p < innermost[q] {
      assert spans[p].0 < spans[innermost[q]].0;
    }
  }

  /** The block around a block that holds the call holds it too, and no block in between does. */
  lemma ParentHolds(code: string, spans: seq<Span>, innermost: seq<int>, at: nat, p: nat)
    requires Charted(code, spans, innermost) && at < |code| && p < |spans|
    requires Holds(code, spans[p].0, at) && spans[p].0 > 0
    ensures var up := innermost[spans[p].0 - 1];
      && -1 <= up < p
      && (up >= 0 ==> Holds(code, spans[up].0, at))
      && forall q | up < q < p :: !Holds(code, spans[q].0, at)
  {
    var o := spans[p].0;
    var up := innermost[o - 1];
    OpeningsRise(code, |code|);
    assert IsInnermost(code, spans, o - 1, up);
    if up >= 0 {
      Laminar(code, spans[up].0, o);
    }
    forall q | up < q < p ensures !Holds(code, spans[q].0, at) {
      assert !Holds(code, spans[q].0, o - 1);
    }
  }

  method EnteredAt(code: string, spans: seq<Span>, innermost: seq<int>, enters: seq<nat>, at: nat, p: nat)
    returns (entered: bool)
    requires Charted(code, spans, innermost) && (forall q | q in enters :: q < |code|)
    requires p < |spans| && Holds(code, spans[p].0, at)
    ensures entered <==> EnteredBlock(code, enters, at, spans[p].0)
  {
    for i := 0 to |enters|
      invariant forall q | q in enters[..i] :: !(spans[p].0 < q < at && DirectlyIn(code, spans[p].0, q))
    {
      assert enters[i] in enters;
      InnermostIsDirect(code, spans, innermost, enters[i], p);
      if spans[p].0 < enters[i] < at && innermost[enters[i]] == p {
        return true;
      }
    }
    entered := false;
  }

  method IsGuarded(code: string, spans: seq<Span>, innermost: seq<int>, enters: seq<nat>, at: nat, owner: nat)
    returns (guarded: bool)
    requires Charted(code, spans, innermost) && at < |code| && forall q | q in enters :: q < |code|
    ensures guarded <==> Guarded(code, enters, at, owner)
  {
    OpeningsRise(code, |code|);
    var block := innermost[at];
    assert IsInnermost(code, spans, at, block);
    while block >= 0 && spans[block].0 >= owner
      invariant -1 <= block < |spans| && (block >= 0 ==> Holds(code, spans[block].0, at))
      invariant forall p | block < p < |spans| :: !EnteredBlock(code, enters, at, spans[p].0)
      decreases block
    {
      var entered := EnteredAt(code, spans, innermost, enters, at, block);
      if entered {
        return true;
      }
      if spans[block].0 > 0 {
        ParentHolds(code, spans, innermost, at, block);
        block := innermost[spans[block].0 - 1];
      } else {
        block := -1;
      }
    }
    forall o: nat | owner <= o ensures !EnteredBlock(code, enters, at, o) {
      if Holds(code, o, at) {
        var p := SpanOf(code, spans, innermost, o);
      }
    }
    guarded := false;
  }

  // ----- the verdict on one call

  datatype Verdict = OutsideFunctions | InStep | Unguarded

  ghost predicate Rules(code: string, fns: seq<Function>, enters: seq<nat>, at: nat,
                        owner: Option<Function>, verdict: Verdict)
  {
    && IsOwner(fns, at, owner)
    && verdict ==
       if owner.None? then OutsideFunctions
       else if Guarded(code, enters, at, owner.value.open) then InStep else Unguarded
  }

  method Judge(code: string, matches: seq<Match>, enters: seq<nat>, at: nat)
    returns (verdict: Verdict, owner: Option<Function>)
    requires (forall m | m in matches :: m.1 <= |code|) && (forall q | q in enters :: q < |code|) && at < |code|
    ensures Rules(code, Bodies(code, matches), enters, at, owner, verdict)
  {
    var spans, innermost := Blocks(code);
    var fns := Functions(code, spans, innermost, matches);
    owner := Owner(code, fns, at);
    if owner.None? {
      return OutsideFunctions, owner;
    }
    var guarded := IsGuarded(code, spans, innermost, enters, at, owner.value.open);
    verdict := if guarded then InStep else Unguarded;
  }
}
