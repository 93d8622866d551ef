/** `constant` of `check_cfg_boundaries.py`: folding `cfg` predicates without a configuration. */
module CfgPredicates {
  import opened Wrappers
  import opened CfgTokens

  type Truth = Option<bool>

  const COMBINATORS: set<Token> := {"all", "any", "not"}

  function AllOf(values: seq<Truth>): (v: Truth) {
    if Some(false) in values then Some(false)
    else if forall x | x in values :: x == Some(true) then Some(true) else None
  }

  function AnyOf(values: seq<Truth>): (v: Truth) {
    if Some(true) in values then Some(true)
    else if forall x | x in values :: x == Some(false) then Some(false) else None
  }

  function NotOf(values: seq<Truth>): (v: Truth) {
    if |values| != 1 || values[0].None? then None else Some(!values[0].value)
  }

  function Combine(name: Token, values: seq<Truth>): (v: Truth) {
    if name == "not" then NotOf(values) else if name == "all" then AllOf(values) else AnyOf(values)
  }

  predicate Combines(pred: Tokens) {
    |pred| >= 3 && pred[0] in COMBINATORS && pred[1] == "("
  }

  /** The predicate's value where it is the same in every configuration, as far as the folding sees. */
  function Constant(pred: Tokens): (value: Truth)
    decreases |pred|
  {
    if !Combines(pred) then None
    else
      var inner := pred[2..|pred| - 1];
      assert forall p | p in Split(inner) :: |p| < |pred| by {
        forall p | p in Split(inner) ensures |p| < |pred| {
          PartsAreShort([], inner, 0, p);
        }
      }
      Combine(pred[0], Values(Split(inner), |pred|))
  }

  function Values(parts: seq<Tokens>, bound: nat): (values: seq<Truth>)
    requires forall p | p in parts :: |p| < bound
    decreases bound, |parts|
  {
    if parts == [] then []
    else (if parts[0] == [] then [] else [Constant(parts[0])]) + Values(parts[1..], bound)
  }

  // ----- what a predicate means

  /** A predicate; `trailing` is a comma after the last argument, which means nothing. */
  datatype Pred =
    | Leaf(tokens: Tokens)
    | All(args: seq<Pred>, trailing: bool)
    | Any(args: seq<Pred>, trailing: bool)
    | Not(arg: Pred, trailing: bool)

  /** A configuration is the set of the leaf predicates that hold in it. */
  type Config = set<Tokens>

  predicate Eval(p: Pred, c: Config) {
    match p
    case Leaf(ts) => ts in c
    case All(args, _) => forall a | a in args :: Eval(a, c)
    case Any(args, _) => exists a | a in args :: Eval(a, c)
    case Not(arg, _) => !Eval(arg, c)
  }

  /** Leaves are anything but a combinator: a name, a name and a value, a name with bracketed arguments. */
  predicate WellFormed(p: Pred) {
    match p
    case Leaf(ts) => ts != [] && Balanced(ts) && Quiet(ts, 0) && !Combines(ts)
    case All(args, _) => forall a | a in args :: WellFormed(a)
    case Any(args, _) => forall a | a in args :: WellFormed(a)
    case Not(arg, _) => WellFormed(arg)
  }

  function Arguments(parts: seq<Tokens>, trailing: bool): (tokens: Tokens) {
    Join(parts + if trailing then [[]] else [])
  }

  function Render(p: Pred): (tokens: Tokens) {
    match p
    case Leaf(ts) => ts
    case All(args, trailing) => ["all", "("] + Arguments(RenderAll(args), trailing) + [")"]
    case Any(args, trailing) => ["any", "("] + Arguments(RenderAll(args), trailing) + [")"]
    case Not(arg, trailing) => ["not", "("] + Arguments([Render(arg)], trailing) + [")"]
  }

  function RenderAll(args: seq<Pred>): (parts: seq<Tokens>)
    ensures |parts| == |args| && forall i | 0 <= i < |args| :: parts[i] == Render(args[i])
  {
    if args == [] then [] else [Render(args[0])] + RenderAll(args[1..])
  }

  /** The folding on the predicate itself. */
  function Fold(p: Pred): (v: Truth) {
    match p
    case Leaf(_) => None
    case All(args, _) => AllOf(FoldAll(args))
    case Any(args, _) => AnyOf(FoldAll(args))
    case Not(arg, _) => NotOf([Fold(arg)])
  }

  function FoldAll(args: seq<Pred>): (values: seq<Truth>)
    ensures |values| == |args| && forall i | 0 <= i < |args| :: values[i] == Fold(args[i])
  {
    if args == [] then [] else [Fold(args[0])] + FoldAll(args[1..])
  }

  // ----- the folding on tokens is the folding on predicates

  ghost predicate Part(ts: Tokens) {
    ts != [] && Balanced(ts) && Quiet(ts, 0)
  }

  /** Arguments that are parts come apart again, up to empty ones. */
  lemma ArgumentsSplit(parts: seq<Tokens>, trailing: bool)
    requires forall i | 0 <= i < |parts| :: Part(parts[i])
    ensures Balanced(Arguments(parts, trailing))
    ensures Split(Arguments(parts, trailing)) == parts + if trailing || parts == [] then [[]] else []
  {
    var all := parts + if trailing then [[]] else [];
    JoinBalanced(all);
    if all != [] {
      SplitOfJoin(all);
    }
  }

  lemma {:induction false} ValuesOfParts(parts: seq<Tokens>, more: seq<Tokens>, bound: nat, values: seq<Truth>)
    requires forall p | p in parts + more :: |p| < bound
    requires |values| == |parts| && forall i | 0 <= i < |parts| :: parts[i] != [] && Constant(parts[i]) == values[i]
    requires more == [] || more == [[]]
    ensures Values(parts + more, bound) == values
    decreases |parts|
  {
    if parts == [] {
      assert parts + more == more;
    } else {
      assert (parts + more)[1..] == parts[1..] + more;
      ValuesOfParts(parts[1..], more, bound, values[1..]);
    }
  }

  lemma CombinatorFolds(name: Token, parts: seq<Tokens>, trailing: bool, values: seq<Truth>)
    requires name in COMBINATORS
    requires forall i | 0 <= i < |parts| :: Part(parts[i])
    requires |values| == |parts| && forall i | 0 <= i < |parts| :: Constant(parts[i]) == values[i]
    ensures var ts := [name, "("] + Arguments(parts, trailing) + [")"];
      Part(ts) && Constant(ts) == Combine(name, values)
  {
    var inner := Arguments(parts, trailing);
    var ts := [name, "("] + inner + [")"];
    ArgumentsSplit(parts, trailing);
    WrapBalanced(name, inner);
    assert ts[2..|ts| - 1] == inner && ts[0] == name && ts[1] == "(";
    forall p | p in Split(inner) ensures |p| < |ts| {
      PartsAreShort([], inner, 0, p);
    }
    ValuesOfParts(parts, if trailing || parts == [] then [[]] else [], |ts|, values);
  }

  lemma {:induction false} ConstantIsFold(p: Pred)
    requires WellFormed(p)
    ensures Part(Render(p)) && Constant(Render(p)) == Fold(p)
  {
    match p
    case Leaf(ts) =>
    case All(args, trailing) =>
      forall i | 0 <= i < |args| ensures Part(Render(args[i])) && Constant(Render(args[i])) == Fold(args[i]) {
        ConstantIsFold(args[i]);
      }
      CombinatorFolds("all", RenderAll(args), trailing, FoldAll(args));
    case Any(args, trailing) =>
      forall i | 0 <= i < |args| ensures Part(Render(args[i])) && Constant(Render(args[i])) == Fold(args[i]) {
        ConstantIsFold(args[i]);
      }
      CombinatorFolds("any", RenderAll(args), trailing, FoldAll(args));
    case Not(arg, trailing) =>
      ConstantIsFold(arg);
      CombinatorFolds("not", [Render(arg)], trailing, [Fold(arg)]);
  }

  // ----- occurrences of leaves

  /** Where a leaf occurs in a predicate: which argument to take at each step down. */
  type Where = seq<nat>

  /** The predicate's value where every occurrence of a leaf has a truth value of its own: those in `on` hold. */
  predicate EvalEach(p: Pred, on: set<Where>, here: Where) {
    match p
    case Leaf(_) => here in on
    case All(args, _) => forall i | 0 <= i < |args| :: EvalEach(args[i], on, here + [i])
    case Any(args, _) => exists i | 0 <= i < |args| :: EvalEach(args[i], on, here + [i])
    case Not(arg, _) => !EvalEach(arg, on, here + [0])
  }

  lemma {:induction false} FoldSound(p: Pred, on: set<Where>, here: Where)
    ensures Fold(p).Some? ==> Fold(p).value == EvalEach(p, on, here)
  {
    match p
    case Leaf(_) =>
    case Not(arg, _) =>
      FoldSound(arg, on, here + [0]);
    case _ =>
      forall i | 0 <= i < |p.args|
        ensures Fold(p.args[i]).Some? ==> Fold(p.args[i]).value == EvalEach(p.args[i], on, here + [i])
      {
        FoldSound(p.args[i], on, here + [i]);
      }
      assert forall i | 0 <= i < |p.args| :: FoldAll(p.args)[i] in FoldAll(p.args);
  }

  /** Only occurrences in the predicate matter. */
  lemma {:induction false} EachIsLocal(p: Pred, on: set<Where>, other: set<Where>, here: Where)
    requires forall w | here <= w :: w in on <==> w in other
    ensures EvalEach(p, on, here) == EvalEach(p, other, here)
  {
    match p
    case Leaf(_) =>
    case Not(arg, _) =>
      EachIsLocal(arg, on, other, here + [0]);
    case _ =>
      forall i | 0 <= i < |p.args|
        ensures EvalEach(p.args[i], on, here + [i]) == EvalEach(p.args[i], other, here + [i])
      {
        EachIsLocal(p.args[i], on, other, here + [i]);
      }
  }

  /** Occurrences that give a predicate any value the folding does not exclude. */
  lemma {:induction false} Witness(p: Pred, value: bool, here: Where) returns (on: set<Where>)
    requires Fold(p) != Some(!value)
    ensures EvalEach(p, on, here) == value && forall w | w in on :: here <= w
    decreases p, 1, 0
  {
    match p
    case Leaf(_) =>
      on := if value then {here} else {};
    case Not(arg, _) =>
      on := Witness(arg, !value, here + [0]);
    case _ =>
      assert forall i | 0 <= i < |p.args| :: FoldAll(p.args)[i] in FoldAll(p.args);
      if value == p.All? {
        on := WitnessAll(p, value, here, 0);
      } else {
        var i :| 0 <= i < |p.args| && Fold(p.args[i]) != Some(!value);
        on := Witness(p.args[i], value, here + [i]);
      }
  }

  /** All arguments from `from` on at once: occurrences in different arguments are different. */
  lemma {:induction false} WitnessAll(p: Pred, value: bool, here: Where, from: nat) returns (on: set<Where>)
    requires (p.All? || p.Any?) && from <= |p.args|
    requires forall i | 0 <= i < |p.args| :: Fold(p.args[i]) != Some(!value)
    ensures forall i | from <= i < |p.args| :: EvalEach(p.args[i], on, here + [i]) == value
    ensures forall w | w in on :: here < w && w[|here|] >= from
    decreases p, 0, |p.args| - from
  {
    on := {};
    if from < |p.args| {
      var first := Witness(p.args[from], value, here + [from]);
      var rest := WitnessAll(p, value, here, from + 1);
      on := first + rest;
      assert forall w | here + [from] <= w :: w[|here|] == from;
      EachIsLocal(p.args[from], first, on, here + [from]);
      forall i | from < i < |p.args| ensures EvalEach(p.args[i], on, here + [i]) == value {
        assert forall w | here + [i] <= w :: w[|here|] == i;
        EachIsLocal(p.args[i], rest, on, here + [i]);
      }
    }
  }

  /** The answer is definite exactly when the value is the same however the occurrences are decided one by one. */
  lemma ConstantExact(p: Pred, value: bool)
    requires WellFormed(p)
    ensures Constant(Render(p)) == Some(value) <==> forall on :: EvalEach(p, on, []) == value
  {
    ConstantIsFold(p);
    if Fold(p) == Some(value) {
      forall on ensures EvalEach(p, on, []) == value {
        FoldSound(p, on, []);
      }
    } else {
      var on := Witness(p, !value, []);
    }
  }

  // ----- configurations

  /** The occurrences of leaves that hold in a configuration. */
  function Holding(p: Pred, c: Config, here: Where): (on: set<Where>) {
    match p
    case Leaf(ts) => if ts in c then {here} else {}
    case All(args, _) => set i, w | 0 <= i < |args| && w in Holding(args[i], c, here + [i]) :: w
    case Any(args, _) => set i, w | 0 <= i < |args| && w in Holding(args[i], c, here + [i]) :: w
    case Not(arg, _) => Holding(arg, c, here + [0])
  }

  lemma {:induction false} HoldingIsBelow(p: Pred, c: Config, here: Where)
    ensures forall w | w in Holding(p, c, here) :: here <= w
  {
    match p
    case Leaf(_) =>
    case Not(arg, _) =>
      HoldingIsBelow(arg, c, here + [0]);
    case _ =>
      forall i | 0 <= i < |p.args| ensures forall w | w in Holding(p.args[i], c, here + [i]) :: here + [i] <= w {
        HoldingIsBelow(p.args[i], c, here + [i]);
      }
  }

  /** A configuration decides every occurrence of a leaf alike. */
  lemma {:induction false} EvalIsEach(p: Pred, c: Config, here: Where)
    ensures Eval(p, c) == EvalEach(p, Holding(p, c, here), here)
  {
    match p
    case Leaf(_) =>
    case Not(arg, _) =>
      EvalIsEach(arg, c, here + [0]);
    case _ =>
      forall i | 0 <= i < |p.args| ensures Eval(p.args[i], c) == EvalEach(p.args[i], Holding(p, c, here), here + [i]) {
        EvalIsEach(p.args[i], c, here + [i]);
        OwnPart(p, c, here, i);
        EachIsLocal(p.args[i], Holding(p.args[i], c, here + [i]), Holding(p, c, here), here + [i]);
      }
      assert forall i | 0 <= i < |p.args| :: p.args[i] in p.args;
  }

  lemma OwnPart(p: Pred, c: Config, here: Where, i: nat)
    requires (p.All? || p.Any?) && i < |p.args|
    ensures forall w | here + [i] <= w :: w in Holding(p, c, here) <==> w in Holding(p.args[i], c, here + [i])
  {
    forall w | here + [i] <= w && w in Holding(p, c, here) ensures w in Holding(p.args[i], c, here + [i]) {
      var j :| 0 <= j < |p.args| && w in Holding(p.args[j], c, here + [j]);
      HoldingIsBelow(p.args[j], c, here + [j]);
      assert w[|here|] == i && w[|here|] == j;
    }
  }

  lemma FoldIsValue(p: Pred, c: Config)
    ensures Fold(p).Some? ==> Fold(p).value == Eval(p, c)
  {
    EvalIsEach(p, c, []);
    FoldSound(p, Holding(p, c, []), []);
  }

  /** A definite answer is the predicate's value in every configuration. */
  lemma ConstantSound(p: Pred, c: Config)
    requires WellFormed(p)
    ensures Constant(Render(p)).Some? ==> Constant(Render(p)).value == Eval(p, c)
  {
    ConstantIsFold(p);
    FoldIsValue(p, c);
  }

  // ----- leaves that are named once

  function Leaves(p: Pred): (leaves: set<Tokens>) {
    match p
    case Leaf(ts) => {ts}
    case All(args, _) => set i, ts | 0 <= i < |args| && ts in Leaves(args[i]) :: ts
    case Any(args, _) => set i, ts | 0 <= i < |args| && ts in Leaves(args[i]) :: ts
    case Not(arg, _) => Leaves(arg)
  }

  /** No leaf occurs twice. */
  predicate ReadOnce(p: Pred) {
    match p
    case Leaf(_) => true
    case All(args, _) => ReadOnceAll(args)
    case Any(args, _) => ReadOnceAll(args)
    case Not(arg, _) => ReadOnce(arg)
  }

  predicate ReadOnceAll(args: seq<Pred>) {
    && (forall a | a in args :: ReadOnce(a))
    && forall i, j | 0 <= i < j < |args| :: Leaves(args[i]) !! Leaves(args[j])
  }

  ghost predicate Agree(c: Config, d: Config, leaves: set<Tokens>) {
    forall ts | ts in leaves :: ts in c <==> ts in d
  }

  /** The leaves at these occurrences. */
  function Named(p: Pred, on: set<Where>, here: Where): (c: Config)
    ensures c <= Leaves(p)
  {
    match p
    case Leaf(ts) => if here in on then {ts} else {}
    case All(args, _) => set i, ts | 0 <= i < |args| && ts in Named(args[i], on, here + [i]) :: ts
    case Any(args, _) => set i, ts | 0 <= i < |args| && ts in Named(args[i], on, here + [i]) :: ts
    case Not(arg, _) => Named(arg, on, here + [0])
  }

  /** Where no leaf occurs twice, a configuration can decide the occurrences one by one. */
  lemma {:induction false} EachIsEval(p: Pred, on: set<Where>, here: Where, c: Config)
    requires ReadOnce(p) && Agree(c, Named(p, on, here), Leaves(p))
    ensures EvalEach(p, on, here) == Eval(p, c)
  {
    match p
    case Leaf(_) =>
    case Not(arg, _) =>
      EachIsEval(arg, on, here + [0], c);
    case _ =>
      forall i | 0 <= i < |p.args| ensures EvalEach(p.args[i], on, here + [i]) == Eval(p.args[i], c) {
        OwnLeaves(p, on, here, i);
        EachIsEval(p.args[i], on, here + [i], c);
      }
      assert forall i | 0 <= i < |p.args| :: p.args[i] in p.args;
  }

  lemma OwnLeaves(p: Pred, on: set<Where>, here: Where, i: nat)
    requires (p.All? || p.Any?) && ReadOnce(p) && i < |p.args|
    ensures Leaves(p.args[i]) <= Leaves(p)
    ensures Agree(Named(p, on, here), Named(p.args[i], on, here + [i]), Leaves(p.args[i]))
  {
    forall ts | ts in Leaves(p.args[i]) && ts in Named(p, on, here) ensures ts in Named(p.args[i], on, here + [i]) {
      var j :| 0 <= j < |p.args| && ts in Named(p.args[j], on, here + [j]);
      assert ts in Leaves(p.args[j]);
      assert i == j;
    }
  }

  /** The leaves occur among the possible configurations in every combination. */
  ghost predicate Independent(possible: iset<Config>, leaves: set<Tokens>) {
    forall want: Config | want <= leaves :: exists c :: c in possible && Agree(c, want, leaves)
  }

  /** With no leaf twice and leaves that are independent, definite exactly when every possible configuration agrees. */
  lemma ReadOnceExact(p: Pred, value: bool, possible: iset<Config>)
    requires WellFormed(p) && ReadOnce(p) && Independent(possible, Leaves(p))
    ensures Constant(Render(p)) == Some(value) <==> forall c | c in possible :: Eval(p, c) == value
  {
    if Constant(Render(p)) == Some(value) {
      forall c | c in possible ensures Eval(p, c) == value {
        ConstantSound(p, c);
      }
    } else {
      ConstantExact(p, value);
      var on :| EvalEach(p, on, []) != value;
      assert Named(p, on, []) <= Leaves(p);
      var c :| c in possible && Agree(c, Named(p, on, []), Leaves(p));
      EachIsEval(p, on, [], c);
    }
  }

  /** Two leaves that never hold together, as in `all(unix, windows)`: false wherever it is read, and no answer. */
  lemma ExclusionIsMissed(a: Tokens, b: Tokens)
    requires WellFormed(Leaf(a)) && WellFormed(Leaf(b)) && a != b
    ensures var p := All([Leaf(a), Leaf(b)], false);
      && WellFormed(p) && ReadOnce(p) && Constant(Render(p)) == None
      && forall c: Config | !(a in c && b in c) :: !Eval(p, c)
  {
    var p := All([Leaf(a), Leaf(b)], false);
    ConstantIsFold(p);
    assert FoldAll(p.args)[0] == None && FoldAll(p.args)[0] in FoldAll(p.args) && FoldAll(p.args)[1] == None;
    assert Leaves(p.args[0]) == {a} && Leaves(p.args[1]) == {b} && ReadOnceAll(p.args);
    forall c: Config | !(a in c && b in c) ensures !Eval(p, c) {
      assert p.args[0] in p.args && p.args[1] in p.args;
      assert !Eval(p.args[0], c) || !Eval(p.args[1], c);
    }
  }

  /** A leaf twice can hide a constant: either it holds or it does not. */
  lemma TautologyIsMissed(ts: Tokens)
    requires WellFormed(Leaf(ts))
    ensures var p := Any([Leaf(ts), Not(Leaf(ts), false)], false);
      WellFormed(p) && Constant(Render(p)) == None && forall c: Config :: Eval(p, c)
  {
    var p := Any([Leaf(ts), Not(Leaf(ts), false)], false);
    ConstantIsFold(p);
    assert FoldAll(p.args)[0] == None && FoldAll(p.args)[1] == None;
    assert FoldAll(p.args)[0] in FoldAll(p.args);
    forall c: Config ensures Eval(p, c) {
      assert p.args[0] in p.args && p.args[1] in p.args;
      assert Eval(p.args[0], c) || Eval(p.args[1], c);
    }
  }
}
