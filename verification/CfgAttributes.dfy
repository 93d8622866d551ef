/** `conditional`: whether an attribute makes compilation depend on the configuration. */
module CfgAttributes {
  import opened Wrappers
  import opened CfgTokens
  import opened CfgPredicates

  predicate Gates(attr: Tokens) {
    |attr| >= 3 && attr[1] == "(" && attr[0] in {"cfg", "cfg_attr"}
  }

  function Conditional(attr: Tokens): (depends: bool)
    decreases |attr|
  {
    if !Gates(attr) then false
    else if attr[0] == "cfg" then true
    else
      var inner := attr[2..|attr| - 1];
      assert forall p | p in Split(inner) :: |p| < |attr| by {
        forall p | p in Split(inner) ensures |p| < |attr| {
          PartsAreShort([], inner, 0, p);
        }
      }
      var parts := Split(inner);
      var value := Constant(parts[0]);
      if value.None? then Filled(parts[1..]) else value.value && AnyConditional(parts[1..], |attr|)
  }

  predicate Filled(parts: seq<Tokens>) {
    parts != [] && (parts[0] != [] || Filled(parts[1..]))
  }

  predicate AnyConditional(parts: seq<Tokens>, bound: nat)
    requires forall p | p in parts :: |p| < bound
    decreases bound, |parts|
  {
    parts != [] && ((parts[0] != [] && Conditional(parts[0])) || AnyConditional(parts[1..], bound))
  }

  // ----- what an attribute means

  datatype Attr =
    | Plain(tokens: Tokens)
    | Cfg(pred: Pred, trailing: bool)
    | CfgAttr(pred: Pred, applied: seq<Attr>, trailing: bool)

  predicate WellFormedAttr(a: Attr) {
    match a
    case Plain(ts) => ts != [] && Balanced(ts) && Quiet(ts, 0) && !Gates(ts)
    case Cfg(pred, _) => WellFormed(pred)
    case CfgAttr(pred, applied, _) => WellFormed(pred) && forall x | x in applied :: WellFormedAttr(x)
  }

  function RenderAttr(a: Attr): (tokens: Tokens) {
    match a
    case Plain(ts) => ts
    case Cfg(pred, trailing) => ["cfg", "("] + Arguments([Render(pred)], trailing) + [")"]
    case CfgAttr(pred, applied, trailing) =>
      ["cfg_attr", "("] + Arguments([Render(pred)] + RenderAttrs(applied), trailing) + [")"]
  }

  function RenderAttrs(attrs: seq<Attr>): (parts: seq<Tokens>)
    ensures |parts| == |attrs| && forall i | 0 <= i < |attrs| :: parts[i] == RenderAttr(attrs[i])
  {
    if attrs == [] then [] else [RenderAttr(attrs[0])] + RenderAttrs(attrs[1..])
  }

  /** The attributes that one stands for in a configuration: plain ones, and gates that remain. */
  function Expand(a: Attr, c: Config): (attrs: seq<Attr>) {
    match a
    case Plain(_) => [a]
    case Cfg(_, _) => [a]
    case CfgAttr(pred, applied, _) => if Eval(pred, c) then ExpandAll(applied, c) else []
  }

  function ExpandAll(attrs: seq<Attr>, c: Config): (expanded: seq<Attr>) {
    if attrs == [] then [] else Expand(attrs[0], c) + ExpandAll(attrs[1..], c)
  }

  /** The verdict on the attribute itself. */
  predicate Depends(a: Attr) {
    match a
    case Plain(_) => false
    case Cfg(_, _) => true
    case CfgAttr(pred, applied, _) =>
      if Fold(pred).None? then applied != [] else Fold(pred).value && true in DependsEach(applied)
  }

  function DependsEach(attrs: seq<Attr>): (verdicts: seq<bool>)
    ensures |verdicts| == |attrs| && forall i | 0 <= i < |attrs| :: verdicts[i] == Depends(attrs[i])
  {
    if attrs == [] then [] else [Depends(attrs[0])] + DependsEach(attrs[1..])
  }

  /** The verdict on tokens is the verdict on the attribute. */
  lemma {:induction false} ConditionalIsDepends(a: Attr)
    requires WellFormedAttr(a)
    ensures Part(RenderAttr(a)) && Conditional(RenderAttr(a)) == Depends(a)
  {
    match a
    case Plain(_) =>
    case Cfg(pred, trailing) =>
      ConstantIsFold(pred);
      ArgumentsSplit([Render(pred)], trailing);
      WrapBalanced("cfg", Arguments([Render(pred)], trailing));
    case CfgAttr(pred, applied, trailing) =>
      ConstantIsFold(pred);
      forall i | 0 <= i < |applied|
        ensures Part(RenderAttr(applied[i])) && Conditional(RenderAttr(applied[i])) == Depends(applied[i])
      {
        ConditionalIsDepends(applied[i]);
      }
      CfgAttrVerdict(Render(pred), RenderAttrs(applied), trailing, DependsEach(applied));
  }

  lemma CfgAttrVerdict(pred: Tokens, parts: seq<Tokens>, trailing: bool, verdicts: seq<bool>)
    requires Part(pred) && forall i | 0 <= i < |parts| :: Part(parts[i])
    requires |verdicts| == |parts| && forall i | 0 <= i < |parts| :: Conditional(parts[i]) == verdicts[i]
    ensures var ts := ["cfg_attr", "("] + Arguments([pred] + parts, trailing) + [")"];
      && Part(ts)
      && Conditional(ts) ==
         if Constant(pred).None? then parts != [] else Constant(pred).value && true in verdicts
  {
    var ts := ["cfg_attr", "("] + Arguments([pred] + parts, trailing) + [")"];
    var more := if trailing then [[]] else [];
    CfgAttrShape(pred, parts, trailing);
    forall p | p in parts + more ensures |p| < |ts| {
      assert p in [pred] + (parts + more);
      PartsAreShort([], ts[2..|ts| - 1], 0, p);
    }
    AppliedVerdict(parts, more, |ts|, verdicts);
  }

  lemma CfgAttrShape(pred: Tokens, parts: seq<Tokens>, trailing: bool)
    requires Part(pred) && forall i | 0 <= i < |parts| :: Part(parts[i])
    ensures var ts := ["cfg_attr", "("] + Arguments([pred] + parts, trailing) + [")"];
      && Part(ts) && |ts| >= 3 && ts[0] == "cfg_attr" && ts[1] == "("
      && Split(ts[2..|ts| - 1]) == [pred] + (parts + if trailing then [[]] else [])
  {
    var inner := Arguments([pred] + parts, trailing);
    var ts := ["cfg_attr", "("] + inner + [")"];
    ArgumentsSplit([pred] + parts, trailing);
    WrapBalanced("cfg_attr", inner);
    assert ts[2..|ts| - 1] == inner;
  }

  lemma {:induction false} AppliedVerdict(parts: seq<Tokens>, more: seq<Tokens>, bound: nat, verdicts: seq<bool>)
    requires forall p | p in parts + more :: |p| < bound
    requires |verdicts| == |parts|
    requires forall i | 0 <= i < |parts| :: parts[i] != [] && Conditional(parts[i]) == verdicts[i]
    requires more == [] || more == [[]]
    ensures Filled(parts + more) <==> parts != []
    ensures AnyConditional(parts + more, bound) <==> true in verdicts
    decreases |parts|
  {
    if parts == [] {
      assert parts + more == more;
    } else {
      assert (parts + more)[1..] == parts[1..] + more;
      AppliedVerdict(parts[1..], more, bound, verdicts[1..]);
    }
  }

  lemma {:induction false} IndependentAlike(a: Attr, c: Config, d: Config)
    requires !Depends(a)
    ensures Expand(a, c) == Expand(a, d)
    ensures forall x | x in Expand(a, c) :: x.Plain?
  {
    match a
    case Plain(_) =>
    case CfgAttr(pred, applied, _) =>
      FoldIsValue(pred, c);
      FoldIsValue(pred, d);
      if Fold(pred) == Some(true) {
        IndependentsAlike(applied, c, d);
      }
  }

  lemma {:induction false} IndependentsAlike(attrs: seq<Attr>, c: Config, d: Config)
    requires true !in DependsEach(attrs)
    ensures ExpandAll(attrs, c) == ExpandAll(attrs, d)
    ensures forall x | x in ExpandAll(attrs, c) :: x.Plain?
  {
    if attrs != [] {
      IndependentAlike(attrs[0], c, d);
      IndependentsAlike(attrs[1..], c, d);
    }
  }

  /** An attribute found unconditional expands alike in every configuration, and leaves no gate. */
  lemma UnconditionalIsAlike(a: Attr, c: Config, d: Config)
    requires WellFormedAttr(a) && !Conditional(RenderAttr(a))
    ensures Expand(a, c) == Expand(a, d)
    ensures forall x | x in Expand(a, c) :: x.Plain?
  {
    ConditionalIsDepends(a);
    IndependentAlike(a, c, d);
  }
}
