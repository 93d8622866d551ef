/** `split_commas` of `check_cfg_boundaries.py`, over the texts of tokens. */
module CfgTokens {
  type Token = string
  type Tokens = seq<Token>

  const OPENERS: set<Token> := {"(", "[", "{"}
  const CLOSERS: set<Token> := {")", "]", "}"}
  const COMMA: Token := ","

  function Weight(t: Token): (w: int)
    ensures -1 <= w <= 1
  {
    (if t in OPENERS then 1 else 0) - (if t in CLOSERS then 1 else 0)
  }

  /** The parts still to come from `rest`, when `current` is the part so far and brackets stand `depth` deep. */
  function SplitFrom(current: Tokens, rest: Tokens, depth: int): (parts: seq<Tokens>)
    ensures parts != []
    decreases |rest|
  {
    if rest == [] then [current]
    else
      var d := depth + Weight(rest[0]);
      if d == 0 && rest[0] == COMMA then [current] + SplitFrom([], rest[1..], 0)
      else SplitFrom(current + [rest[0]], rest[1..], d)
  }

  function Split(tokens: Tokens): (parts: seq<Tokens>) {
    SplitFrom([], tokens, 0)
  }

  method SplitCommas(tokens: Tokens) returns (parts: seq<Tokens>)
    ensures parts == Split(tokens)
  {
    parts := [];
    var current, depth := [], 0;
    for i := 0 to |tokens|
      invariant Split(tokens) == parts + SplitFrom(current, tokens[i..], depth)
    {
      depth := depth + Weight(tokens[i]);
      assert tokens[i..][1..] == tokens[i + 1..];
      if depth == 0 && tokens[i] == COMMA {
        parts, current := parts + [current], [];
      } else {
        current := current + [tokens[i]];
      }
    }
    parts := parts + [current];
  }

  // ----- joining

  function Join(parts: seq<Tokens>): (tokens: Tokens) {
    if parts == [] then []
    else if |parts| == 1 then parts[0]
    else parts[0] + [COMMA] + Join(parts[1..])
  }

  function Net(ts: Tokens): (n: int) {
    if ts == [] then 0 else Weight(ts[0]) + Net(ts[1..])
  }

  /** No comma stands outside brackets, counting from `depth`. */
  predicate Quiet(ts: Tokens, depth: int) {
    ts == [] ||
    var d := depth + Weight(ts[0]);
    !(d == 0 && ts[0] == COMMA) && Quiet(ts[1..], d)
  }

  /** No bracket is closed that was not opened, counting from `depth`. */
  predicate Above(ts: Tokens, depth: int) {
    ts == [] ||
    var d := depth + Weight(ts[0]);
    d >= 0 && Above(ts[1..], d)
  }

  predicate Balanced(ts: Tokens) {
    Net(ts) == 0 && Above(ts, 0)
  }

  /** What comma-separated parts must be for the separators to be told from other commas. */
  ghost predicate Separable(parts: seq<Tokens>) {
    && parts != []
    && (forall i | 0 <= i < |parts| :: Quiet(parts[i], 0))
    && forall i | 0 <= i < |parts| - 1 :: Net(parts[i]) == 0
  }

  lemma {:induction false} Append(a: Tokens, b: Tokens, d: int)
    ensures Net(a + b) == Net(a) + Net(b)
    ensures Quiet(a + b, d) <==> Quiet(a, d) && Quiet(b, d + Net(a))
    ensures Above(a + b, d) <==> Above(a, d) && Above(b, d + Net(a))
    decreases |a|
  {
    if a == [] {
      assert a + b == b;
    } else {
      assert (a + b)[1..] == a[1..] + b;
      Append(a[1..], b, d + Weight(a[0]));
    }
  }

  /** Joining what was split gives the tokens back, whatever they are. */
  lemma {:induction false} JoinSplit(current: Tokens, rest: Tokens, depth: int)
    ensures Join(SplitFrom(current, rest, depth)) == current + rest
    decreases |rest|
  {
    if rest != [] {
      var d := depth + Weight(rest[0]);
      if d == 0 && rest[0] == COMMA {
        JoinSplit([], rest[1..], 0);
        var tail := SplitFrom([], rest[1..], 0);
        assert ([current] + tail)[1..] == tail;
        assert current + rest == current + [COMMA] + rest[1..];
      } else {
        JoinSplit(current + [rest[0]], rest[1..], d);
        assert current + [rest[0]] + rest[1..] == current + rest;
      }
    }
  }

  /** The parts of a split are separable. */
  lemma {:induction false} SplitSeparable(current: Tokens, rest: Tokens, depth: int)
    requires Quiet(current, 0) && Net(current) == depth
    ensures Separable(SplitFrom(current, rest, depth))
    decreases |rest|
  {
    if rest != [] {
      var d := depth + Weight(rest[0]);
      if d == 0 && rest[0] == COMMA {
        SplitSeparable([], rest[1..], 0);
      } else {
        Append(current, [rest[0]], 0);
        SplitSeparable(current + [rest[0]], rest[1..], d);
      }
    }
  }

  /** A part without a separator is taken up whole. */
  lemma {:induction false} TakePart(current: Tokens, part: Tokens, rest: Tokens, depth: int)
    requires Quiet(part, depth)
    ensures SplitFrom(current, part + rest, depth) == SplitFrom(current + part, rest, depth + Net(part))
    decreases |part|
  {
    if part == [] {
      assert part + rest == rest && current + part == current;
    } else {
      assert (part + rest)[1..] == part[1..] + rest;
      TakePart(current + [part[0]], part[1..], rest, depth + Weight(part[0]));
      assert current + [part[0]] + part[1..] == current + part;
    }
  }

  lemma {:induction false} SplitOfJoin(parts: seq<Tokens>)
    requires Separable(parts)
    ensures Split(Join(parts)) == parts
    decreases |parts|
  {
    var first := parts[0];
    if |parts| == 1 {
      TakePart([], first, [], 0);
      assert first + [] == first && [] + first == first;
    } else {
      var rest := [COMMA] + Join(parts[1..]);
      assert Join(parts) == first + rest;
      TakePart([], first, rest, 0);
      assert rest[1..] == Join(parts[1..]) && [] + first == first;
      SplitOfJoin(parts[1..]);
    }
  }

  /** Splitting undoes joining exactly for separable parts, and joining always undoes splitting. */
  lemma SplitInvertsJoin(parts: seq<Tokens>)
    ensures Join(Split(Join(parts))) == Join(parts)
    ensures Split(Join(parts)) == parts <==> Separable(parts)
  {
    JoinSplit([], Join(parts), 0);
    assert [] + Join(parts) == Join(parts);
    if Separable(parts) {
      SplitOfJoin(parts);
    } else {
      SplitSeparable([], Join(parts), 0);
    }
  }

  // ----- lists of balanced parts

  lemma {:induction false} BalancedIsQuietInside(ts: Tokens, d: int, e: int)
    requires Above(ts, d) && d < e
    ensures Quiet(ts, e)
    decreases |ts|
  {
    if ts != [] {
      BalancedIsQuietInside(ts[1..], d + Weight(ts[0]), e + Weight(ts[0]));
    }
  }

  lemma {:induction false} JoinBalanced(parts: seq<Tokens>)
    requires forall i | 0 <= i < |parts| :: Balanced(parts[i])
    ensures Balanced(Join(parts))
    decreases |parts|
  {
    if |parts| > 1 {
      JoinBalanced(parts[1..]);
      var rest := [COMMA] + Join(parts[1..]);
      assert Join(parts) == parts[0] + rest;
      Append([COMMA], Join(parts[1..]), 0);
      Append(parts[0], rest, 0);
    }
  }

  /** Brackets around a balanced list hide its commas. */
  lemma WrapBalanced(name: Token, inner: Tokens)
    requires Balanced(inner) && Weight(name) == 0 && name != COMMA
    ensures var whole := [name, "("] + inner + [")"]; Balanced(whole) && Quiet(whole, 0)
  {
    var whole := [name, "("] + inner + [")"];
    assert whole == [name, "("] + (inner + [")"]);
    BalancedIsQuietInside(inner, 0, 1);
    BelowIsAbove(inner, 0, 1);
    Append(inner, [")"], 1);
    Append([name, "("], inner + [")"], 0);
    assert Net([name, "("]) == 1 && Above([name, "("], 0) && Quiet([name, "("], 0) by {
      assert [name, "("][1..] == ["("];
    }
  }

  lemma {:induction false} BelowIsAbove(ts: Tokens, d: int, e: int)
    requires Above(ts, d) && d <= e
    ensures Above(ts, e)
    decreases |ts|
  {
    if ts != [] {
      BelowIsAbove(ts[1..], d + Weight(ts[0]), e + Weight(ts[0]));
    }
  }

  lemma {:induction false} PartsAreShort(current: Tokens, rest: Tokens, depth: int, part: Tokens)
    requires part in SplitFrom(current, rest, depth)
    ensures |part| <= |current| + |rest|
    decreases |rest|
  {
    if rest != [] {
      var d := depth + Weight(rest[0]);
      if d == 0 && rest[0] == COMMA {
        if part != current {
          PartsAreShort([], rest[1..], 0, part);
        }
      } else {
        PartsAreShort(current + [rest[0]], rest[1..], d, part);
      }
    }
  }
}
