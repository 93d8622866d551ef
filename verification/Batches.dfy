/** `exact_batches` of `run_tests.py`: test names in as few commands as the budget allows. */
module Batches {
  const BUDGET := 24_000

  type Batch = seq<string>

  function Size(batch: Batch): (n: nat) {
    if batch == [] then 0 else Size(batch[..|batch| - 1]) + |batch[|batch| - 1]| + 1
  }

  function Concat(batches: seq<Batch>): (names: seq<string>) {
    if batches == [] then [] else batches[0] + Concat(batches[1..])
  }

  /** What one command may carry; a name over the budget by itself has to be carried anyway. */
  predicate Fits(batch: Batch) {
    |batch| <= 1 || Size(batch) <= BUDGET
  }

  /** A split of the names, in order, into commands that may be run. */
  ghost predicate Splits(batches: seq<Batch>, names: seq<string>) {
    Concat(batches) == names && forall b | b in batches :: Fits(b)
  }

  predicate NoneEmpty(batches: seq<Batch>) {
    forall i | 0 <= i < |batches| :: batches[i] != []
  }

  /** No batch could have taken the next one's first name. */
  predicate Full(batches: seq<Batch>) {
    |batches| < 2 ||
    (batches[0] != [] && batches[1] != [] && !Fits(batches[0] + [batches[1][0]]) && Full(batches[1..]))
  }

  lemma {:induction false} SizeAppend(a: Batch, b: Batch)
    ensures Size(a + b) == Size(a) + Size(b)
    decreases |b|
  {
    if b == [] {
      assert a + b == a;
    } else {
      assert (a + b)[..|a + b| - 1] == a + b[..|b| - 1];
      SizeAppend(a, b[..|b| - 1]);
    }
  }

  lemma {:induction false} ConcatAppend(batches: seq<Batch>, last: Batch)
    ensures Concat(batches + [last]) == Concat(batches) + last
  {
    if batches == [] {
      assert batches + [last] == [last] && [last][1..] == [];
    } else {
      assert (batches + [last])[1..] == batches[1..] + [last];
      ConcatAppend(batches[1..], last);
    }
  }

  /** What does not fit does not fit inside more either. */
  lemma TooMuch(before: Batch, middle: Batch, after: Batch)
    requires !Fits(middle)
    ensures !Fits(before + middle + after)
  {
    SizeAppend(before, middle);
    SizeAppend(before + middle, after);
  }

  /** One more name: into the last batch, unless that holds something and would go over the budget. */
  function Add(batches: seq<Batch>, name: string): (more: seq<Batch>)
    requires batches != []
    ensures more != []
  {
    var k := |batches| - 1;
    if batches[k] != [] && Size(batches[k]) + |name| + 1 > BUDGET then batches + [[name]]
    else batches[k := batches[k] + [name]]
  }

  function Greedy(names: seq<string>): (batches: seq<Batch>)
    ensures batches != []
  {
    if names == [] then [[]] else Add(Greedy(names[..|names| - 1]), names[|names| - 1])
  }

  lemma {:induction false} FullGrows(done: seq<Batch>, last: Batch, next: Batch)
    requires Full(done + [last]) && last != [] && next != [] && !Fits(last + [next[0]])
    ensures Full(done + [last] + [next])
  {
    if done != [] {
      assert (done + [last])[1..] == done[1..] + [last];
      assert (done + [last] + [next])[1..] == done[1..] + [last] + [next];
      FullGrows(done[1..], last, next);
    }
  }

  lemma {:induction false} FullLonger(done: seq<Batch>, last: Batch, name: string)
    requires Full(done + [last]) && (last != [] || done == [])
    ensures Full(done + [last + [name]])
  {
    if done != [] {
      assert (done + [last])[1..] == done[1..] + [last];
      assert (done + [last + [name]])[1..] == done[1..] + [last + [name]];
      FullLonger(done[1..], last, name);
    }
  }

  /** A split stays one when a batch that fits is put after it. */
  lemma SplitsMore(done: seq<Batch>, names: seq<string>, last: Batch)
    requires Splits(done, names) && Fits(last)
    ensures Splits(done + [last], names + last)
  {
    ConcatAppend(done, last);
  }

  lemma AddKeeps(done: seq<Batch>, last: Batch, names: seq<string>, name: string)
    requires Splits(done, names) && Fits(last) && Full(done + [last])
    requires NoneEmpty(done) && (last != [] || done == [])
    ensures var more := Add(done + [last], name);
      Splits(more, names + last + [name]) && Full(more) && NoneEmpty(more)
  {
    SizeAppend(last, [name]);
    assert Size([name]) == |name| + 1;
    if last != [] && Size(last) + |name| + 1 > BUDGET {
      SplitsMore(done, names, last);
      SplitsMore(done + [last], names + last, [name]);
      FullGrows(done, last, [name]);
    } else {
      assert (done + [last])[|done| := last + [name]] == done + [last + [name]];
      assert names + (last + [name]) == names + last + [name];
      SplitsMore(done, names, last + [name]);
      FullLonger(done, last, name);
    }
  }

  lemma AddToSplit(batches: seq<Batch>, names: seq<string>, name: string)
    requires batches != [] && Splits(batches, names) && Full(batches) && (batches == [[]] || NoneEmpty(batches))
    ensures Splits(Add(batches, name), names + [name]) && Full(Add(batches, name)) && NoneEmpty(Add(batches, name))
  {
    var done, last := batches[..|batches| - 1], batches[|batches| - 1];
    assert batches == done + [last];
    ConcatAppend(done, last);
    AddKeeps(done, last, Concat(done), name);
  }

  lemma {:induction false} GreedyIsFull(names: seq<string>)
    ensures Splits(Greedy(names), names) && Full(Greedy(names))
    ensures if names == [] then Greedy(names) == [[]] else NoneEmpty(Greedy(names))
  {
    if names == [] {
      assert Greedy(names)[1..] == [];
    } else {
      var init := names[..|names| - 1];
      GreedyIsFull(init);
      AddToSplit(Greedy(init), init, names[|names| - 1]);
      assert init + [names[|names| - 1]] == names;
    }
  }

  lemma OpenedThenFilled(batches: seq<Batch>, name: string)
    ensures (batches + [[]])[|batches| := [] + [name]] == batches + [[name]]
  {
    assert [] + [name] == [name];
  }

  method ExactBatches(names: seq<string>) returns (batches: seq<Batch>)
    ensures Splits(batches, names)
    ensures if names == [] then batches == [[]] else NoneEmpty(batches)
    ensures forall other: seq<Batch> | Splits(other, names) && names != [] :: |batches| <= |other|
  {
    batches := [[]];
    var size := 0;
    for i := 0 to |names|
      invariant batches == Greedy(names[..i]) && size == Size(batches[|batches| - 1])
    {
      ghost var before := batches;
      assert names[..i + 1][..i] == names[..i];
      SizeAppend(batches[|batches| - 1], [names[i]]);
      assert Size([names[i]]) == |names[i]| + 1;
      if batches[|batches| - 1] != [] && size + |names[i]| + 1 > BUDGET {
        batches := batches + [[]];
        size := 0;
        OpenedThenFilled(before, names[i]);
      }
      batches := batches[|batches| - 1 := batches[|batches| - 1] + [names[i]]];
      size := size + |names[i]| + 1;
    }
    assert names[..|names|] == names;
    GreedyIsFull(names);
    forall other: seq<Batch> | Splits(other, names) && names != [] ensures |batches| <= |other| {
      assert [] + Concat(batches) == names;
      FullIsFewest(batches, other, []);
    }
  }

  /** Batches that are full never need more commands than any other split of the same names, or of more. */
  lemma {:induction false} FullIsFewest(batches: seq<Batch>, other: seq<Batch>, extra: seq<string>)
    requires Full(batches) && NoneEmpty(batches)
    requires Splits(other, extra + Concat(batches))
    ensures |batches| <= |other|
    decreases |batches|
  {
    if batches != [] {
      var first, rest := batches[0], Concat(batches[1..]);
      assert extra + Concat(batches) == (extra + first) + rest;
      assert other != [];
      var o := other[0];
      if |o| > |extra + first| {
        NotThatLong(batches, o, extra);
      } else {
        var left := (extra + first)[|o|..];
        assert Concat(other[1..]) == ((extra + first) + rest)[|o|..] == left + rest;
        FullIsFewest(batches[1..], other[1..], left);
      }
    }
  }

  /** A batch that goes past the first full one holds too much. */
  lemma NotThatLong(batches: seq<Batch>, o: Batch, extra: seq<string>)
    requires Full(batches) && batches != [] && NoneEmpty(batches)
    requires o <= extra + Concat(batches) && |o| > |extra + batches[0]|
    ensures !Fits(o)
  {
    var first, rest := batches[0], Concat(batches[1..]);
    var second := batches[1];
    assert rest == second + Concat(batches[1..][1..]);
    var middle := first + [second[0]];
    var after := o[|extra| + |middle|..];
    assert extra + Concat(batches) == extra + first + rest;
    assert o == extra + middle + after;
    TooMuch(extra, middle, after);
  }
}
