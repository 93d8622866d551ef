/** The bytes that `source_digest` feeds to its hash. */
module Digest {
  import opened Wrappers
  import Disk
  import Names

  type byte = Disk.byte
  type Bytes = Disk.Bytes

  const LENGTH_BYTES := 8

  /** One build input: its key, whether it is a symbolic link, and its bytes or its target's name. */
  datatype Input = Input(key: Bytes, symlink: bool, content: Bytes)

  // ----- framing

  function Limit(k: nat): (n: nat)
    ensures n >= 1
  {
    if k == 0 then 1 else 256 * Limit(k - 1)
  }

  /** `n` in `k` bytes, the most significant first. */
  function BigEndian(n: nat, k: nat): (b: Bytes)
    ensures |b| == k
  {
    if k == 0 then [] else BigEndian(n / 256, k - 1) + [(n % 256) as byte]
  }

  function Value(b: Bytes): (n: nat) {
    if b == [] then 0 else 256 * Value(b[..|b| - 1]) + b[|b| - 1] as nat
  }

  lemma {:induction false} BigEndianReadsBack(n: nat, k: nat)
    requires n < Limit(k)
    ensures Value(BigEndian(n, k)) == n
  {
    if k > 0 {
      BigEndianReadsBack(n / 256, k - 1);
      assert BigEndian(n, k)[..k - 1] == BigEndian(n / 256, k - 1);
    }
  }

  function Chunk(b: Bytes): (framed: Bytes) {
    BigEndian(|b|, LENGTH_BYTES) + b
  }

  function Frame(e: Input): (framed: Bytes)
    ensures framed != []
  {
    Chunk(e.key) + [if e.symlink then 1 else 0] + Chunk(e.content)
  }

  function Stream(inputs: seq<Input>): (bytes: Bytes) {
    if inputs == [] then [] else Frame(inputs[0]) + Stream(inputs[1..])
  }

  /** Lengths that eight bytes can hold. */
  predicate Short(e: Input) {
    |e.key| < Limit(LENGTH_BYTES) && |e.content| < Limit(LENGTH_BYTES)
  }

  // ----- reading a stream back

  function TakeChunk(s: Bytes): (r: Option<(Bytes, Bytes)>)
    ensures r.Some? ==> |r.value.1| < |s|
  {
    if |s| < LENGTH_BYTES then None
    else
      var end := LENGTH_BYTES + Value(s[..LENGTH_BYTES]);
      if |s| < end then None else Some((s[LENGTH_BYTES..end], s[end..]))
  }

  function TakeFrame(s: Bytes): (r: Option<(Input, Bytes)>)
    ensures r.Some? ==> |r.value.1| < |s|
  {
    var key := TakeChunk(s);
    if key.None? || key.value.1 == [] then None
    else
      var content := TakeChunk(key.value.1[1..]);
      if content.None? then None
      else Some((Input(key.value.0, key.value.1[0] == 1, content.value.0), content.value.1))
  }

  function Parse(s: Bytes): (inputs: Option<seq<Input>>)
    decreases |s|
  {
    if s == [] then Some([])
    else
      var first := TakeFrame(s);
      if first.None? then None
      else
        var rest := Parse(first.value.1);
        if rest.None? then None else Some([first.value.0] + rest.value)
  }

  lemma ChunkReadsBack(b: Bytes, rest: Bytes)
    requires |b| < Limit(LENGTH_BYTES)
    ensures TakeChunk(Chunk(b) + rest) == Some((b, rest))
  {
    var s := Chunk(b) + rest;
    BigEndianReadsBack(|b|, LENGTH_BYTES);
    assert s[..LENGTH_BYTES] == BigEndian(|b|, LENGTH_BYTES);
    assert s[LENGTH_BYTES..LENGTH_BYTES + |b|] == b && s[LENGTH_BYTES + |b|..] == rest;
  }

  lemma FrameReadsBack(e: Input, rest: Bytes)
    requires Short(e)
    ensures TakeFrame(Frame(e) + rest) == Some((e, rest))
  {
    var flag: byte := if e.symlink then 1 else 0;
    var tail := [flag] + (Chunk(e.content) + rest);
    assert Frame(e) + rest == Chunk(e.key) + tail;
    ChunkReadsBack(e.key, tail);
    assert tail[1..] == Chunk(e.content) + rest;
    ChunkReadsBack(e.content, rest);
  }

  lemma ParseOne(s: Bytes, e: Input, rest: Bytes, inputs: seq<Input>)
    requires s != [] && TakeFrame(s) == Some((e, rest)) && Parse(rest) == Some(inputs)
    ensures Parse(s) == Some([e] + inputs)
  {
  }

  lemma {:induction false} StreamReadsBack(inputs: seq<Input>)
    requires forall i | 0 <= i < |inputs| :: Short(inputs[i])
    ensures Parse(Stream(inputs)) == Some(inputs)
  {
    if inputs != [] {
      var rest := Stream(inputs[1..]);
      StreamReadsBack(inputs[1..]);
      FrameReadsBack(inputs[0], rest);
      ParseOne(Frame(inputs[0]) + rest, inputs[0], rest, inputs[1..]);
      assert inputs == [inputs[0]] + inputs[1..];
    }
  }

  /** Equal streams come from equal lists. */
  lemma StreamIsUnique(a: seq<Input>, b: seq<Input>)
    requires forall i | 0 <= i < |a| :: Short(a[i])
    requires forall i | 0 <= i < |b| :: Short(b[i])
    ensures Stream(a) == Stream(b) ==> a == b
  {
    StreamReadsBack(a);
    StreamReadsBack(b);
  }

  // ----- sorting by key

  function AsName(key: Bytes): (name: string) {
    seq(|key|, i requires 0 <= i < |key| => key[i] as char)
  }

  predicate After(a: Input, b: Input) {
    Names.Less(AsName(b.key), AsName(a.key))
  }

  /** Puts an input after every one that does not have to follow it. */
  function Insert(e: Input, sorted: seq<Input>): (more: seq<Input>)
    ensures multiset(more) == multiset(sorted) + multiset{e} && |more| == |sorted| + 1
  {
    if sorted == [] then [e]
    else
      var init, last := sorted[..|sorted| - 1], sorted[|sorted| - 1];
      assert sorted == init + [last];
      if After(last, e) then Insert(e, init) + [last] else sorted + [e]
  }

  /** The stable sort by key. */
  function Sort(inputs: seq<Input>): (sorted: seq<Input>)
    ensures multiset(sorted) == multiset(inputs)
  {
    if inputs == [] then []
    else
      assert inputs == inputs[..|inputs| - 1] + [inputs[|inputs| - 1]];
      Insert(inputs[|inputs| - 1], Sort(inputs[..|inputs| - 1]))
  }

  ghost predicate Sorted(s: seq<Input>) {
    forall i, j | 0 <= i < j < |s| :: !After(s[i], s[j])
  }

  /** The inputs with a given key, in order. */
  function WithKey(s: seq<Input>, key: Bytes): (r: seq<Input>) {
    if s == [] then [] else WithKey(s[..|s| - 1], key) + if s[|s| - 1].key == key then [s[|s| - 1]] else []
  }

  lemma NotAfterTransitive(a: Input, b: Input, c: Input)
    requires !After(a, b) && !After(b, c)
    ensures !After(a, c)
  {
    Names.Connected(AsName(a.key), AsName(b.key));
    Names.Connected(AsName(b.key), AsName(c.key));
    if After(a, c) {
      if AsName(a.key) != AsName(b.key) {
        Names.Transitive(AsName(c.key), AsName(a.key), AsName(b.key));
      }
    }
  }

  lemma SameKey(a: Input, b: Input)
    requires !After(a, b) && !After(b, a)
    ensures a.key == b.key
  {
    Names.Connected(AsName(a.key), AsName(b.key));
    assert forall i | 0 <= i < |a.key| :: AsName(a.key)[i] == a.key[i] as char;
    assert forall i | 0 <= i < |b.key| :: AsName(b.key)[i] == b.key[i] as char;
    assert |AsName(a.key)| == |AsName(b.key)|;
  }

  lemma {:induction false} InsertSorts(e: Input, s: seq<Input>)
    requires Sorted(s)
    ensures Sorted(Insert(e, s))
  {
    if s != [] {
      var init, last := s[..|s| - 1], s[|s| - 1];
      if After(last, e) {
        InsertSorts(e, init);
        var front := Insert(e, init);
        forall i | 0 <= i < |front| ensures !After(front[i], last) {
          assert front[i] in multiset(front);
          if front[i] == e {
            NotBoth(last, e);
          } else {
            assert front[i] in init;
          }
        }
      } else {
        forall i | 0 <= i < |s| ensures !After(s[i], e) {
          if i < |s| - 1 {
            NotAfterTransitive(s[i], last, e);
          }
        }
      }
    }
  }

  lemma NotBoth(a: Input, b: Input)
    requires After(a, b)
    ensures !After(b, a) && a.key != b.key
  {
    Names.Irreflexive(AsName(a.key));
    if After(b, a) {
      Names.Transitive(AsName(a.key), AsName(b.key), AsName(a.key));
    }
  }

  /** Inputs with the same key keep their order. */
  lemma {:induction false} InsertIsStable(e: Input, s: seq<Input>, key: Bytes)
    ensures WithKey(Insert(e, s), key) == WithKey(s, key) + if e.key == key then [e] else []
  {
    if s == [] {
      WithKeyGrows([], e, key);
    } else {
      var init, last := s[..|s| - 1], s[|s| - 1];
      if After(last, e) {
        NotBoth(last, e);
        InsertIsStable(e, init, key);
        WithKeyGrows(Insert(e, init), last, key);
      } else {
        WithKeyGrows(s, e, key);
      }
    }
  }

  lemma WithKeyGrows(s: seq<Input>, e: Input, key: Bytes)
    ensures WithKey(s + [e], key) == WithKey(s, key) + if e.key == key then [e] else []
  {
    assert (s + [e])[..|s|] == s;
  }

  lemma {:induction false} SortIsStable(inputs: seq<Input>, key: Bytes)
    ensures Sorted(Sort(inputs)) && WithKey(Sort(inputs), key) == WithKey(inputs, key)
  {
    if inputs != [] {
      var init, last := inputs[..|inputs| - 1], inputs[|inputs| - 1];
      SortIsStable(init, key);
      InsertSorts(last, Sort(init));
      InsertIsStable(last, Sort(init), key);
    }
  }

  // ----- does the order of the directory matter?

  /** Inputs with the same key are the same. */
  ghost predicate KeysTell(inputs: seq<Input>) {
    forall a, b | a in inputs && b in inputs && a.key == b.key :: a == b
  }

  lemma DropLast(s: seq<Input>)
    requires s != []
    ensures multiset(s) == multiset(s[..|s| - 1]) + multiset{s[|s| - 1]}
  {
    assert s == s[..|s| - 1] + [s[|s| - 1]];
  }

  lemma Cancel(a: multiset<Input>, b: multiset<Input>, x: Input)
    requires a + multiset{x} == b + multiset{x}
    ensures a == b
  {
    forall e ensures a[e] == b[e] {
      assert (a + multiset{x})[e] == (b + multiset{x})[e];
    }
  }

  lemma {:induction false} SortedIsUnique(a: seq<Input>, b: seq<Input>)
    requires Sorted(a) && Sorted(b) && multiset(a) == multiset(b) && KeysTell(a)
    ensures a == b
    decreases |a|
  {
    assert |a| == |multiset(a)| && |b| == |multiset(b)|;
    if a != [] {
      var n := |a| - 1;
      LastComesLast(a, b);
      LastComesLast(b, a);
      SameKey(a[n], b[n]);
      assert b[n] in multiset(a);
      DropLast(a);
      DropLast(b);
      Cancel(multiset(a[..n]), multiset(b[..n]), a[n]);
      SortedIsUnique(a[..n], b[..n]);
      assert a == a[..n] + [a[n]] && b == b[..n] + [b[n]];
    }
  }

  lemma LastComesLast(a: seq<Input>, b: seq<Input>)
    requires Sorted(b) && a != [] && b != [] && multiset(a) == multiset(b)
    ensures !After(a[|a| - 1], b[|b| - 1])
  {
    var x, y := a[|a| - 1], b[|b| - 1];
    assert x in multiset(a);
    var i :| 0 <= i < |b| && b[i] == x;
    if i == |b| - 1 {
      Names.Irreflexive(AsName(x.key));
    }
  }

  ghost predicate Permutes(a: seq<Input>, b: seq<Input>) {
    multiset(a) == multiset(b)
  }

  ghost predicate OrderFree(inputs: seq<Input>) {
    forall other: seq<Input> | Permutes(other, inputs) :: Stream(Sort(other)) == Stream(Sort(inputs))
  }

  /** The stream does not depend on the order the inputs are found in exactly when their keys tell them apart. */
  lemma OrderFreeIff(inputs: seq<Input>)
    requires forall e | e in inputs :: Short(e)
    ensures OrderFree(inputs) <==> KeysTell(inputs)
  {
    if KeysTell(inputs) {
      forall other: seq<Input> | Permutes(other, inputs) ensures Stream(Sort(other)) == Stream(Sort(inputs)) {
        SortsAlike(inputs, other);
      }
    }
    if OrderFree(inputs) {
      forall a, b | a in inputs && b in inputs && a.key == b.key ensures a == b {
        if a != b {
          SwapShows(inputs, a, b);
        }
      }
    }
  }

  lemma SortsAlike(inputs: seq<Input>, other: seq<Input>)
    requires Permutes(other, inputs) && KeysTell(inputs)
    ensures Sort(other) == Sort(inputs)
  {
    SortIsStable(inputs, []);
    SortIsStable(other, []);
    SameMembers(inputs, Sort(inputs));
    SortedIsUnique(Sort(inputs), Sort(other));
  }

  /** Two inputs that share a key come in the order they are found in. */
  lemma SwapShows(inputs: seq<Input>, a: Input, b: Input)
    requires forall e | e in inputs :: Short(e)
    requires a in inputs && b in inputs && a != b && a.key == b.key
    ensures !OrderFree(inputs)
  {
    var rest := RemoveBoth(inputs, a, b);
    var one, two := rest + [a, b], rest + [b, a];
    SortedShort(inputs, one);
    SortedShort(inputs, two);
    OrdersDiffer(rest, a, b);
    assert Permutes(one, inputs) && Permutes(two, inputs);
  }

  lemma SortedShort(inputs: seq<Input>, other: seq<Input>)
    requires Permutes(other, inputs) && forall e | e in inputs :: Short(e)
    ensures forall i | 0 <= i < |Sort(other)| :: Short(Sort(other)[i])
  {
    SameMembers(inputs, Sort(other));
  }

  lemma SameMembers(inputs: seq<Input>, s: seq<Input>)
    requires multiset(s) == multiset(inputs)
    ensures forall i | 0 <= i < |s| :: s[i] in inputs
  {
    forall i | 0 <= i < |s| ensures s[i] in inputs {
      assert s[i] in multiset(s);
    }
  }

  lemma OrdersDiffer(rest: seq<Input>, a: Input, b: Input)
    requires a != b && a.key == b.key
    requires forall i | 0 <= i < |Sort(rest + [a, b])| :: Short(Sort(rest + [a, b])[i])
    requires forall i | 0 <= i < |Sort(rest + [b, a])| :: Short(Sort(rest + [b, a])[i])
    ensures Stream(Sort(rest + [a, b])) != Stream(Sort(rest + [b, a]))
  {
    StreamIsUnique(Sort(rest + [a, b]), Sort(rest + [b, a]));
    SortIsStable(rest + [a, b], a.key);
    SortIsStable(rest + [b, a], a.key);
    LastTwo(rest, a, b);
    LastTwo(rest, b, a);
    assert (WithKey(rest, a.key) + [a, b])[|WithKey(rest, a.key)|] == a;
    assert (WithKey(rest, a.key) + [b, a])[|WithKey(rest, a.key)|] == b;
  }

  lemma LastTwo(rest: seq<Input>, a: Input, b: Input)
    requires a.key == b.key
    ensures WithKey(rest + [a, b], a.key) == WithKey(rest, a.key) + [a, b]
  {
    assert rest + [a, b] == rest + [a] + [b];
    WithKeyGrows(rest, a, a.key);
    WithKeyGrows(rest + [a], b, a.key);
  }

  lemma Remove(s: seq<Input>, x: Input) returns (rest: seq<Input>)
    requires x in s
    ensures multiset(s) == multiset(rest) + multiset{x}
  {
    var i :| 0 <= i < |s| && s[i] == x;
    rest := s[..i] + s[i + 1..];
    assert s == s[..i] + [x] + s[i + 1..];
  }

  lemma RemoveBoth(s: seq<Input>, a: Input, b: Input) returns (rest: seq<Input>)
    requires a in s && b in s && a != b
    ensures Permutes(rest + [a, b], s) && Permutes(rest + [b, a], s)
  {
    var less := Remove(s, a);
    assert b in multiset(s);
    assert b in multiset(less);
    rest := Remove(less, b);
    assert multiset(rest + [a, b]) == multiset(rest) + multiset{b} + multiset{a};
    assert multiset(rest + [b, a]) == multiset(rest) + multiset{b} + multiset{a};
  }

  lemma {:induction false} StreamGrows(s: seq<Input>, e: Input)
    ensures Stream(s + [e]) == Stream(s) + Frame(e)
  {
    if s == [] {
      assert s + [e] == [e] && [e][1..] == [];
    } else {
      assert (s + [e])[1..] == s[1..] + [e];
      StreamGrows(s[1..], e);
    }
  }

  method Update(sorted: seq<Input>) returns (stream: Bytes)
    ensures stream == Stream(sorted)
  {
    stream := [];
    for i := 0 to |sorted|
      invariant stream == Stream(sorted[..i])
    {
      StreamGrows(sorted[..i], sorted[i]);
      assert sorted[..i + 1] == sorted[..i] + [sorted[i]];
      stream := stream + Frame(sorted[i]);
    }
    assert sorted[..|sorted|] == sorted;
  }

  method Feed(inputs: seq<Input>) returns (stream: Bytes)
    ensures stream == Stream(Sort(inputs))
  {
    stream := Update(Sort(inputs));
  }
}
