/** The stream that `source_digest` hashes, and when the order of directory entries shows in it. */
module SourceStreams {
  import opened Wrappers
  import opened Digest
  import opened SourceFiles

  function Joined(p: Path): (text: Bytes) {
    if p == [] then [] else if |p| == 1 then p[0] else p[0] + [SLASH] + Joined(p[1..])
  }

  /** The text of a path with every backslash made a slash: what inputs are sorted by. */
  function KeyOf(p: Path): (key: Bytes) {
    var text := Joined(p);
    seq(|text|, i requires 0 <= i < |text| => if text[i] == BACKSLASH then SLASH else text[i])
  }

  function InputAt(root: Node, p: Path): (input: Input) {
    match Find(root, p)
    case Some(File(bytes)) => Input(KeyOf(p), false, bytes)
    case Some(Link(target, _)) => Input(KeyOf(p), true, target)
    case _ => Input(KeyOf(p), false, [])
  }

  function Inputs(root: Node, found: seq<Path>): (inputs: seq<Input>) {
    if found == [] then [] else [InputAt(root, found[0])] + Inputs(root, found[1..])
  }

  lemma {:induction false} InputsAppend(root: Node, a: seq<Path>, b: seq<Path>)
    ensures Inputs(root, a + b) == Inputs(root, a) + Inputs(root, b)
  {
    if a == [] {
      assert a + b == b;
    } else {
      assert (a + b)[1..] == a[1..] + b;
      InputsAppend(root, a[1..], b);
    }
  }

  /** Listings of the same paths give the same inputs, in some order. */
  lemma {:induction false} ListingsPermute(root: Node, a: seq<Path>, b: seq<Path>)
    requires Distinct(a) && Distinct(b) && forall p :: p in a <==> p in b
    ensures Permutes(Inputs(root, a), Inputs(root, b))
    decreases |a|
  {
    assert b != [] ==> b[0] in a;
    if a != [] {
      var p := a[0];
      assert p in b;
      var j :| 0 <= j < |b| && b[j] == p;
      SameWithout(a, b, j);
      ListingsPermute(root, a[1..], b[..j] + b[j + 1..]);
      assert a[..0] + a[1..] == a[1..];
      OneOut(root, a, 0);
      OneOut(root, b, j);
    }
  }

  lemma OneOut(root: Node, found: seq<Path>, j: nat)
    requires j < |found|
    ensures multiset(Inputs(root, found)) ==
      multiset(Inputs(root, found[..j] + found[j + 1..])) + multiset{InputAt(root, found[j])}
  {
    var front, back := found[..j], found[j + 1..];
    assert found == front + [found[j]] + back;
    InputsAppend(root, front + [found[j]], back);
    InputsAppend(root, front, [found[j]]);
    InputsAppend(root, front, back);
    assert [found[j]][1..] == [];
  }

  lemma SameWithout(a: seq<Path>, b: seq<Path>, j: nat)
    requires Distinct(a) && Distinct(b) && forall p :: p in a <==> p in b
    requires a != [] && j < |b| && b[j] == a[0]
    ensures Distinct(a[1..]) && Distinct(b[..j] + b[j + 1..])
    ensures forall p :: p in a[1..] <==> p in b[..j] + b[j + 1..]
  {
    var rest := b[..j] + b[j + 1..];
    assert forall i | 0 <= i < |rest| :: rest[i] == if i < j then b[i] else b[i + 1];
    forall p ensures p in a[1..] <==> p in rest {
      assert p in a[1..] <==> p in a && p != a[0];
      if p in b && p != b[j] {
        var i :| 0 <= i < |b| && b[i] == p;
        assert rest[if i < j then i else i - 1] == p;
      }
    }
  }

  ghost function StreamOf(root: Node, listing: seq<Path>): (stream: Bytes) {
    Stream(Sort(Inputs(root, listing)))
  }

  /** What the build script hashes; the only such stream where keys tell inputs apart. */
  method SourceStream(root: Node) returns (stream: Bytes)
    ensures exists found: seq<Path> :: WalksTree(root, PLACES, found) && stream == StreamOf(root, found)
    ensures forall found: seq<Path> | WalksTree(root, PLACES, found) && KeysTell(Inputs(root, found)) ::
      stream == StreamOf(root, found)
  {
    PlacesSpread();
    var found := Collect(root);
    stream := Feed(Inputs(root, found));
    forall other: seq<Path> | WalksTree(root, PLACES, other) && KeysTell(Inputs(root, other))
      ensures stream == StreamOf(root, other)
    {
      WalksAlike(root, PLACES, other, found);
    }
  }

  lemma WalksAlike(root: Node, places: seq<Path>, found: seq<Path>, other: seq<Path>)
    requires Spread(places) && WalksTree(root, places, found) && WalksTree(root, places, other)
    requires KeysTell(Inputs(root, found))
    ensures StreamOf(root, other) == StreamOf(root, found)
  {
    TreeLists(root, places, found);
    TreeLists(root, places, other);
    ListingsPermute(root, other, found);
    SortsAlike(Inputs(root, found), Inputs(root, other));
  }

  // ----- exactly when the order of the directories does not matter

  /** A name without either separator. */
  predicate Plain(name: Name) {
    SLASH !in name && BACKSLASH !in name
  }

  lemma {:induction false} InputFrom(root: Node, found: seq<Path>, input: Input) returns (p: Path)
    requires input in Inputs(root, found)
    ensures p in found && input == InputAt(root, p)
  {
    if input == InputAt(root, found[0]) {
      p := found[0];
    } else {
      p := InputFrom(root, found[1..], input);
    }
  }

  /** The first input with a key is the first one with it in the sorted list. */
  lemma {:induction false} FirstWithKey(s: seq<Input>, k: nat)
    requires k < |s| && forall j | 0 <= j < k :: s[j].key != s[k].key
    ensures WithKey(s, s[k].key) != [] && WithKey(s, s[k].key)[0] == s[k]
  {
    var n := |s| - 1;
    if k < n {
      FirstWithKey(s[..n], k);
    } else {
      NoneWithKey(s[..n], s[k].key);
    }
  }

  lemma {:induction false} NoneWithKey(s: seq<Input>, key: Bytes)
    requires forall j | 0 <= j < |s| :: s[j].key != key
    ensures WithKey(s, key) == []
  {
    if s != [] {
      NoneWithKey(s[..|s| - 1], key);
    }
  }

  lemma {:induction false} InputsAt(root: Node, found: seq<Path>)
    ensures |Inputs(root, found)| == |found|
    ensures forall j | 0 <= j < |found| :: Inputs(root, found)[j] == InputAt(root, found[j])
  {
    if found != [] {
      InputsAt(root, found[1..]);
    }
  }

  /** Inputs of different places have different keys. */
  lemma KeysApart(p: Path, q: Path)
    requires p != [] && q != [] && Plain(p[0]) && Plain(q[0]) && KeyOf(p) == KeyOf(q)
    ensures p[0] == q[0]
  {
    if |p[0]| < |q[0]| {
      KeyGoesOn(p, q);
    } else if |q[0]| < |p[0]| {
      KeyGoesOn(q, p);
    } else {
      forall i | 0 <= i < |p[0]| ensures p[0][i] == q[0][i] {
        KeyStarts(p, i);
        KeyStarts(q, i);
      }
    }
  }

  lemma KeyStarts(p: Path, i: nat)
    requires p != [] && Plain(p[0]) && i < |p[0]|
    ensures i < |KeyOf(p)| && KeyOf(p)[i] == p[0][i]
  {
    assert Joined(p)[i] == p[0][i];
  }

  lemma KeyGoesOn(p: Path, q: Path)
    requires p != [] && q != [] && Plain(p[0]) && Plain(q[0]) && |p[0]| < |q[0]|
    ensures KeyOf(p) != KeyOf(q)
  {
    var i := |p[0]|;
    KeyStarts(q, i);
    assert |p| > 1 ==> Joined(p)[i] == SLASH;
  }

  /** The places lie in different entries of the root, whose names hold no separator. */
  ghost predicate Apart(places: seq<Path>) {
    Spread(places) && forall i | 0 <= i < |places| :: Plain(places[i][0])
  }

  lemma AsciiIsPlain(s: string)
    requires forall i | 0 <= i < |s| :: s[i] < 128 as char && s[i] != '/' && s[i] != '\\'
    ensures Plain(Ascii(s))
  {
  }

  lemma PlacesApart()
    ensures Apart(PLACES)
  {
    PlacesSpread();
    AsciiIsPlain("Cargo.toml");
    AsciiIsPlain("Cargo.lock");
    AsciiIsPlain("build.rs");
    AsciiIsPlain("src");
    AsciiIsPlain("crates");
    AsciiIsPlain("build_support");
    AsciiIsPlain("protocol");
  }

  lemma EarlierKeys(root: Node, places: seq<Path>, i: nat, before: seq<Path>, q: Path, p: Path)
    requires Apart(places) && i < |places| && ListsTree(root, places[..i], before) && q in before
    requires FromPlace(root, places[i], p)
    ensures KeyOf(q) != KeyOf(p)
  {
    var m :| 0 <= m < i && FromPlace(root, places[..i][m], q);
    assert places[..i][m] == places[m];
    assert q[0] == places[m][0] && p[0] == places[i][0];
    if KeyOf(q) == KeyOf(p) {
      KeysApart(q, p);
    }
  }

  lemma NoneEarlier(root: Node, places: seq<Path>, i: nat, found: seq<Path>, k: nat)
    requires Apart(places) && i < |places| && k < |found| && WalksTree(root, places[..i], found[..k])
    requires FromPlace(root, places[i], found[k])
    ensures forall j | 0 <= j < k :: KeyOf(found[j]) != KeyOf(found[k])
  {
    TreeLists(root, places[..i], found[..k]);
    forall j | 0 <= j < k ensures KeyOf(found[j]) != KeyOf(found[k]) {
      assert found[j] == found[..k][j];
      EarlierKeys(root, places, i, found[..k], found[j], found[k]);
    }
  }

  ghost predicate Leads(inputs: seq<Input>, input: Input) {
    WithKey(inputs, input.key) != [] && WithKey(inputs, input.key)[0] == input
  }

  lemma LeadsAt(root: Node, found: seq<Path>, k: nat)
    requires k < |found| && forall j | 0 <= j < k :: KeyOf(found[j]) != KeyOf(found[k])
    ensures Leads(Inputs(root, found), InputAt(root, found[k]))
  {
    InputsAt(root, found);
    FirstWithKey(Inputs(root, found), k);
  }

  /** A walk in which a given input is the first one with its key. */
  lemma WalkTo(root: Node, places: seq<Path>, found: seq<Path>, input: Input) returns (one: seq<Path>)
    requires Apart(places) && WalksTree(root, places, found) && input in Inputs(root, found)
    ensures WalksTree(root, places, one) && Leads(Inputs(root, one), input)
  {
    var p := InputFrom(root, found, input);
    TreeLists(root, places, found);
    var i :| 0 <= i < |places| && FromPlace(root, places[i], p);
    var k: nat;
    one, k := FirstInPlace(root, places, i, p);
    NoneEarlier(root, places, i, one, k);
    LeadsAt(root, one, k);
  }

  ghost predicate AllAgree(root: Node, places: seq<Path>) {
    forall one, two | WalksTree(root, places, one) && WalksTree(root, places, two) ::
      StreamOf(root, one) == StreamOf(root, two)
  }

  lemma WalksAgreeIff(root: Node, places: seq<Path>, found: seq<Path>)
    requires Apart(places) && WalksTree(root, places, found) && forall e | e in Inputs(root, found) :: Short(e)
    ensures AllAgree(root, places) <==> KeysTell(Inputs(root, found))
  {
    if KeysTell(Inputs(root, found)) {
      forall one, two | WalksTree(root, places, one) && WalksTree(root, places, two)
        ensures StreamOf(root, one) == StreamOf(root, two)
      {
        WalksAlike(root, places, found, one);
        WalksAlike(root, places, found, two);
      }
    } else {
      var a, b :| a in Inputs(root, found) && b in Inputs(root, found) && a.key == b.key && a != b;
      var one := WalkTo(root, places, found, a);
      var two := WalkTo(root, places, found, b);
      FirstsDiffer(root, places, found, one, two, a.key);
    }
  }

  lemma FirstsDiffer(root: Node, places: seq<Path>, found: seq<Path>, one: seq<Path>, two: seq<Path>, key: Bytes)
    requires Apart(places) && WalksTree(root, places, found) && forall e | e in Inputs(root, found) :: Short(e)
    requires WalksTree(root, places, one) && WalksTree(root, places, two)
    requires WithKey(Inputs(root, one), key) != WithKey(Inputs(root, two), key)
    ensures StreamOf(root, one) != StreamOf(root, two)
  {
    SortedWalk(root, places, found, one);
    SortedWalk(root, places, found, two);
    SortIsStable(Inputs(root, one), key);
    SortIsStable(Inputs(root, two), key);
    StreamIsUnique(Sort(Inputs(root, one)), Sort(Inputs(root, two)));
  }

  lemma SortedWalk(root: Node, places: seq<Path>, found: seq<Path>, other: seq<Path>)
    requires Apart(places) && WalksTree(root, places, found) && forall e | e in Inputs(root, found) :: Short(e)
    requires WalksTree(root, places, other)
    ensures forall i | 0 <= i < |Sort(Inputs(root, other))| :: Short(Sort(Inputs(root, other))[i])
  {
    TreeLists(root, places, found);
    TreeLists(root, places, other);
    ListingsPermute(root, other, found);
    SortedShort(Inputs(root, found), Inputs(root, other));
  }

  /** Every order of reading the directories gives the same stream exactly when keys tell the inputs apart. */
  lemma TreeOrderFreeIff(root: Node, found: seq<Path>)
    requires WalksTree(root, PLACES, found) && forall e | e in Inputs(root, found) :: Short(e)
    ensures AllAgree(root, PLACES) <==> KeysTell(Inputs(root, found))
  {
    PlacesApart();
    WalksAgreeIff(root, PLACES, found);
  }

  // ----- keys and backslashes

  /** Joined names come apart at the first separator. */
  lemma {:induction false} JoinedIsUnique(p: Path, q: Path)
    requires p != [] && q != [] && Joined(p) == Joined(q)
    requires (forall n | n in p :: SLASH !in n) && forall n | n in q :: SLASH !in n
    ensures p == q
  {
    assert |p| > 1 ==> |Joined(p)| > |p[0]|;
    assert |q| > 1 ==> |Joined(q)| > |q[0]|;
    SameFirst(p, q);
    assert p[0] == Joined(p)[..|p[0]|] && q[0] == Joined(q)[..|q[0]|];
    if |p| > 1 && |q| > 1 {
      assert Joined(p[1..]) == Joined(p)[|p[0]| + 1..] && Joined(q[1..]) == Joined(q)[|q[0]| + 1..];
      JoinedIsUnique(p[1..], q[1..]);
      assert p == [p[0]] + p[1..] && q == [q[0]] + q[1..];
    }
  }

  lemma SameFirst(p: Path, q: Path)
    requires p != [] && q != [] && Joined(p) == Joined(q) && SLASH !in p[0] && SLASH !in q[0]
    ensures |p[0]| == |q[0]|
  {
    if |p[0]| < |q[0]| {
      LongerHasSlash(p, q);
    } else if |q[0]| < |p[0]| {
      LongerHasSlash(q, p);
    }
  }

  lemma LongerHasSlash(p: Path, q: Path)
    requires p != [] && q != [] && Joined(p) == Joined(q) && |p[0]| < |q[0]|
    ensures SLASH in q[0]
  {
    assert |Joined(q)| >= |q[0]| && |p| > 1;
    assert Joined(p)[|p[0]|] == SLASH;
    assert q[0][|p[0]|] == Joined(q)[|p[0]|];
  }

  lemma {:induction false} PlainJoined(p: Path, b: byte)
    requires b != SLASH && forall n | n in p :: b !in n
    ensures b !in Joined(p)
  {
    if |p| > 1 {
      PlainJoined(p[1..], b);
    }
  }

  lemma PlainKey(p: Path)
    requires forall n | n in p :: Plain(n)
    ensures KeyOf(p) == Joined(p)
  {
    PlainJoined(p, BACKSLASH);
  }

  /** Where no name on the way to an input has a backslash, keys tell the inputs apart. */
  lemma NoBackslashTells(root: Node, found: seq<Path>)
    requires forall p | p in found :: p != [] && forall n | n in p :: Plain(n)
    ensures KeysTell(Inputs(root, found))
  {
    forall a, b | a in Inputs(root, found) && b in Inputs(root, found) && a.key == b.key ensures a == b {
      var p := InputFrom(root, found, a);
      var q := InputFrom(root, found, b);
      PlainKey(p);
      PlainKey(q);
      JoinedIsUnique(p, q);
    }
  }

  const SRC: Name := Ascii("src")
  const A: Name := [97]
  const B: Name := [98]
  const A_BACKSLASH_B: Name := [97, 92, 98]

  const A_DIR := Dir(map[B := File([2])])
  const SRC_DIR := Dir(map[A_BACKSLASH_B := File([1]), A := A_DIR])

  /** The files `src/a/b` and `src/a\b`. */
  function TwoFiles(): Node {
    Dir(map[SRC := SRC_DIR])
  }

  const ONE: Path := [SRC, A_BACKSLASH_B]
  const TWO: Path := [SRC, A, B]

  lemma NotExcluded()
    ensures A !in EXCLUDED && B !in EXCLUDED && A_BACKSLASH_B !in EXCLUDED
  {
    assert |Ascii("target")| == 6 && |Ascii(".git")| == 4 && |Ascii("__pycache__")| == 11;
    assert |Ascii(".venv")| == 5 && |Ascii(".regen-venv")| == 11;
  }

  lemma WalksSrc(listing: seq<Path>)
    requires listing == [ONE, TWO] || listing == [TWO, ONE]
    ensures Walks(SRC_DIR, [SRC], listing)
  {
    NotExcluded();
    assert [SRC, A] + [B] == TWO && [SRC] + [A_BACKSLASH_B] == ONE && [SRC] + [A] == [SRC, A];
    EntryAdded(A_DIR, [SRC, A], {}, B, [], [TWO]);
    assert {} + {B} == A_DIR.children.Keys && [] + [TWO] == [TWO];
    var names := {A, A_BACKSLASH_B};
    assert names == SRC_DIR.children.Keys;
    if listing == [ONE, TWO] {
      EntryAdded(SRC_DIR, [SRC], {}, A_BACKSLASH_B, [], [ONE]);
      EntryAdded(SRC_DIR, [SRC], {} + {A_BACKSLASH_B}, A, [] + [ONE], [TWO]);
      assert {} + {A_BACKSLASH_B} + {A} == names && [] + [ONE] + [TWO] == listing;
    } else {
      EntryAdded(SRC_DIR, [SRC], {}, A, [], [TWO]);
      EntryAdded(SRC_DIR, [SRC], {} + {A}, A_BACKSLASH_B, [] + [TWO], [ONE]);
      assert {} + {A} + {A_BACKSLASH_B} == names && [] + [TWO] + [ONE] == listing;
    }
  }

  lemma {:induction false} NothingMore(root: Node, places: seq<Path>, n: nat, m: nat, found: seq<Path>)
    requires n <= m <= |places| && WalksTree(root, places[..n], found)
    requires forall i | n <= i < m :: WalksPlace(root, places[i], [])
    ensures WalksTree(root, places[..m], found)
  {
    if n < m {
      NothingMore(root, places, n, m - 1, found);
      PlaceAdded(root, places, m - 1, found, []);
      assert found + [] == found;
    }
  }

  lemma WalksTwoFiles(listing: seq<Path>)
    requires listing == [ONE, TWO] || listing == [TWO, ONE]
    ensures WalksTree(TwoFiles(), PLACES, listing)
  {
    var root := TwoFiles();
    PlacesSpread();
    assert PLACES[3] == [SRC] && PLACES[3][1..] == [] && Find(root, PLACES[3]) == Some(SRC_DIR);
    forall i | 0 <= i < |PLACES| && i != 3 ensures WalksPlace(root, PLACES[i], []) {
      assert PLACES[i][0] != SRC;
    }
    WalksSrc(listing);
    assert PLACES[..0] == [];
    NothingMore(root, PLACES, 0, 3, []);
    PlaceAdded(root, PLACES, 3, [], listing);
    assert [] + listing == listing;
    NothingMore(root, PLACES, 4, 7, listing);
    assert PLACES[..7] == PLACES;
  }

  /** Two files whose keys are the same text: the stream depends on which of them is listed first. */
  lemma BackslashMatters()
    ensures WalksTree(TwoFiles(), PLACES, [ONE, TWO]) && WalksTree(TwoFiles(), PLACES, [TWO, ONE])
    ensures StreamOf(TwoFiles(), [ONE, TWO]) != StreamOf(TwoFiles(), [TWO, ONE])
  {
    var root := TwoFiles();
    WalksTwoFiles([ONE, TWO]);
    WalksTwoFiles([TWO, ONE]);
    var a, b := InputAt(root, ONE), InputAt(root, TWO);
    SameKeyTwice();
    assert [ONE, TWO][1..] == [TWO] && [TWO, ONE][1..] == [ONE] && [ONE][1..] == [] && [TWO][1..] == [];
    assert Inputs(root, [ONE]) == [a] && Inputs(root, [TWO]) == [b];
    assert Inputs(root, [ONE, TWO]) == [] + [a, b] && Inputs(root, [TWO, ONE]) == [] + [b, a];
    SortedShort([] + [a, b], [] + [a, b]);
    SortedShort([] + [b, a], [] + [b, a]);
    OrdersDiffer([], a, b);
  }

  lemma SameKeyTwice()
    ensures InputAt(TwoFiles(), ONE).key == InputAt(TwoFiles(), TWO).key
    ensures InputAt(TwoFiles(), ONE) != InputAt(TwoFiles(), TWO)
    ensures Short(InputAt(TwoFiles(), ONE)) && Short(InputAt(TwoFiles(), TWO))
  {
    assert ONE[1..] == [A_BACKSLASH_B] && TWO[1..] == [A, B] && [A, B][1..] == [B];
    assert Joined([A, B]) == A + [SLASH] + B;
    assert Joined(ONE) == SRC + [SLASH] + A_BACKSLASH_B;
    assert Joined(TWO) == TWO[0] + [SLASH] + Joined(TWO[1..]);
    assert KeyOf(ONE) == KeyOf(TWO);
    assert Find(A_DIR, [B]) == Some(File([2])) && Find(SRC_DIR, [A, B]) == Some(File([2]));
    assert Find(SRC_DIR, [A_BACKSLASH_B]) == Some(File([1]));
    assert Find(TwoFiles(), ONE) == Some(File([1])) && Find(TwoFiles(), TWO) == Some(File([2]));
  }
}
