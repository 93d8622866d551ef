/** The allowlist of `check_cfg_boundaries.py`: `load_allowlist` and `totals`. */
module Allowlists {
  import opened Roots

  datatype Key = Key(repo: string, path: Path, attrs: string, item: string) {
    predicate Complete() {
      repo != "" && attrs != "" && item != ""
    }

    function Target(): Group {
      Group(repo, attrs, item)
    }
  }

  /** What debt is counted by, whichever file it is in. */
  datatype Group = Group(repo: string, attrs: string, item: string)

  datatype Entry = Entry(key: Key, count: int)

  /** A repository's place and the roots to scan in it, normalized. */
  datatype Repo = Repo(place: Path, roots: seq<Path>)

  datatype Allowlist = Allowlist(repos: map<string, Repo>, entries: seq<Entry>)

  // ----- loading

  function Keys(entries: seq<Entry>): (keys: set<Key>) {
    set e | e in entries :: e.key
  }

  ghost predicate Distinct(entries: seq<Entry>) {
    forall i, j | 0 <= i < j < |entries| :: entries[i].key != entries[j].key
  }

  /** The list is one that `load_allowlist` finds no fault with. */
  ghost predicate Loads(list: Allowlist) {
    && list.repos.Keys != {}
    && (forall name | name in list.repos :: list.repos[name].roots != [])
    && Distinct(list.entries)
    && forall e | e in list.entries :: e.key.Complete() && e.key.repo in list.repos && e.count >= 1
  }

  method Load(list: Allowlist) returns (ok: bool)
    ensures ok <==> Loads(list)
  {
    if list.repos.Keys == {} || exists name | name in list.repos :: list.repos[name].roots == [] {
      return false;
    }
    var seen: set<Key> := {};
    for i := 0 to |list.entries|
      invariant seen == Keys(list.entries[..i]) && Distinct(list.entries[..i])
      invariant forall e | e in list.entries[..i] :: e.key.Complete() && e.key.repo in list.repos && e.count >= 1
    {
      var e := list.entries[i];
      assert list.entries[..i + 1] == list.entries[..i] + [e];
      if !e.key.Complete() || e.key.repo !in list.repos || e.count < 1 {
        assert e in list.entries;
        return false;
      }
      if e.key in seen {
        var j :| 0 <= j < i && list.entries[j].key == e.key;
        return false;
      }
      seen := seen + {e.key};
    }
    assert list.entries[..|list.entries|] == list.entries;
    ok := true;
  }

  // ----- counting

  /** The allowed count of a group, summed over files. */
  function Allowed(entries: seq<Entry>, g: Group): (n: int) {
    if entries == [] then 0
    else (if entries[0].key.Target() == g then entries[0].count else 0) + Allowed(entries[1..], g)
  }

  lemma {:induction false} AllowedAppend(a: seq<Entry>, b: seq<Entry>, g: Group)
    ensures Allowed(a + b, g) == Allowed(a, g) + Allowed(b, g)
  {
    if a == [] {
      assert a + b == b;
    } else {
      assert (a + b)[1..] == a[1..] + b;
      AllowedAppend(a[1..], b, g);
    }
  }

  lemma {:induction false} AllowedIsPositive(entries: seq<Entry>, g: Group)
    requires forall e | e in entries :: e.count >= 1
    ensures Allowed(entries, g) >= 0
    ensures Allowed(entries, g) > 0 <==> exists e :: e in entries && e.key.Target() == g
  {
    if entries != [] {
      AllowedIsPositive(entries[1..], g);
      assert forall e | e in entries :: e == entries[0] || e in entries[1..];
    }
  }

  method Totals(entries: seq<Entry>) returns (summed: map<Group, int>)
    ensures forall g :: g in summed <==> exists e :: e in entries && e.key.Target() == g
    ensures forall g | g in summed :: summed[g] == Allowed(entries, g)
  {
    summed := map[];
    for i := 0 to |entries|
      invariant forall g :: g in summed <==> exists e :: e in entries[..i] && e.key.Target() == g
      invariant forall g :: (if g in summed then summed[g] else 0) == Allowed(entries[..i], g)
    {
      var e := entries[i];
      var g := e.key.Target();
      assert entries[..i + 1] == entries[..i] + [e];
      forall h ensures Allowed(entries[..i + 1], h) == Allowed(entries[..i], h) + if g == h then e.count else 0 {
        AllowedAppend(entries[..i], [e], h);
      }
      summed := summed[g := (if g in summed then summed[g] else 0) + e.count];
    }
    assert entries[..|entries|] == entries;
  }

  // ----- one key

  function CountOf(entries: seq<Entry>, k: Key): (n: int) {
    if entries == [] then 0
    else if entries[0].key == k then entries[0].count
    else CountOf(entries[1..], k)
  }

  lemma {:induction false} Absent(entries: seq<Entry>, k: Key)
    requires forall e | e in entries :: e.key != k
    ensures CountOf(entries, k) == 0
  {
    if entries != [] {
      Absent(entries[1..], k);
    }
  }

  lemma {:induction false} Listed(entries: seq<Entry>, k: Key)
    requires CountOf(entries, k) != 0
    ensures exists e :: e in entries && e.key == k
  {
    if entries[0].key == k {
      assert entries[0] in entries;
    } else {
      Listed(entries[1..], k);
      var e :| e in entries[1..] && e.key == k;
      assert e in entries;
    }
  }
}
