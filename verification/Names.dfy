/** Names as Python and Rust sort them: code point by code point. */
module Names {
  predicate Less(a: string, b: string) {
    b != "" && (a == "" || a[0] < b[0] || (a[0] == b[0] && Less(a[1..], b[1..])))
  }

  predicate Leq(a: string, b: string) {
    a == b || Less(a, b)
  }

  lemma {:induction false} Irreflexive(a: string)
    ensures !Less(a, a)
  {
    if a != "" {
      Irreflexive(a[1..]);
    }
  }

  lemma {:induction false} Transitive(a: string, b: string, c: string)
    requires Less(a, b) && Less(b, c)
    ensures Less(a, c)
  {
    if a != "" && a[0] == b[0] == c[0] {
      Transitive(a[1..], b[1..], c[1..]);
    }
  }

  lemma {:induction false} Connected(a: string, b: string)
    ensures a == b || Less(a, b) || Less(b, a)
  {
    if a != "" && b != "" && a[0] == b[0] {
      Connected(a[1..], b[1..]);
      assert a == [a[0]] + a[1..] && b == [b[0]] + b[1..];
    }
  }

  /** The first name of a set in sorted order. */
  method Least(names: set<string>) returns (least: string)
    requires names != {}
    ensures least in names && forall n | n in names :: Leq(least, n)
  {
    least :| least in names;
    var left := names - {least};
    while left != {}
      invariant least in names && left <= names
      invariant forall n | n in names - left :: Leq(least, n)
      decreases left
    {
      var n :| n in left;
      Connected(least, n);
      if Less(n, least) {
        forall m | m in names - left ensures Leq(n, m) {
          if Less(least, m) {
            Transitive(n, least, m);
          }
        }
        least := n;
      }
      left := left - {n};
    }
  }
}
