/** Temporary names: `IdSource`, its rendering, and `Path::with_extension` on a file name. */
module TempNames {
  import opened Wrappers

  const MAX_U64 := 0xFFFF_FFFF_FFFF_FFFF

  /** The operation's unique numbers: a counter that panics (`None`) rather than repeat. */
  class IdSource {
    const prefix: nat
    var next: nat

    constructor (prefix: nat)
      ensures this.prefix == prefix && next == 0
    {
      this.prefix := prefix;
      next := 0;
    }

    method Unique() returns (r: Option<nat>)
      modifies this
      ensures old(next) < MAX_U64 ==> r == Some(old(next)) && next == old(next) + 1
      ensures old(next) >= MAX_U64 ==> r == None && next == old(next)
    {
      if next < MAX_U64 {
        r := Some(next);
        next := next + 1;
      } else {
        r := None;
      }
    }
  }

  function Digit(d: nat): char
    requires d < 16
  {
    if d < 10 then '0' + d as char else 'a' + (d - 10) as char
  }

  function Hex(n: nat): string {
    (if n < 16 then "" else Hex(n / 16)) + [Digit(n % 16)]
  }

  /** A prefix as sixteen digits. */
  function Hex16(n: nat): string {
    var digits := Hex(n);
    if |digits| >= 16 then digits else seq(16 - |digits|, _ => '0') + digits
  }

  function LastDot(s: string): (i: int)
    ensures -1 <= i < |s|
    ensures i >= 0 ==> s[i] == '.'
    ensures forall j | i < j < |s| :: s[j] != '.'
  {
    if s == "" then -1 else if s[|s| - 1] == '.' then |s| - 1 else LastDot(s[..|s| - 1])
  }

  /** The file name without its extension; a leading dot starts no extension. */
  function Stem(name: string): string {
    if LastDot(name) > 0 then name[..LastDot(name)] else name
  }

  /** The stem with the extension `yaml.{id}.tmp`, where the id is `{prefix:016x}-{sequence:x}`. */
  function Candidate(name: string, prefix: nat, sequence: nat): string {
    Head(name, prefix) + Hex(sequence) + ".tmp"
  }

  function Head(name: string, prefix: nat): string {
    Stem(name) + ".yaml." + Hex16(prefix) + "-"
  }

  /** Reads a digit back; anything else reads as 16. */
  function Value(c: char): nat {
    if '0' <= c <= '9' then c as nat - '0' as nat
    else if 'a' <= c <= 'f' then c as nat - 'a' as nat + 10 else 16
  }

  function Unhex(s: string): nat {
    if s == "" then 0 else 16 * Unhex(s[..|s| - 1]) + Value(s[|s| - 1])
  }

  /** A rendered number reads back as itself, so no two numbers render alike. */
  lemma {:induction false} HexReadsBack(n: nat)
    ensures Unhex(Hex(n)) == n
  {
    var head := if n < 16 then "" else Hex(n / 16);
    assert Hex(n)[..|Hex(n)| - 1] == head;
    assert Value(Digit(n % 16)) == n % 16;
    if n >= 16 {
      HexReadsBack(n / 16);
    }
  }

  lemma SameMiddle(head: string, x: string, y: string, tail: string)
    requires head + x + tail == head + y + tail
    ensures x == y
  {
    assert x == (head + x + tail)[|head|..|head| + |x|];
    assert y == (head + y + tail)[|head|..|head| + |y|];
  }

  /** Two draws of one source never give the same temporary name. */
  lemma CandidatesDiffer(name: string, prefix: nat, a: nat, b: nat)
    requires Candidate(name, prefix, a) == Candidate(name, prefix, b)
    ensures a == b
  {
    SameMiddle(Head(name, prefix), Hex(a), Hex(b), ".tmp");
    HexReadsBack(a);
    HexReadsBack(b);
  }

  /** The temporary is never the target itself. */
  lemma CandidateIsNotTarget(name: string, prefix: nat, sequence: nat)
    ensures Candidate(name, prefix, sequence) != name
  {
    var candidate, stem := Candidate(name, prefix, sequence), Stem(name);
    assert candidate[|stem| + 5] == '.';
    assert |candidate| > |stem| + 5;
  }
}
