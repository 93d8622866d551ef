/**
 `blank`: Rust source with comments, strings and character literals wiped, offsets kept.

 `isAlnum` stands for Python's `str.isalnum`; nothing here depends on which characters it holds for.
 */
module Mask {
  import opened Wrappers

  const MAX_HASHES := 10

  // ----- where the token that starts at an offset ends

  /** The first `c` at or after `i`, or the end. */
  function Find(s: string, c: char, i: nat): (e: nat)
    requires i <= |s|
    ensures i <= e <= |s| && (e < |s| ==> s[e] == c) && forall k | i <= k < e :: s[k] != c
    decreases |s| - i
  {
    if i == |s| || s[i] == c then i else Find(s, c, i + 1)
  }

  predicate At(s: string, i: nat, a: char, b: char) {
    i + 1 < |s| && s[i] == a && s[i + 1] == b
  }

  /** Past a block comment `depth` deep at `j`; comments nest. */
  function CommentEnd(s: string, j: nat, depth: nat): (e: nat)
    requires j <= |s|
    ensures j <= e <= |s|
    decreases |s| - j
  {
    if j == |s| || depth == 0 then j
    else if At(s, j, '/', '*') then CommentEnd(s, j + 2, depth + 1)
    else if At(s, j, '*', '/') then CommentEnd(s, j + 2, depth - 1)
    else CommentEnd(s, j + 1, depth)
  }

  function Hashes(s: string, i: nat): (h: nat)
    requires i <= |s|
    ensures i + h <= |s|
    decreases |s| - i
  {
    if i < |s| && s[i] == '#' then 1 + Hashes(s, i + 1) else 0
  }

  /** Past the first quote at or after `j` that `h` hashes follow. */
  function RawEnd(s: string, h: nat, j: nat): (e: nat)
    requires j <= |s|
    ensures j <= e <= |s|
    decreases |s| - j
  {
    if j == |s| then j
    else if s[j] == '"' && Hashes(s, j + 1) >= h then j + 1 + h
    else RawEnd(s, h, j + 1)
  }

  predicate RawStart(s: string, isAlnum: char -> bool, i: nat)
    requires i < |s|
  {
    && s[i] == 'r'
    && (var h := Hashes(s, i + 1); h <= MAX_HASHES && i + 1 + h < |s| && s[i + 1 + h] == '"')
    && (i == 0 || !(isAlnum(s[i - 1]) || s[i - 1] == '_'))
  }

  /** Past the closing quote of a string whose text goes on at `j`; a backslash takes the next character with it. */
  function StringEnd(s: string, j: nat): (e: nat)
    ensures e <= |s| && (j < |s| ==> j < e)
    decreases |s| - j
  {
    if j >= |s| then |s|
    else if s[j] == '"' then j + 1
    else StringEnd(s, if s[j] == '\\' then j + 2 else j + 1)
  }

  /** Past the character literal at `i`; a quote that starts none is a lifetime's. */
  function LiteralEnd(s: string, i: nat): (e: Option<nat>)
    requires i < |s|
    ensures e.Some? ==> i + 3 <= e.value <= |s|
  {
    if i + 2 >= |s| then None
    else if s[i + 1] == '\\' then
      if s[i + 2] != '\n' && Find(s, '\'', i + 3) < |s| then Some(Find(s, '\'', i + 3) + 1) else None
    else if s[i + 1] != '\'' && s[i + 2] == '\'' then Some(i + 3)
    else None
  }

  /** The end of the text wiped from offset `i` on, if a comment or a literal starts there. */
  function WipeEnd(s: string, isAlnum: char -> bool, i: nat): (e: Option<nat>)
    requires i < |s|
    ensures e.Some? ==> i < e.value <= |s| && (e.value == |s| || i + 2 <= e.value)
  {
    if At(s, i, '/', '/') then Some(Find(s, '\n', i + 2))
    else if At(s, i, '/', '*') then Some(CommentEnd(s, i + 2, 1))
    else if RawStart(s, isAlnum, i) then Some(RawEnd(s, Hashes(s, i + 1), i + 2 + Hashes(s, i + 1)))
    else if s[i] == '"' then Some(StringEnd(s, i + 1))
    else if s[i] == '\'' then LiteralEnd(s, i)
    else None
  }

  /** The next offset the scan looks at. */
  function Next(s: string, isAlnum: char -> bool, i: nat): (e: nat)
    requires i < |s|
    ensures i < e <= |s|
  {
    if WipeEnd(s, isAlnum, i).Some? then WipeEnd(s, isAlnum, i).value else i + 1
  }

  /** The last offset the scan from `i` looks at that is not past `k`. */
  function Start(s: string, isAlnum: char -> bool, i: nat, k: nat): (t: nat)
    requires i <= k < |s|
    ensures i <= t <= k < Next(s, isAlnum, t)
    decreases |s| - i
  {
    if k < Next(s, isAlnum, i) then i else Start(s, isAlnum, Next(s, isAlnum, i), k)
  }

  predicate Wiped(s: string, isAlnum: char -> bool, k: nat)
    requires k < |s|
  {
    WipeEnd(s, isAlnum, Start(s, isAlnum, 0, k)).Some?
  }

  /** Every character by itself: a space where it is wiped, except that newlines stay. */
  function Masked(s: string, isAlnum: char -> bool): (out: string) {
    seq(|s|, k requires 0 <= k < |s| => if s[k] != '\n' && Wiped(s, isAlnum, k) then ' ' else s[k])
  }

  // ----- the scan

  method Wipe(out: array<char>, start: nat, end: nat)
    requires start <= end <= out.Length
    modifies out
    ensures forall k | 0 <= k < out.Length ::
      out[k] == if start <= k < end && old(out[k]) != '\n' then ' ' else old(out[k])
  {
    for k := start to end
      invariant forall m | 0 <= m < out.Length ::
        out[m] == if start <= m < k && old(out[m]) != '\n' then ' ' else old(out[m])
    {
      if out[k] != '\n' {
        out[k] := ' ';
      }
    }
  }

  method EndOfComment(s: string, i: nat) returns (j: nat)
    requires i + 2 <= |s|
    ensures j == CommentEnd(s, i + 2, 1)
  {
    var depth: nat := 1;
    j := i + 2;
    while j < |s| && depth != 0
      invariant j <= |s| && CommentEnd(s, j, depth) == CommentEnd(s, i + 2, 1)
      decreases |s| - j
    {
      if At(s, j, '/', '*') {
        depth, j := depth + 1, j + 2;
      } else if At(s, j, '*', '/') {
        depth, j := depth - 1, j + 2;
      } else {
        j := j + 1;
      }
    }
  }

  method EndOfString(s: string, i: nat) returns (end: nat)
    requires i < |s|
    ensures end == StringEnd(s, i + 1)
  {
    var j := i + 1;
    while j < |s| && s[j] != '"'
      invariant StringEnd(s, j) == StringEnd(s, i + 1)
      decreases |s| - j
    {
      j := j + if s[j] == '\\' then 2 else 1;
    }
    end := if j + 1 < |s| then j + 1 else |s|;
  }

  /** Where the text to wipe at `i` ends, found with the loops of the scan. */
  method Token(s: string, isAlnum: char -> bool, i: nat) returns (end: Option<nat>)
    requires i < |s|
    ensures end == WipeEnd(s, isAlnum, i)
  {
    if At(s, i, '/', '/') {
      end := Some(Find(s, '\n', i + 2));
    } else if At(s, i, '/', '*') {
      var j := EndOfComment(s, i);
      end := Some(j);
    } else if RawStart(s, isAlnum, i) {
      end := Some(RawEnd(s, Hashes(s, i + 1), i + 2 + Hashes(s, i + 1)));
    } else if s[i] == '"' {
      var j := EndOfString(s, i);
      end := Some(j);
    } else if s[i] == '\'' {
      end := LiteralEnd(s, i);
    } else {
      end := None;
    }
  }

  /** The mask, computed in place: of the same length, with the same newlines. */
  method Blank(source: string, isAlnum: char -> bool) returns (text: string)
    ensures text == Masked(source, isAlnum)
    ensures |text| == |source| && forall k | 0 <= k < |source| :: text[k] == '\n' <==> source[k] == '\n'
    ensures forall k | 0 <= k < |source| :: text[k] == source[k] || text[k] == ' '
  {
    var out := new char[|source|](k requires 0 <= k < |source| => source[k]);
    var i := 0;
    while i < |source|
      invariant i <= |source| == out.Length
      invariant i < |source| ==> Start(source, isAlnum, 0, i) == i
      invariant forall k | i <= k < |source| :: out[k] == source[k]
      invariant forall k | 0 <= k < i :: out[k] == Masked(source, isAlnum)[k]
    {
      var end := Token(source, isAlnum, i);
      TokenMasked(source, isAlnum, i);
      if end.Some? {
        Wipe(out, i, end.value);
        i := end.value;
      } else {
        i := i + 1;
      }
    }
    text := out[..];
  }

  lemma {:induction false} StartAgain(s: string, isAlnum: char -> bool, i: nat, t: nat, k: nat)
    requires i <= t <= k < |s| && Start(s, isAlnum, i, t) == t
    ensures Start(s, isAlnum, i, k) == Start(s, isAlnum, t, k)
    decreases |s| - i
  {
    if i < t {
      StartAgain(s, isAlnum, Next(s, isAlnum, i), t, k);
    }
  }

  /** From a start, everything up to the next one belongs to it, and the next one is a start too. */
  lemma TokenIsOne(s: string, isAlnum: char -> bool, i: nat)
    requires i < |s| && Start(s, isAlnum, 0, i) == i
    ensures forall k | i <= k < Next(s, isAlnum, i) :: Start(s, isAlnum, 0, k) == i
    ensures var n := Next(s, isAlnum, i); n < |s| ==> Start(s, isAlnum, 0, n) == n
  {
    forall k | i <= k <= Next(s, isAlnum, i) && k < |s|
      ensures Start(s, isAlnum, 0, k) == if k < Next(s, isAlnum, i) then i else k
    {
      StartAgain(s, isAlnum, 0, i, k);
    }
  }

  lemma TokenMasked(s: string, isAlnum: char -> bool, i: nat)
    requires i < |s| && Start(s, isAlnum, 0, i) == i
    ensures forall k | i <= k < Next(s, isAlnum, i) ::
      Masked(s, isAlnum)[k] == if s[k] != '\n' && WipeEnd(s, isAlnum, i).Some? then ' ' else s[k]
    ensures var n := Next(s, isAlnum, i); n < |s| ==> Start(s, isAlnum, 0, n) == n
  {
    TokenIsOne(s, isAlnum, i);
  }

  // ----- what the mask guarantees

  /** An offset that keeps its character is a start, and so is the one after it. */
  lemma KeptIsStart(s: string, isAlnum: char -> bool, k: nat)
    requires k < |s| && !Wiped(s, isAlnum, k)
    ensures Start(s, isAlnum, 0, k) == k && WipeEnd(s, isAlnum, k).None?
    ensures k + 1 < |s| ==> Start(s, isAlnum, 0, k + 1) == k + 1
  {
    TokenIsOne(s, isAlnum, k);
  }

  /** Wiped text that starts where a kept character stops is at least two long, or runs to the end. */
  lemma WipedIsLong(s: string, isAlnum: char -> bool, k: nat)
    requires k + 2 < |s| && !Wiped(s, isAlnum, k) && Wiped(s, isAlnum, k + 1)
    ensures Wiped(s, isAlnum, k + 2)
  {
    KeptIsStart(s, isAlnum, k);
    TokenIsOne(s, isAlnum, k + 1);
  }

  /** No string and no comment is left to start anywhere. */
  lemma {:induction false} NothingStarts(s: string, isAlnum: char -> bool, k: nat)
    requires k < |s|
    ensures var out := Masked(s, isAlnum);
      out[k] != '"' && !At(out, k, '/', '/') && !At(out, k, '/', '*')
  {
    if !Wiped(s, isAlnum, k) {
      KeptIsStart(s, isAlnum, k);
    }
  }

  /** A character literal the mask would see in its own output was one in the source already. */
  lemma NoLiteralLeft(s: string, isAlnum: char -> bool, k: nat)
    requires k < |s| && Masked(s, isAlnum)[k] == '\''
    ensures LiteralEnd(Masked(s, isAlnum), k).None?
  {
    var out := Masked(s, isAlnum);
    KeptIsStart(s, isAlnum, k);
    assert LiteralEnd(s, k).None?;
    if LiteralEnd(out, k).Some? {
      if out[k + 1] != '\\' && Wiped(s, isAlnum, k + 1) {
        WipedIsLong(s, isAlnum, k);
      }
    }
  }

  lemma NothingToWipe(s: string, isAlnum: char -> bool, k: nat)
    requires k < |s|
    ensures WipeEnd(Masked(s, isAlnum), isAlnum, k).None?
  {
    var out := Masked(s, isAlnum);
    NothingStarts(s, isAlnum, k);
    if RawStart(out, isAlnum, k) {
      NothingStarts(s, isAlnum, k + 1 + Hashes(out, k + 1));
    } else if out[k] == '\'' {
      NoLiteralLeft(s, isAlnum, k);
    }
  }

  /** Masking what is masked changes nothing. */
  lemma Idempotent(s: string, isAlnum: char -> bool)
    ensures Masked(Masked(s, isAlnum), isAlnum) == Masked(s, isAlnum)
  {
    var out := Masked(s, isAlnum);
    forall k | 0 <= k < |out| ensures !Wiped(out, isAlnum, k) {
      NothingToWipe(s, isAlnum, Start(out, isAlnum, 0, k));
    }
  }

  /** Text in which nothing starts anywhere is left as it is, and any other text is not. */
  lemma UnchangedIff(s: string, isAlnum: char -> bool)
    ensures Masked(s, isAlnum) == s <==> forall k | 0 <= k < |s| :: WipeEnd(s, isAlnum, k).None?
  {
    if k: nat :| k < |s| && WipeEnd(s, isAlnum, k).Some? {
      FirstStarts(s, isAlnum, k);
    } else {
      forall k | 0 <= k < |s| ensures !Wiped(s, isAlnum, k) {
        assert WipeEnd(s, isAlnum, Start(s, isAlnum, 0, k)).None?;
      }
    }
  }

  lemma {:induction false} FirstStarts(s: string, isAlnum: char -> bool, k: nat)
    requires k < |s| && WipeEnd(s, isAlnum, k).Some?
    ensures Masked(s, isAlnum) != s
  {
    if Wiped(s, isAlnum, k) {
      var t := Start(s, isAlnum, 0, k);
      StartIsFixed(s, isAlnum, 0, k);
      assert Masked(s, isAlnum)[t] == ' ' && s[t] != ' ';
    } else {
      KeptIsStart(s, isAlnum, k);
    }
  }

  lemma {:induction false} StartIsFixed(s: string, isAlnum: char -> bool, i: nat, k: nat)
    requires i <= k < |s|
    ensures Start(s, isAlnum, i, Start(s, isAlnum, i, k)) == Start(s, isAlnum, i, k)
    decreases |s| - i
  {
    if Next(s, isAlnum, i) <= k {
      StartIsFixed(s, isAlnum, Next(s, isAlnum, i), k);
    }
  }
}
