/** What the mask takes for a comment or a literal, against a grammar of them. */
module Literals {
  import opened Wrappers
  import opened Mask

  /** `text` stands at offset `i`. */
  predicate Reads(s: string, i: nat, text: string) {
    i + |text| <= |s| && s[i..i + |text|] == text
  }

  lemma ReadsParts(s: string, i: nat, a: string, b: string)
    requires Reads(s, i, a + b)
    ensures Reads(s, i, a) && Reads(s, i + |a|, b)
  {
    assert s[i..i + |a|] == s[i..i + |a + b|][..|a|] == a;
    assert s[i + |a|..i + |a| + |b|] == s[i..i + |a + b|][|a|..] == b;
  }

  // ----- strings

  /** A character of a string's text, or a backslash with whatever it escapes. */
  datatype Unit = Plain(c: char) | Escaped(c: char)

  predicate Allowed(u: Unit) {
    u.Plain? ==> u.c != '"' && u.c != '\\'
  }

  function Spelled(units: seq<Unit>): (text: string) {
    if units == [] then "" else (if units[0].Plain? then [units[0].c] else ['\\', units[0].c]) + Spelled(units[1..])
  }

  lemma {:induction false} StringPassed(s: string, j: nat, units: seq<Unit>)
    requires Reads(s, j, Spelled(units)) && forall i | 0 <= i < |units| :: Allowed(units[i])
    ensures StringEnd(s, j) == StringEnd(s, j + |Spelled(units)|)
    decreases |units|
  {
    if units != [] {
      var first := if units[0].Plain? then [units[0].c] else ['\\', units[0].c];
      ReadsParts(s, j, first, Spelled(units[1..]));
      assert s[j] == first[0] by {
        assert s[j..j + |first|][0] == first[0];
      }
      StringPassed(s, j + |first|, units[1..]);
    }
  }

  /** A string literal is wiped from its quote to its quote, escaped quotes included; an open one to the end. */
  lemma StringIsWiped(s: string, isAlnum: char -> bool, i: nat, units: seq<Unit>)
    requires i < |s| && s[i] == '"' && Reads(s, i + 1, Spelled(units))
    requires forall k | 0 <= k < |units| :: Allowed(units[k])
    ensures var e := i + 1 + |Spelled(units)|;
      && (e < |s| && s[e] == '"' ==> WipeEnd(s, isAlnum, i) == Some(e + 1))
      && (e == |s| ==> WipeEnd(s, isAlnum, i) == Some(|s|))
  {
    StringPassed(s, i + 1, units);
  }

  // ----- block comments

  /** What is inside a block comment: characters, and comments, each with the place where it closes. */
  datatype Inside = End | Char(rest: Inside) | Nested(close: nat, comment: Inside, rest: Inside)

  /** A comment opens or closes here; a slash or a star by itself does neither. */
  predicate Bracket(s: string, j: nat) {
    At(s, j, '/', '*') || At(s, j, '*', '/')
  }

  /** The text from `j` up to `e` is this. */
  predicate Stands(s: string, j: nat, c: Inside, e: nat)
    ensures Stands(s, j, c, e) ==> j <= e
    decreases c
  {
    match c
    case End => j == e
    case Char(rest) => j < |s| && !Bracket(s, j) && Stands(s, j + 1, rest, e)
    case Nested(close, comment, rest) =>
      At(s, j, '/', '*') && Stands(s, j + 2, comment, close) && At(s, close, '*', '/') && Stands(s, close + 2, rest, e)
  }

  /** The comment that opens at `j` closes at `e`. */
  predicate IsComment(s: string, j: nat, c: Inside, e: nat) {
    At(s, j, '/', '*') && Stands(s, j + 2, c, e) && At(s, e, '*', '/')
  }

  lemma {:induction false} InsidePassed(s: string, j: nat, c: Inside, e: nat, depth: nat)
    requires Stands(s, j, c, e) && e <= |s| && depth > 0
    ensures CommentEnd(s, j, depth) == CommentEnd(s, e, depth)
    decreases c
  {
    match c
    case End =>
    case Char(rest) =>
      InsidePassed(s, j + 1, rest, e, depth);
    case Nested(close, comment, rest) =>
      InsidePassed(s, j + 2, comment, close, depth + 1);
      InsidePassed(s, close + 2, rest, e, depth);
  }

  /** A block comment is wiped with all the comments inside it, and no further. */
  lemma CommentIsWiped(s: string, isAlnum: char -> bool, i: nat, c: Inside, e: nat)
    requires IsComment(s, i, c, e)
    ensures i < |s| && WipeEnd(s, isAlnum, i) == Some(e + 2)
  {
    InsidePassed(s, i + 2, c, e, 1);
  }

  /** As many comments close from `j` on as are open. */
  predicate Closes(s: string, j: nat, depth: nat)
    requires j <= |s|
    decreases |s| - j
  {
    depth == 0 ||
    (j < |s| &&
     if At(s, j, '/', '*') then Closes(s, j + 2, depth + 1)
     else if At(s, j, '*', '/') then Closes(s, j + 2, depth - 1)
     else Closes(s, j + 1, depth))
  }

  /** Where as many close as are open, what comes before the first to close is such an inside. */
  lemma {:induction false} ClosedHasShape(s: string, j: nat, depth: nat) returns (c: Inside, e: nat)
    requires j <= |s| && depth > 0 && Closes(s, j, depth)
    ensures Stands(s, j, c, e) && At(s, e, '*', '/') && Closes(s, e + 2, depth - 1)
    decreases |s| - j
  {
    if At(s, j, '/', '*') {
      var inner, close := ClosedHasShape(s, j + 2, depth + 1);
      var rest;
      rest, e := ClosedHasShape(s, close + 2, depth);
      c := Nested(close, inner, rest);
    } else if At(s, j, '*', '/') {
      c, e := End, j;
    } else {
      var rest;
      rest, e := ClosedHasShape(s, j + 1, depth);
      c := Char(rest);
    }
  }

  lemma {:induction false} OpenToTheEnd(s: string, j: nat, depth: nat)
    requires j <= |s| && !Closes(s, j, depth)
    ensures CommentEnd(s, j, depth) == |s|
    decreases |s| - j
  {
    if j < |s| {
      if At(s, j, '/', '*') {
        OpenToTheEnd(s, j + 2, depth + 1);
      } else if At(s, j, '*', '/') {
        OpenToTheEnd(s, j + 2, depth - 1);
      } else {
        OpenToTheEnd(s, j + 1, depth);
      }
    }
  }

  /** A comment is wiped to where it closes; one that closes nowhere is wiped to the end. */
  lemma EveryCommentIsWiped(s: string, isAlnum: char -> bool, i: nat)
    requires At(s, i, '/', '*')
    ensures forall c, e | IsComment(s, i, c, e) :: WipeEnd(s, isAlnum, i) == Some(e + 2)
    ensures (forall c, e :: !IsComment(s, i, c, e)) ==> WipeEnd(s, isAlnum, i) == Some(|s|)
  {
    forall c, e | IsComment(s, i, c, e) ensures WipeEnd(s, isAlnum, i) == Some(e + 2) {
      CommentIsWiped(s, isAlnum, i, c, e);
    }
    if Closes(s, i + 2, 1) {
      var c, e := ClosedHasShape(s, i + 2, 1);
      assert IsComment(s, i, c, e);
    } else {
      OpenToTheEnd(s, i + 2, 1);
    }
  }

  // ----- raw strings

  /** A raw string with `h` hashes may close at `e`. */
  predicate MayClose(s: string, h: nat, e: nat) {
    e < |s| && s[e] == '"' && Hashes(s, e + 1) >= h
  }

  lemma {:induction false} FirstClose(s: string, h: nat, j: nat, e: nat)
    requires j <= e && MayClose(s, h, e) && forall k | j <= k < e :: !MayClose(s, h, k)
    ensures RawEnd(s, h, j) == e + 1 + h
    decreases e - j
  {
    if j < e {
      assert !MayClose(s, h, j);
      FirstClose(s, h, j + 1, e);
    }
  }

  lemma {:induction false} NeverCloses(s: string, h: nat, j: nat)
    requires j <= |s| && forall k | j <= k < |s| :: !MayClose(s, h, k)
    ensures RawEnd(s, h, j) == |s|
    decreases |s| - j
  {
    if j < |s| {
      assert !MayClose(s, h, j);
      NeverCloses(s, h, j + 1);
    }
  }

  /** The raw string that opens at `i` closes at `e`: at the first quote with as many hashes. */
  predicate IsRaw(s: string, i: nat, e: nat)
    requires i < |s|
  {
    var h := Hashes(s, i + 1);
    i + 2 + h <= e && MayClose(s, h, e) && forall k | i + 2 + h <= k < e :: !MayClose(s, h, k)
  }

  /** A raw string is wiped to where it closes; one that closes nowhere is wiped to the end. */
  lemma RawIsWiped(s: string, isAlnum: char -> bool, i: nat)
    requires i < |s| && RawStart(s, isAlnum, i)
    ensures forall e: nat | IsRaw(s, i, e) :: WipeEnd(s, isAlnum, i) == Some(e + 1 + Hashes(s, i + 1))
    ensures (forall e: nat :: !IsRaw(s, i, e)) ==> WipeEnd(s, isAlnum, i) == Some(|s|)
  {
    var h := Hashes(s, i + 1);
    forall e: nat | IsRaw(s, i, e) ensures WipeEnd(s, isAlnum, i) == Some(e + 1 + h) {
      FirstClose(s, h, i + 2 + h, e);
    }
    if e: nat :| i + 2 + h <= e && MayClose(s, h, e) {
      var first := Least(s, h, i + 2 + h, e);
      assert IsRaw(s, i, first);
    } else {
      NeverCloses(s, h, i + 2 + h);
    }
  }

  lemma {:induction false} Least(s: string, h: nat, j: nat, e: nat) returns (first: nat)
    requires j <= e && MayClose(s, h, e)
    ensures j <= first && MayClose(s, h, first) && forall k | j <= k < first :: !MayClose(s, h, k)
    decreases e - j
  {
    if MayClose(s, h, j) {
      first := j;
    } else {
      first := Least(s, h, j + 1, e);
    }
  }
}
