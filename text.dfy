/**
  The handful of Python `str` and `re` operations the report script relies on,
  over `string` (a sequence of Unicode scalar values): `strip`, `split()`,
  `splitlines`, `startswith`/`endswith`, `re.split` with a literal pattern and
  `"\n".join`.
*/
module Text {
  import opened Wrappers

  /** `str.isspace()`; in a `str` pattern the `re` module's `\s` matches exactly these. */
  predicate IsSpace(c: char) {
    c == ' ' || '\t' <= c <= '\r' || '\U{1c}' <= c <= '\U{1f}' || c == '\U{85}' || c == '\U{a0}'
    || c == '\U{1680}' || '\U{2000}' <= c <= '\U{200a}' || c == '\U{2028}' || c == '\U{2029}'
    || c == '\U{202f}' || c == '\U{205f}' || c == '\U{3000}'
  }

  /** The line boundaries `str.splitlines()` splits at (`"\r\n"` counts as one). */
  predicate IsLineBreak(c: char) {
    '\n' <= c <= '\r' || '\U{1c}' <= c <= '\U{1e}' || c == '\U{85}' || c == '\U{2028}' || c == '\U{2029}'
  }

  predicate Blank(s: string) { forall i :: 0 <= i < |s| ==> IsSpace(s[i]) }

  predicate NoSpace(s: string) { forall i :: 0 <= i < |s| ==> !IsSpace(s[i]) }

  predicate NoLineBreak(s: string) { forall i :: 0 <= i < |s| ==> !IsLineBreak(s[i]) }

  predicate StartsWith(s: string, prefix: string) { prefix <= s }

  predicate EndsWith(s: string, suffix: string) {
    |suffix| <= |s| && s[|s| - |suffix|..] == suffix
  }

  /** `s.lstrip()`: drops the leading whitespace. */
  function TrimLeft(s: string): (r: string)
    ensures |r| <= |s|
    ensures r == [] || !IsSpace(r[0])
    decreases |s|
  {
    if s != [] && IsSpace(s[0]) then TrimLeft(s[1..]) else s
  }

  /** What `lstrip` drops is a blank prefix; what it keeps is the rest of the string. */
  lemma {:induction false} TrimLeftSplits(s: string)
    ensures s == s[..|s| - |TrimLeft(s)|] + TrimLeft(s)
    ensures Blank(s[..|s| - |TrimLeft(s)|])
    decreases |s|
  {
    if s != [] && IsSpace(s[0]) {
      var t := s[1..];
      TrimLeftSplits(t);
      var r := TrimLeft(t);
      var b := t[..|t| - |r|];
      assert TrimLeft(s) == r;
      assert s == [s[0]] + t;
      assert s == ([s[0]] + b) + r;
      BlankCons(s[0], b);
      assert s[..|s| - |r|] == [s[0]] + b;
    } else {
      assert s[..0] == [];
    }
  }

  lemma BlankCons(c: char, b: string)
    requires IsSpace(c) && Blank(b)
    ensures Blank([c] + b)
  {
    assert forall i :: 1 <= i < |b| + 1 ==> ([c] + b)[i] == b[i - 1];
  }

  lemma BlankSnoc(b: string, c: char)
    requires Blank(b) && IsSpace(c)
    ensures Blank(b + [c])
  {
    assert forall i :: 0 <= i < |b| ==> (b + [c])[i] == b[i];
  }

  /** `s.rstrip()`: drops the trailing whitespace. */
  function TrimRight(s: string): (r: string)
    ensures |r| <= |s|
    ensures r == [] || !IsSpace(r[|r| - 1])
    decreases |s|
  {
    if s != [] && IsSpace(s[|s| - 1]) then TrimRight(s[..|s| - 1]) else s
  }

  /** What `rstrip` keeps is a prefix of the string; what it drops is blank. */
  lemma {:induction false} TrimRightSplits(s: string)
    ensures s == TrimRight(s) + s[|TrimRight(s)|..]
    ensures Blank(s[|TrimRight(s)|..])
    decreases |s|
  {
    if s != [] && IsSpace(s[|s| - 1]) {
      var t := s[..|s| - 1];
      TrimRightSplits(t);
      var r := TrimRight(t);
      var b := t[|r|..];
      assert TrimRight(s) == r;
      assert s == t + [s[|s| - 1]];
      assert s == r + (b + [s[|s| - 1]]);
      BlankSnoc(b, s[|s| - 1]);
      assert s[|r|..] == b + [s[|s| - 1]];
    } else {
      assert s[|s|..] == [];
    }
  }

  /** `s.strip()`. */
  function Strip(s: string): (r: string)
    ensures |r| <= |s|
    ensures r == [] || (!IsSpace(r[0]) && !IsSpace(r[|r| - 1]))
  {
    var t := TrimLeft(s);
    TrimRightSplits(t);
    TrimRight(t)
  }

  /** `strip` removes whitespace at both ends and nothing else. */
  lemma StripSplits(s: string)
    ensures exists b1, b2 :: Blank(b1) && Blank(b2) && s == b1 + Strip(s) + b2
  {
    var t := TrimLeft(s);
    TrimLeftSplits(s);
    TrimRightSplits(t);
    var b1, b2 := s[..|s| - |t|], t[|TrimRight(t)|..];
    var r := Strip(s);
    assert r == TrimRight(t);
    assert s == b1 + t && t == r + b2;
    assert b1 + r + b2 == b1 + (r + b2);
  }

  /** The strip is empty exactly when the string is all whitespace. */
  lemma StripBlank(s: string)
    ensures Strip(s) == [] <==> Blank(s)
  {
    StripSplits(s);
    var b1, b2 :| Blank(b1) && Blank(b2) && s == b1 + Strip(s) + b2;
    if Strip(s) == [] {
      assert s == b1 + b2;
    }
    if Strip(s) != [] {
      assert s[|b1|] == Strip(s)[0];
      assert !IsSpace(s[|b1|]);
    }
  }

  /** Stripping only removes characters: whatever is in the result was in the input. */
  lemma StripSub(s: string)
    ensures forall c :: c in Strip(s) ==> c in s
  {
    StripSplits(s);
    var b1, b2 :| Blank(b1) && Blank(b2) && s == b1 + Strip(s) + b2;
    forall c | c in Strip(s) ensures c in s {
      var i :| 0 <= i < |Strip(s)| && Strip(s)[i] == c;
      assert s[|b1| + i] == c;
    }
  }

  /** A string that starts with a non-space character is stripped on the right only. */
  lemma StripFromNonSpace(s: string)
    requires s != [] && !IsSpace(s[0])
    ensures Strip(s) == TrimRight(s)
  {
    assert TrimLeft(s) == s;
  }

  /** A string with no whitespace at either end is its own strip. */
  lemma StripTrimmed(s: string)
    requires s == [] || (!IsSpace(s[0]) && !IsSpace(s[|s| - 1]))
    ensures Strip(s) == s
  {
    assert TrimLeft(s) == s;
    assert TrimRight(s) == s;
  }

  /** Stripping on the right keeps everything up to a non-space character. */
  lemma TrimRightKeeps(s: string, i: nat)
    requires i < |s| && !IsSpace(s[i])
    ensures i < |TrimRight(s)| && TrimRight(s)[..i + 1] == s[..i + 1]
  {
    TrimRightSplits(s);
    var r := TrimRight(s);
    var tail := s[|r|..];
    assert s == r + tail && Blank(tail);
    assert s[..i + 1] == r[..i + 1];
  }

  lemma {:induction false} TrimLeftBlank(b: string, s: string)
    requires Blank(b)
    ensures TrimLeft(b + s) == TrimLeft(s)
    decreases |b|
  {
    if b == [] {
      assert b + s == s;
    } else {
      assert (b + s)[0] == b[0];
      assert (b + s)[1..] == b[1..] + s;
      TrimLeftBlank(b[1..], s);
    }
  }

  lemma {:induction false} TrimRightBlank(s: string, b: string)
    requires Blank(b)
    ensures TrimRight(s + b) == TrimRight(s)
    decreases |b|
  {
    if b == [] {
      assert s + b == s;
    } else {
      assert (s + b)[|s + b| - 1] == b[|b| - 1];
      assert (s + b)[..|s + b| - 1] == s + b[..|b| - 1];
      TrimRightBlank(s, b[..|b| - 1]);
    }
  }

  /** Whitespace around a string whose ends are not whitespace is exactly what `strip` removes. */
  lemma StripAround(b1: string, s: string, b2: string)
    requires Blank(b1) && Blank(b2)
    requires s == [] || (!IsSpace(s[0]) && !IsSpace(s[|s| - 1]))
    ensures Strip(b1 + s + b2) == s
  {
    TrimLeftBlank(b1, s + b2);
    assert b1 + s + b2 == b1 + (s + b2);
    if s == [] {
      TrimLeftBlank(b2, []);
      assert b2 + [] == b2;
      assert s + b2 == b2;
      assert TrimLeft(b1 + s + b2) == [];
    } else {
      assert TrimLeft(s + b2) == s + b2;
      TrimRightBlank(s, b2);
      assert TrimRight(s) == s;
    }
  }

  /** An `s.split()` token ends at the first whitespace character. */
  function WordLength(s: string): (n: nat)
    ensures n <= |s| && (n < |s| ==> IsSpace(s[n]))
    decreases |s|
  {
    if s != [] && !IsSpace(s[0]) then 1 + WordLength(s[1..]) else 0
  }

  lemma {:induction false} WordLengthNoSpace(s: string)
    ensures NoSpace(s[..WordLength(s)])
    decreases |s|
  {
    if s != [] && !IsSpace(s[0]) {
      WordLengthNoSpace(s[1..]);
      var m := WordLength(s[1..]);
      assert s[..m + 1] == [s[0]] + s[1..][..m];
    }
  }

  lemma {:induction false} WordLengthPrefix(w: string, t: string)
    requires NoSpace(w)
    ensures WordLength(w + t) == |w| + WordLength(t)
    decreases |w|
  {
    if w == [] {
      assert w + t == t;
    } else {
      assert (w + t)[0] == w[0];
      assert (w + t)[1..] == w[1..] + t;
      WordLengthPrefix(w[1..], t);
    }
  }

  /** `s.split()`: the maximal runs of non-whitespace characters, in order. */
  function Tokens(s: string): seq<string>
    decreases |s|
  {
    var t := TrimLeft(s);
    if t == [] then []
    else
      var n := WordLength(t);
      [t[..n]] + Tokens(t[n..])
  }

  /** Every token is a non-empty run of non-whitespace characters. */
  lemma {:induction false} TokensAreWords(s: string)
    ensures forall i :: 0 <= i < |Tokens(s)| ==> Tokens(s)[i] != [] && NoSpace(Tokens(s)[i])
    decreases |s|
  {
    var t := TrimLeft(s);
    if t != [] {
      var n := WordLength(t);
      TokensAreWords(t[n..]);
      WordLengthNoSpace(t);
      assert Tokens(s) == [t[..n]] + Tokens(t[n..]);
    }
  }

  /** `sep.join(pieces)`. */
  function JoinWith(pieces: seq<string>, sep: string): string
  {
    if |pieces| == 0 then []
    else if |pieces| == 1 then pieces[0]
    else pieces[0] + sep + JoinWith(pieces[1..], sep)
  }

  /** A whitespace-free word on its own is its only token. */
  lemma TokensOfWord(w: string)
    requires w != [] && NoSpace(w)
    ensures Tokens(w) == [w]
  {
    assert TrimLeft(w) == w;
    WordLengthPrefix(w, []);
    assert w + [] == w;
    assert TrimLeft(w[|w|..]) == [];
  }

  /** A whitespace-free word followed by a space is the first token. */
  lemma TokensOfWordThen(w: string, tail: string)
    requires w != [] && NoSpace(w)
    ensures Tokens(w + " " + tail) == [w] + Tokens(tail)
  {
    var s := w + " " + tail;
    assert TrimLeft(s) == s by { assert s[0] == w[0]; }
    assert s == w + ([' '] + tail);
    WordLengthPrefix(w, [' '] + tail);
    assert s[..|w|] == w;
    assert s[|w|..] == [' '] + tail;
    TrimLeftBlank([' '], tail);
    TokensOfTrimmed(s[|w|..], tail);
  }

  /** Joining non-empty whitespace-free words with single spaces and splitting again gives the words back. */
  lemma {:induction false} TokensOfJoin(words: seq<string>)
    requires forall i :: 0 <= i < |words| ==> words[i] != [] && NoSpace(words[i])
    ensures Tokens(JoinWith(words, " ")) == words
  {
    if |words| == 0 {
      assert TrimLeft([]) == [];
    } else if |words| == 1 {
      TokensOfWord(words[0]);
    } else {
      var w, rest := words[0], words[1..];
      assert JoinWith(words, " ") == w + " " + JoinWith(rest, " ");
      TokensOfWordThen(w, JoinWith(rest, " "));
      TokensOfJoin(rest);
      assert words == [w] + rest;
    }
  }

  lemma TokensOfTrimmed(s: string, t: string)
    requires TrimLeft(s) == TrimLeft(t)
    ensures Tokens(s) == Tokens(t)
  {
  }

  /** The length of a line: the characters before the first line boundary. */
  function LineLength(s: string): (n: nat)
    ensures n <= |s| && (n < |s| ==> IsLineBreak(s[n]))
    decreases |s|
  {
    if s != [] && !IsLineBreak(s[0]) then 1 + LineLength(s[1..]) else 0
  }

  lemma {:induction false} LineLengthNoBreak(s: string)
    ensures NoLineBreak(s[..LineLength(s)])
    decreases |s|
  {
    if s != [] && !IsLineBreak(s[0]) {
      LineLengthNoBreak(s[1..]);
      var m := LineLength(s[1..]);
      assert s[..m + 1] == [s[0]] + s[1..][..m];
    }
  }

  lemma {:induction false} LineLengthPrefix(l: string, t: string)
    requires NoLineBreak(l)
    ensures LineLength(l + t) == |l| + LineLength(t)
    decreases |l|
  {
    if l == [] {
      assert l + t == t;
    } else {
      assert (l + t)[0] == l[0];
      assert (l + t)[1..] == l[1..] + t;
      LineLengthPrefix(l[1..], t);
    }
  }

  /** `str.splitlines()`: the lines of `s` without their line boundaries; no trailing empty line. */
  function SplitLines(s: string): (r: seq<string>)
    ensures s != [] && !IsLineBreak(s[|s| - 1]) ==> r != [] && r[|r| - 1] != []
    decreases |s|
  {
    if s == [] then []
    else
      var n := LineLength(s);
      if n == |s| then [s]
      else
        var width := if s[n] == '\r' && n + 1 < |s| && s[n + 1] == '\n' then 2 else 1;
        [s[..n]] + SplitLines(s[n + width..])
  }

  /** No line holds a line boundary. */
  lemma {:induction false} SplitLinesHaveNoBreaks(s: string)
    ensures forall i :: 0 <= i < |SplitLines(s)| ==> NoLineBreak(SplitLines(s)[i])
    decreases |s|
  {
    if s != [] {
      var n := LineLength(s);
      LineLengthNoBreak(s);
      if n == |s| {
        assert s[..n] == s;
      } else {
        var width := if s[n] == '\r' && n + 1 < |s| && s[n + 1] == '\n' then 2 else 1;
        SplitLinesHaveNoBreaks(s[n + width..]);
        assert SplitLines(s) == [s[..n]] + SplitLines(s[n + width..]);
      }
    }
  }

  /** Joining break-free lines with `"\n"` and splitting again gives the lines back. */
  lemma {:induction false} SplitLinesOfJoin(lines: seq<string>)
    requires forall i :: 0 <= i < |lines| ==> NoLineBreak(lines[i])
    requires lines == [] || lines[|lines| - 1] != []
    ensures SplitLines(JoinWith(lines, "\n")) == lines
  {
    if |lines| == 1 {
      LineLengthPrefix(lines[0], []);
      assert lines[0] + [] == lines[0];
    } else if |lines| > 1 {
      var l, tail := lines[0], JoinWith(lines[1..], "\n");
      var s := l + "\n" + tail;
      assert s == JoinWith(lines, "\n");
      assert s == l + ("\n" + tail);
      LineLengthPrefix(l, "\n" + tail);
      assert ("\n" + tail)[0] == '\n';
      assert LineLength("\n" + tail) == 0;
      assert s[|l|] == '\n';
      assert s[..|l|] == l;
      assert s[|l| + 1..] == tail;
      assert SplitLines(s) == [l] + SplitLines(tail);
      SplitLinesOfJoin(lines[1..]);
      assert lines == [l] + lines[1..];
    }
  }

  /** `sep` occurs in `s` starting at index `i`. */
  predicate OccursAt(s: string, sep: string, i: nat) {
    i + |sep| <= |s| && s[i..i + |sep|] == sep
  }

  predicate Contains(s: string, sep: string) {
    exists i: nat | i <= |s| :: OccursAt(s, sep, i)
  }

  /** The index of the leftmost occurrence of `sep` in `s`, if any. */
  function Find(s: string, sep: string): (r: Option<nat>)
    requires sep != []
    ensures r.Some? ==> OccursAt(s, sep, r.value)
    decreases |s|
  {
    if |s| < |sep| then None
    else if s[..|sep|] == sep then Some(0)
    else
      match Find(s[1..], sep)
      case None => None
      case Some(i) =>
        assert s[1..][i..i + |sep|] == s[i + 1..i + 1 + |sep|];
        Some(i + 1)
  }

  /** `Find` returns the leftmost occurrence, and `None` only when there is none. */
  lemma {:induction false} FindFirst(s: string, sep: string)
    requires sep != []
    ensures Find(s, sep).Some? ==> forall j: nat :: j < Find(s, sep).value ==> !OccursAt(s, sep, j)
    ensures Find(s, sep).None? ==> !Contains(s, sep)
    decreases |s|
  {
    if |s| >= |sep| && s[..|sep|] != sep {
      FindFirst(s[1..], sep);
      ShiftOccurs(s, sep);
    }
  }

  lemma ShiftOccurs(s: string, sep: string)
    requires s != [] && sep != []
    ensures forall j: nat :: OccursAt(s[1..], sep, j) ==> OccursAt(s, sep, j + 1)
    ensures forall j: nat :: 0 < j && OccursAt(s, sep, j) ==> OccursAt(s[1..], sep, j - 1)
  {
    forall j: nat | OccursAt(s[1..], sep, j) ensures OccursAt(s, sep, j + 1) {
      assert s[1..][j..j + |sep|] == s[j + 1..j + 1 + |sep|];
    }
    forall j: nat | 0 < j && OccursAt(s, sep, j) ensures OccursAt(s[1..], sep, j - 1) {
      assert s[1..][j - 1..j - 1 + |sep|] == s[j..j + |sep|];
    }
  }

  lemma NoOccurrenceBefore(s: string, sep: string, i: nat)
    requires sep != [] && i <= |s|
    requires forall j: nat :: j < i ==> !OccursAt(s, sep, j)
    ensures !Contains(s[..i], sep)
  {
    forall j: nat | OccursAt(s[..i], sep, j) ensures false {
      assert s[..i][j..j + |sep|] == s[j..j + |sep|];
      assert OccursAt(s, sep, j);
    }
  }

  /**
    `re.split(sep, s)` for a pattern that matches only the literal `sep`: the pieces
    between leftmost non-overlapping occurrences.
  */
  function SplitOn(s: string, sep: string): (r: seq<string>)
    requires sep != []
    ensures |r| >= 1
    decreases |s|
  {
    match Find(s, sep)
    case None => [s]
    case Some(i) => [s[..i]] + SplitOn(s[i + |sep|..], sep)
  }

  /** Joining the pieces with `sep` gives the string back. */
  lemma {:induction false} SplitOnJoin(s: string, sep: string)
    requires sep != []
    ensures JoinWith(SplitOn(s, sep), sep) == s
    decreases |s|
  {
    match Find(s, sep)
    case None =>
    case Some(i) =>
      var rest := s[i + |sep|..];
      SplitOnJoin(rest, sep);
      assert SplitOn(s, sep) == [s[..i]] + SplitOn(rest, sep);
      JoinCons(s[..i], SplitOn(rest, sep), sep);
      assert s[i..i + |sep|] == sep;
      SliceThree(s, i, i + |sep|);
  }

  lemma JoinCons(a: string, rest: seq<string>, sep: string)
    requires |rest| >= 1
    ensures JoinWith([a] + rest, sep) == a + sep + JoinWith(rest, sep)
  {
    assert ([a] + rest)[1..] == rest;
  }

  lemma SliceThree(s: string, i: nat, j: nat)
    requires i <= j <= |s|
    ensures s == s[..i] + s[i..j] + s[j..]
  {
  }

  /** No piece contains `sep`, and there is more than one piece exactly when `s` contains it. */
  lemma {:induction false} SplitOnPieces(s: string, sep: string)
    requires sep != []
    ensures forall k :: 0 <= k < |SplitOn(s, sep)| ==> !Contains(SplitOn(s, sep)[k], sep)
    ensures |SplitOn(s, sep)| > 1 <==> Contains(s, sep)
    decreases |s|
  {
    FindFirst(s, sep);
    match Find(s, sep)
    case None =>
    case Some(i) =>
      var rest := s[i + |sep|..];
      SplitOnPieces(rest, sep);
      NoOccurrenceBefore(s, sep, i);
      assert SplitOn(s, sep) == [s[..i]] + SplitOn(rest, sep);
  }

  /** When the first occurrence of `sep` follows `pre`, splitting yields `pre` and then the pieces of the rest. */
  lemma SplitOnFirst(pre: string, sep: string, rest: string)
    requires sep != []
    requires forall j: nat :: j < |pre| ==> !OccursAt(pre + sep + rest, sep, j)
    ensures SplitOn(pre + sep + rest, sep) == [pre] + SplitOn(rest, sep)
  {
    var s := pre + sep + rest;
    FindFirst(s, sep);
    assert s[|pre|..|pre| + |sep|] == sep;
    assert OccursAt(s, sep, |pre|);
    assert Find(s, sep) == Some(|pre|);
    assert s[..|pre|] == pre;
    assert s[|pre| + |sep|..] == rest;
  }

  /** Every line boundary is whitespace. */
  lemma LineBreakIsSpace(c: char)
    ensures IsLineBreak(c) ==> IsSpace(c)
  {
  }

  lemma ContainsChar(s: string, c: char)
    ensures Contains(s, [c]) <==> c in s
  {
    if c in s {
      var i :| 0 <= i < |s| && s[i] == c;
      assert s[i..i + 1] == [c];
      assert OccursAt(s, [c], i);
    }
    if Contains(s, [c]) {
      var i: nat :| i <= |s| && OccursAt(s, [c], i);
      assert i + 1 <= |s|;
      assert s[i] == s[i..i + 1][0] == c;
    }
  }
}
