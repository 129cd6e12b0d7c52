/**
  The `key = value` reader of the report script: `FLUENT_PATTERN`
  (`^(?P<key>[\w-]+)\s*=\s*(?P<value>.*)`, multi-line) and its `findall`, the
  same pattern read line by line (which is what it does on the single lines of a
  diff, and on any text whose lines settle each match), and `extract_fluent` in
  its dictionary mode and its tuple mode.
*/
module Fluent {
  import opened Wrappers
  import opened Text

  /** `\w`, restricted to ASCII: a letter, a digit or `_`. */
  predicate IsWordChar(c: char) {
    'a' <= c <= 'z' || 'A' <= c <= 'Z' || '0' <= c <= '9' || c == '_'
  }

  /** The character class `[\w-]` of a key. */
  predicate IsKeyChar(c: char) { IsWordChar(c) || c == '-' }

  predicate IsKey(k: string) {
    k != [] && forall i :: 0 <= i < |k| ==> IsKeyChar(k[i])
  }

  /** One match of the pattern: the `key` and `value` groups. */
  datatype Entry = Entry(key: string, value: string)

  /** A line laid out the way the pattern reads it: key, blanks, `=`, blanks, value. */
  function Render(key: string, before: string, after: string, value: string): string {
    key + (before + ("=" + (after + value)))
  }

  /** The length of the leading run of key characters. */
  function KeyLength(s: string): (n: nat)
    ensures n <= |s| && (n < |s| ==> !IsKeyChar(s[n]))
    decreases |s|
  {
    if s != [] && IsKeyChar(s[0]) then 1 + KeyLength(s[1..]) else 0
  }

  lemma {:induction false} KeyLengthPrefix(key: string, tail: string)
    requires forall i :: 0 <= i < |key| ==> IsKeyChar(key[i])
    ensures KeyLength(key + tail) == |key| + KeyLength(tail)
    decreases |key|
  {
    if key == [] {
      assert key + tail == tail;
    } else {
      assert (key + tail)[0] == key[0];
      assert (key + tail)[1..] == key[1..] + tail;
      KeyLengthPrefix(key[1..], tail);
    }
  }

  lemma {:induction false} KeyLengthKey(s: string)
    ensures forall i :: 0 <= i < KeyLength(s) ==> IsKeyChar(s[i])
    decreases |s|
  {
    if s != [] && IsKeyChar(s[0]) {
      KeyLengthKey(s[1..]);
      assert forall i :: 1 <= i < KeyLength(s) ==> s[i] == s[1..][i - 1];
    }
  }

  /**
    The pattern matched against one line (a string without `'\n'`): the key is the
    maximal leading run of key characters, the blanks either side of `=` are skipped
    and the value is the rest of the line.
  */
  function ParseLine(line: string): Option<Entry> {
    var n := KeyLength(line);
    if n == 0 then None else ParseSeparator(line[..n], line[n..])
  }

  /** What follows the key: blanks, `=`, blanks, and the value up to the end of the line. */
  function ParseSeparator(key: string, tail: string): Option<Entry> {
    var rest := TrimLeft(tail);
    if rest == [] || rest[0] != '=' then None else Some(Entry(key, TrimLeft(rest[1..])))
  }

  /** A match reads a key off the start of the line, and needs an `=` on it. */
  lemma ParseLineKey(line: string)
    ensures ParseLine(line).Some? ==> IsKey(ParseLine(line).value.key) && ParseLine(line).value.key <= line
    ensures '=' !in line ==> ParseLine(line) == None
  {
    var n := KeyLength(line);
    KeyLengthKey(line);
    if n > 0 && ParseLine(line).Some? {
      var tail := line[n..];
      TrimLeftSplits(tail);
      var rest := TrimLeft(tail);
      assert rest[0] == '=';
      assert tail[|tail| - |rest|] == '=';
      assert line[n + |tail| - |rest|] == '=';
    }
  }

  lemma KeySpan(key: string, tail: string)
    requires IsKey(key)
    requires tail == [] || !IsKeyChar(tail[0])
    ensures KeyLength(key + tail) == |key|
  {
    KeyLengthPrefix(key, tail);
  }

  lemma SeparatorComplete(key: string, before: string, after: string, value: string)
    requires Blank(before) && Blank(after)
    ensures ParseSeparator(key, before + ("=" + (after + value))) == Some(Entry(key, TrimLeft(value)))
  {
    var sep := "=" + (after + value);
    TrimLeftBlank(before, sep);
    assert TrimLeft(sep) == sep;
    assert sep[1..] == after + value;
    TrimLeftBlank(after, value);
  }

  /** Every line laid out as key, blanks, `=`, blanks, value is read back as that key and value. */
  lemma ParseLineComplete(key: string, before: string, after: string, value: string)
    requires IsKey(key) && Blank(before) && Blank(after)
    ensures ParseLine(Render(key, before, after, value)) == Some(Entry(key, TrimLeft(value)))
  {
    var tail := before + ("=" + (after + value));
    var line := Render(key, before, after, value);
    assert line == key + tail;
    assert tail[0] == if before == [] then '=' else before[0];
    KeySpan(key, tail);
    assert line[..|key|] == key && line[|key|..] == tail;
    SeparatorComplete(key, before, after, value);
  }

  lemma SeparatorSound(key: string, tail: string)
    requires ParseSeparator(key, tail).Some?
    ensures exists before, after ::
      (Blank(before) && Blank(after) && tail == before + ("=" + (after + ParseSeparator(key, tail).value.value)))
  {
    var rest := TrimLeft(tail);
    TrimLeftSplits(tail);
    var before := tail[..|tail| - |rest|];
    var more := rest[1..];
    var value := TrimLeft(more);
    TrimLeftSplits(more);
    var after := more[..|more| - |value|];
    assert tail == before + rest && rest == "=" + more && more == after + value;
  }

  /** Everything the pattern reads off a line came from such a layout. */
  lemma ParseLineSound(line: string)
    requires ParseLine(line).Some?
    ensures exists before, after ::
      (Blank(before) && Blank(after)
       && line == Render(ParseLine(line).value.key, before, after, ParseLine(line).value.value))
  {
    var n := KeyLength(line);
    var key, tail := line[..n], line[n..];
    assert line == key + tail;
    SeparatorSound(key, tail);
    var value := ParseSeparator(key, tail).value.value;
    assert ParseLine(line).value.value == value;
    var before, after :| Blank(before) && Blank(after) && tail == before + ("=" + (after + value));
    assert ParseLine(line) == ParseSeparator(key, tail);
    assert line == Render(ParseLine(line).value.key, before, after, ParseLine(line).value.value);
  }

  /** The pattern matches a line exactly when the line has the key, blanks, `=` layout. */
  lemma ParseLineMatches(line: string)
    ensures ParseLine(line).Some? <==>
      exists key, before, after, value ::
        (IsKey(key) && Blank(before) && Blank(after) && line == Render(key, before, after, value))
  {
    if ParseLine(line).Some? {
      ParseLineKey(line);
      ParseLineSound(line);
    }
    if exists key, before, after, value :: IsKey(key) && Blank(before) && Blank(after)
        && line == Render(key, before, after, value) {
      var key, before, after, value :| IsKey(key) && Blank(before) && Blank(after)
        && line == Render(key, before, after, value);
      ParseLineComplete(key, before, after, value);
    }
  }

  /** A line that does not start with a key character never matches: indented lines and `#` comments among them. */
  lemma UnkeyedLineIgnored(line: string)
    requires line == [] || !IsKeyChar(line[0])
    ensures ParseLine(line) == None
  {
  }

  lemma IndentedOrCommentIgnored(line: string)
    requires line != [] && (IsSpace(line[0]) || line[0] == '#')
    ensures ParseLine(line) == None
  {
    UnkeyedLineIgnored(line);
  }

  /** The value never starts with whitespace: the blanks after `=` all belong to the separator. */
  lemma ValueTrimmed(line: string)
    requires ParseLine(line).Some?
    ensures ParseLine(line).value.value == [] || !IsSpace(ParseLine(line).value.value[0])
  {
  }

  /** The lines of a text for `^` and `.`: the pieces between `'\n'` characters. */
  function Lines(text: string): (r: seq<string>)
    ensures |r| >= 1
  {
    SplitOn(text, "\n")
  }

  /** Joining the lines with `'\n'` gives the text back, and no line holds a `'\n'`. */
  lemma LinesOfText(text: string)
    ensures JoinWith(Lines(text), "\n") == text
    ensures forall i :: 0 <= i < |Lines(text)| ==> '\n' !in Lines(text)[i]
  {
    var r := Lines(text);
    SplitOnJoin(text, "\n");
    SplitOnPieces(text, "\n");
    forall i | 0 <= i < |r| ensures '\n' !in r[i] { ContainsChar(r[i], '\n'); }
  }

  /** The outcome of the pattern on each line. */
  function Parses(lines: seq<string>): (r: seq<Option<Entry>>)
    ensures |r| == |lines|
  {
    seq(|lines|, i requires 0 <= i < |lines| => ParseLine(lines[i]))
  }

  lemma ParsesAt(lines: seq<string>)
    ensures forall i :: 0 <= i < |lines| ==> Parses(lines)[i] == ParseLine(lines[i])
  {
  }

  /** The entries of the lines that matched, in line order. */
  function Collect(ps: seq<Option<Entry>>): (r: seq<Entry>)
    ensures |r| <= |ps|
  {
    if ps == [] then []
    else
      var init := Collect(ps[..|ps| - 1]);
      match ps[|ps| - 1]
      case None => init
      case Some(e) => init + [e]
  }

  /** The entry a line's outcome contributes: none, or the one it matched. */
  function Found(p: Option<Entry>): (r: seq<Entry>)
    ensures |r| <= 1
  {
    match p
    case None => []
    case Some(e) => [e]
  }

  /** The number of characters before the next `'\n'`: as far as `.` reaches. */
  function RestOfLine(s: string): (n: nat)
    ensures n <= |s| && (n < |s| ==> s[n] == '\n')
    decreases |s|
  {
    if s != [] && s[0] != '\n' then 1 + RestOfLine(s[1..]) else 0
  }

  lemma {:induction false} RestOfLinePrefix(l: string, t: string)
    requires '\n' !in l
    ensures RestOfLine(l + t) == |l| + RestOfLine(t)
    decreases |l|
  {
    if l == [] {
      assert l + t == t;
    } else {
      assert (l + t)[0] == l[0];
      assert (l + t)[1..] == l[1..] + t;
      assert '\n' !in l[1..] by { assert forall i :: 0 <= i < |l| - 1 ==> l[1..][i] == l[i + 1]; }
      RestOfLinePrefix(l[1..], t);
    }
  }

  /** The text after the next `'\n'`, where `^` matches again; empty when there is no `'\n'`. */
  function NextLine(s: string): (r: string)
    ensures |r| <= |s| && (s != [] ==> |r| < |s|)
  {
    var n := RestOfLine(s);
    if n < |s| then s[n + 1..] else []
  }

  /** One match: the two groups, and the text after the last character matched. */
  datatype Match = Match(entry: Entry, rest: string)

  /**
    The pattern tried where `^` matches, at the start of `s`. The key is the maximal
    run of key characters (a shorter one would be followed by a key character, which
    is neither whitespace nor `=`). Each `\s*` takes all the whitespace there is,
    line breaks included, so it may run on into later lines; the value `.*` then runs
    to the next `'\n'`.
  */
  function MatchAt(s: string): (r: Option<Match>)
    ensures r.Some? ==> |r.value.rest| < |s|
  {
    var n := KeyLength(s);
    if n == 0 then None else MatchSeparator(s[..n], s[n..])
  }

  /** What follows the key: blanks, `=`, blanks, and the value up to the next `'\n'`. */
  function MatchSeparator(key: string, tail: string): (r: Option<Match>)
    ensures r.Some? ==> |r.value.rest| < |tail|
  {
    var rest := TrimLeft(tail);
    if rest == [] || rest[0] != '=' then None
    else
      var after := TrimLeft(rest[1..]);
      var len := RestOfLine(after);
      Some(Match(Entry(key, after[..len]), after[len..]))
  }

  /**
    `findall` from a position where `^` matches: after a match the search goes on
    from its end, where `^` cannot match until past the next `'\n'` (a non-empty
    value ends before a `'\n'`, an empty one at the end of the text); after a
    failure it goes on at the next line.
  */
  function Scan(s: string): seq<Entry>
    decreases |s|
  {
    match MatchAt(s)
    case Some(m) => [m.entry] + Scan(NextLine(m.rest))
    case None => if s == [] then [] else Scan(NextLine(s))
  }

  /** `FLUENT_PATTERN.findall(text)`: the groups of every match, in text order. */
  function FindAll(text: string): seq<Entry> {
    Scan(text)
  }

  /** The outcome of matching a line is an entry for key `k`. */
  predicate Defines(p: Option<Entry>, k: string) {
    p.Some? && p.value.key == k
  }

  /** A Python `dict` from key to value: the insertion order of the keys and the mapping. */
  datatype Dict = Dict(order: seq<string>, entries: map<string, string>) {

    /** The keys in `order` are distinct and are exactly the keys of `entries`. */
    predicate Valid() {
      && (forall i, j :: 0 <= i < j < |order| ==> order[i] != order[j])
      && (forall k :: k in entries ==> k in order)
      && (forall i :: 0 <= i < |order| ==> order[i] in entries)
    }

    /** `d[k] = v`: a new key joins the end of the order, a known key keeps its place. */
    function Put(k: string, v: string): Dict {
      Dict(if k in entries then order else order + [k], entries[k := v])
    }

    /** `Put` keeps the order valid, maps `k` to `v`, leaves the other keys alone and keeps the first key first. */
    lemma PutFacts(k: string, v: string)
      ensures Valid() ==> Put(k, v).Valid()
      ensures k in Put(k, v).entries && Put(k, v).entries[k] == v
      ensures forall k' :: k' != k ==> (k' in Put(k, v).entries <==> k' in entries)
      ensures forall k' :: k' != k && k' in entries ==> Put(k, v).entries[k'] == entries[k']
      ensures |order| > 0 ==> |Put(k, v).order| > 0 && Put(k, v).order[0] == order[0]
      ensures k !in entries ==> Put(k, v).order == order + [k]
      ensures k in entries ==> Put(k, v).order == order
    {
    }
  }

  /** The dictionary `result[k] = v` builds from a sequence of matches. */
  function DictOf(es: seq<Entry>): Dict {
    if es == [] then Dict([], map[])
    else DictOf(es[..|es| - 1]).Put(es[|es| - 1].key, es[|es| - 1].value)
  }

  /** The dictionary is valid, and empty exactly when there were no matches. */
  lemma {:induction false} DictOfValid(es: seq<Entry>)
    ensures DictOf(es).Valid()
    ensures es == [] <==> DictOf(es).entries == map[]
  {
    if es != [] {
      var init, e := es[..|es| - 1], es[|es| - 1];
      DictOfValid(init);
      DictOf(init).PutFacts(e.key, e.value);
    }
  }

  /** `extract_fluent(text)` in dictionary mode. */
  method ExtractFluent(text: string) returns (result: Dict)
    ensures result == DictOf(FindAll(text))
  {
    var matches := FindAll(text);
    result := Dict([], map[]);
    for i := 0 to |matches|
      invariant result == DictOf(matches[..i])
    {
      assert matches[..i + 1][..i] == matches[..i];
      result := result.Put(matches[i].key, matches[i].value);
    }
    assert matches[..|matches|] == matches;
  }

  /** The key/value dictionary of a file's text. */
  function FluentMap(text: string): map<string, string> {
    DictOf(FindAll(text)).entries
  }

  /** The set of keys of a file's text, `set(extract_fluent(text).keys())`. */
  function FluentKeys(text: string): set<string> {
    FluentMap(text).Keys
  }

  /**
    Tuple mode: `tuple(result.items())` when the dictionary has an entry, the
    sentinel `((None, None),)` otherwise.
  */
  function AsTuple(d: Dict): (r: seq<(Option<string>, Option<string>)>)
    requires d.Valid()
    ensures |r| >= 1
    ensures r == [(None, None)] <==> |d.entries| == 0
  {
    if |d.entries| > 0 then
      assert d.order != [] by {
        var k :| k in d.entries;
        assert k in d.order;
      }
      var r := seq(|d.order|, i requires 0 <= i < |d.order| => (Some(d.order[i]), Some(d.entries[d.order[i]])));
      assert r[0].0.Some?;
      r
    else
      [(None, None)]
  }

  /** `extract_fluent(text, "tuple")`. */
  function ExtractTuple(text: string): seq<(Option<string>, Option<string>)> {
    DictOfValid(FindAll(text));
    AsTuple(DictOf(FindAll(text)))
  }

  /** A non-empty dictionary becomes its items, in insertion order. */
  lemma AsTupleItems(d: Dict)
    requires d.Valid() && |d.entries| > 0
    ensures |AsTuple(d)| == |d.order|
    ensures forall i :: 0 <= i < |d.order| ==> AsTuple(d)[i] == (Some(d.order[i]), Some(d.entries[d.order[i]]))
  {
  }

  lemma CollectAppend(ps: seq<Option<Entry>>, p: Option<Entry>)
    ensures Collect(ps + [p]) == match p case None => Collect(ps) case Some(e) => Collect(ps) + [e]
  {
    assert (ps + [p])[..|ps|] == ps;
  }

  lemma DictOfAppend(es: seq<Entry>, e: Entry)
    ensures DictOf(es + [e]) == DictOf(es).Put(e.key, e.value)
  {
    assert (es + [e])[..|es|] == es;
  }

  /** Nothing is collected exactly when no line matched. */
  lemma {:induction false} CollectEmpty(ps: seq<Option<Entry>>)
    ensures Collect(ps) == [] <==> forall i :: 0 <= i < |ps| ==> ps[i].None?
  {
    if ps != [] {
      var init := ps[..|ps| - 1];
      CollectEmpty(init);
      assert forall i :: 0 <= i < |init| ==> init[i] == ps[i];
    }
  }

  /** Some line of `init + [last]` defines `k` exactly when one of `init` does, or `last` does. */
  lemma DefinedSomewhere(init: seq<Option<Entry>>, last: Option<Entry>, k: string)
    ensures (exists i :: 0 <= i < |init + [last]| && Defines((init + [last])[i], k)) <==>
      (exists i :: 0 <= i < |init| && Defines(init[i], k)) || Defines(last, k)
  {
    var ps := init + [last];
    if exists i :: 0 <= i < |ps| && Defines(ps[i], k) {
      var i :| 0 <= i < |ps| && Defines(ps[i], k);
      if i < |init| { assert Defines(init[i], k); }
    }
    if exists i :: 0 <= i < |init| && Defines(init[i], k) {
      var i :| 0 <= i < |init| && Defines(init[i], k);
      assert Defines(ps[i], k);
    }
    if Defines(last, k) { assert Defines(ps[|init|], k); }
  }

  /** A key is in the dictionary exactly when some line defines it. */
  lemma {:induction false} DictKeys(ps: seq<Option<Entry>>, k: string)
    ensures k in DictOf(Collect(ps)).entries <==> exists i :: 0 <= i < |ps| && Defines(ps[i], k)
  {
    if ps != [] {
      var init, last := ps[..|ps| - 1], ps[|ps| - 1];
      assert ps == init + [last];
      DictKeys(init, k);
      CollectAppend(init, last);
      DefinedSomewhere(init, last, k);
      if last.Some? {
        DictOfAppend(Collect(init), last.value);
      }
    }
  }

  /** When a key is defined on several lines, the value of the last of them is kept. */
  lemma {:induction false} DictLastWins(ps: seq<Option<Entry>>, j: nat, k: string, v: string)
    requires j < |ps| && ps[j] == Some(Entry(k, v))
    requires forall l :: j < l < |ps| ==> !Defines(ps[l], k)
    ensures k in DictOf(Collect(ps)).entries && DictOf(Collect(ps)).entries[k] == v
  {
    var init, last := ps[..|ps| - 1], ps[|ps| - 1];
    assert ps == init + [last];
    CollectAppend(init, last);
    if j == |ps| - 1 {
      DictOfAppend(Collect(init), Entry(k, v));
    } else {
      DictLastWins(init, j, k, v);
      match last
      case None =>
      case Some(e) =>
        assert !Defines(ps[|ps| - 1], k);
        DictOfAppend(Collect(init), e);
    }
  }

  /** The first key in insertion order is the key of the first line that matched. */
  lemma {:induction false} DictFirstKey(ps: seq<Option<Entry>>, i: nat)
    requires i < |ps| && ps[i].Some?
    requires forall l :: 0 <= l < i ==> ps[l].None?
    ensures |DictOf(Collect(ps)).order| > 0
    ensures DictOf(Collect(ps)).order[0] == ps[i].value.key
  {
    var init, last := ps[..|ps| - 1], ps[|ps| - 1];
    assert ps == init + [last];
    CollectAppend(init, last);
    assert forall l :: 0 <= l < |init| ==> init[l] == ps[l];
    if i == |ps| - 1 {
      CollectEmpty(init);
      DictOfAppend([], last.value);
    } else {
      DictFirstKey(init, i);
      match last
      case None =>
      case Some(e) =>
        DictOfAppend(Collect(init), e);
    }
  }

  /** A key is in the dictionary exactly when some match has that key. */
  lemma {:induction false} DictKeysOfMatches(es: seq<Entry>, k: string)
    ensures k in DictOf(es).entries <==> exists i :: 0 <= i < |es| && es[i].key == k
  {
    if es != [] {
      var init, e := es[..|es| - 1], es[|es| - 1];
      DictKeysOfMatches(init, k);
      DictOf(init).PutFacts(e.key, e.value);
      if exists i :: 0 <= i < |es| && es[i].key == k {
        var i :| 0 <= i < |es| && es[i].key == k;
        if i < |init| { assert init[i].key == k; }
      }
      if exists i :: 0 <= i < |init| && init[i].key == k {
        var i :| 0 <= i < |init| && init[i].key == k;
        assert es[i].key == k;
      }
    }
  }

  /** A match's key is a non-empty run of key characters. */
  lemma MatchKey(s: string)
    requires MatchAt(s).Some?
    ensures IsKey(MatchAt(s).value.entry.key)
  {
    KeyLengthKey(s);
    var key := s[..KeyLength(s)];
    assert forall i :: 0 <= i < |key| ==> key[i] == s[i];
  }

  /** So is every key `findall` reports. */
  lemma {:induction false} ScanKeys(s: string)
    ensures forall i :: 0 <= i < |Scan(s)| ==> IsKey(Scan(s)[i].key)
    decreases |s|
  {
    var m := MatchAt(s);
    if m.Some? {
      var next := NextLine(m.value.rest);
      ScanKeys(next);
      MatchKey(s);
      var r := Scan(s);
      assert r == [m.value.entry] + Scan(next);
      assert forall i :: 1 <= i < |r| ==> r[i] == Scan(next)[i - 1];
    } else if s != [] {
      ScanKeys(NextLine(s));
    }
  }

  /** Every key of a file's dictionary is a well-formed key. */
  lemma FluentKeysAreKeys(text: string, k: string)
    requires k in FluentKeys(text)
    ensures IsKey(k)
  {
    DictKeysOfMatches(FindAll(text), k);
    ScanKeys(text);
  }

  /**
    A line on which neither `\s*` of the pattern can run past its end: it is not a
    key followed by nothing but blanks, with or without an `=`.
  */
  predicate Settled(line: string) {
    var n := KeyLength(line);
    n == 0 || SettledTail(line[n..])
  }

  /** What follows a key does not end in blanks, nor in `=` and blanks. */
  predicate SettledTail(tail: string) {
    var rest := TrimLeft(tail);
    rest != [] && (rest[0] == '=' ==> TrimLeft(rest[1..]) != [])
  }

  /** A text every line of which but the last is settled. */
  predicate SettledText(text: string) {
    forall i :: 0 <= i < |Lines(text)| - 1 ==> Settled(Lines(text)[i])
  }

  lemma {:induction false} KeyLengthExtend(a: string, b: string)
    requires KeyLength(a) < |a|
    ensures KeyLength(a + b) == KeyLength(a)
    decreases |a|
  {
    assert (a + b)[0] == a[0];
    if IsKeyChar(a[0]) {
      assert (a + b)[1..] == a[1..] + b;
      KeyLengthExtend(a[1..], b);
    }
  }

  lemma {:induction false} TrimLeftExtend(x: string, t: string)
    requires TrimLeft(x) != []
    ensures TrimLeft(x + t) == TrimLeft(x) + t
    decreases |x|
  {
    assert (x + t)[0] == x[0];
    if IsSpace(x[0]) {
      assert (x + t)[1..] == x[1..] + t;
      TrimLeftExtend(x[1..], t);
    }
  }

  lemma NoNewlineAfter(x: string, i: nat)
    requires '\n' !in x && i <= |x|
    ensures '\n' !in x[i..]
  {
    assert forall j :: 0 <= j < |x| - i ==> x[i..][j] == x[i + j];
  }

  lemma {:induction false} TrimLeftNoNewline(x: string)
    requires '\n' !in x
    ensures '\n' !in TrimLeft(x)
    decreases |x|
  {
    if x != [] && IsSpace(x[0]) {
      NoNewlineAfter(x, 1);
      TrimLeftNoNewline(x[1..]);
    }
  }

  /** After the key, a settled tail followed by more text is matched as it is alone, up to its end. */
  lemma SeparatorLine(key: string, x: string, rest: string)
    requires '\n' !in x && SettledTail(x)
    ensures MatchSeparator(key, x + ("\n" + rest)) ==
      match ParseSeparator(key, x)
      case None => None
      case Some(e) => Some(Match(e, "\n" + rest))
  {
    var t := "\n" + rest;
    TrimLeftExtend(x, t);
    var r := TrimLeft(x);
    if r[0] == '=' {
      assert (r + t)[1..] == r[1..] + t;
      TrimLeftExtend(r[1..], t);
      var a := TrimLeft(r[1..]);
      TrimLeftNoNewline(x);
      NoNewlineAfter(r, 1);
      TrimLeftNoNewline(r[1..]);
      RestOfLinePrefix(a, t);
      assert (a + t)[..|a|] == a && (a + t)[|a|..] == t;
    }
  }

  /** What follows the key on the last line is matched to the end of the text. */
  lemma SeparatorLast(key: string, x: string)
    requires '\n' !in x
    ensures MatchSeparator(key, x) ==
      match ParseSeparator(key, x)
      case None => None
      case Some(e) => Some(Match(e, []))
  {
    var r := TrimLeft(x);
    if r != [] && r[0] == '=' {
      TrimLeftNoNewline(x);
      NoNewlineAfter(r, 1);
      TrimLeftNoNewline(r[1..]);
      var a := TrimLeft(r[1..]);
      RestOfLinePrefix(a, []);
      assert a + [] == a;
      assert a[..|a|] == a && a[|a|..] == [];
    }
  }

  /** A settled line followed by more text is matched as the line alone is, up to its end. */
  lemma MatchLine(line: string, rest: string)
    requires '\n' !in line && Settled(line)
    ensures MatchAt(line + "\n" + rest) ==
      match ParseLine(line)
      case None => None
      case Some(e) => Some(Match(e, "\n" + rest))
  {
    var t := "\n" + rest;
    var s := line + t;
    assert line + "\n" + rest == s;
    var n := KeyLength(line);
    if n == 0 {
      assert s[0] == if line == [] then '\n' else line[0];
    } else {
      var x := line[n..];
      assert x != [];
      KeyLengthExtend(line, t);
      assert s[..n] == line[..n] && s[n..] == x + t;
      NoNewlineAfter(line, n);
      SeparatorLine(line[..n], x, rest);
    }
  }

  /** A settled line contributes its own match, and the search goes on at the next line. */
  lemma ScanLine(line: string, rest: string)
    requires '\n' !in line && Settled(line)
    ensures Scan(line + "\n" + rest) == Found(ParseLine(line)) + Scan(rest)
  {
    MatchLine(line, rest);
    var s := line + "\n" + rest;
    assert s == line + ("\n" + rest);
    RestOfLinePrefix(line, "\n" + rest);
    assert NextLine("\n" + rest) == rest;
    assert s[|line| + 1..] == rest;
  }

  /** The last line contributes its own match, whatever it holds. */
  lemma ScanLastLine(line: string)
    requires '\n' !in line
    ensures Scan(line) == Found(ParseLine(line))
  {
    var n := KeyLength(line);
    RestOfLinePrefix(line, []);
    assert line + [] == line;
    if n > 0 {
      NoNewlineAfter(line, n);
      SeparatorLast(line[..n], line[n..]);
    }
  }

  lemma {:induction false} CollectCons(p: Option<Entry>, ps: seq<Option<Entry>>)
    ensures Collect([p] + ps) == Found(p) + Collect(ps)
    decreases |ps|
  {
    if ps == [] {
      assert [p] + ps == [] + [p];
      CollectAppend([], p);
    } else {
      var init, last := ps[..|ps| - 1], ps[|ps| - 1];
      assert [p] + ps == ([p] + init) + [last];
      assert ps == init + [last];
      CollectAppend([p] + init, last);
      CollectCons(p, init);
      CollectAppend(init, last);
    }
  }

  /** When every line but the last is settled, `findall` is the lines' own matches, in order. */
  lemma {:induction false} ScanLines(lines: seq<string>)
    requires |lines| >= 1
    requires forall i :: 0 <= i < |lines| ==> '\n' !in lines[i]
    requires forall i :: 0 <= i < |lines| - 1 ==> Settled(lines[i])
    ensures FindAll(JoinWith(lines, "\n")) == Collect(Parses(lines))
    decreases |lines|
  {
    var l := lines[0];
    if |lines| == 1 {
      ScanLastLine(l);
      assert Parses(lines) == [] + [ParseLine(l)];
      CollectAppend([], ParseLine(l));
    } else {
      var tail := lines[1..];
      assert forall i :: 0 <= i < |tail| ==> tail[i] == lines[i + 1];
      ScanLines(tail);
      ScanLinesStep(l, tail);
      assert lines == [l] + tail;
    }
  }

  lemma ScanLinesStep(l: string, tail: seq<string>)
    requires |tail| >= 1 && '\n' !in l && Settled(l)
    requires FindAll(JoinWith(tail, "\n")) == Collect(Parses(tail))
    ensures FindAll(JoinWith([l] + tail, "\n")) == Collect(Parses([l] + tail))
  {
    var rest := JoinWith(tail, "\n");
    JoinCons(l, tail, "\n");
    ScanLine(l, rest);
    ParsesCons(l, tail);
    CollectCons(ParseLine(l), Parses(tail));
  }

  lemma ParsesCons(l: string, tail: seq<string>)
    ensures Parses([l] + tail) == [ParseLine(l)] + Parses(tail)
  {
    var lines := [l] + tail;
    assert forall i :: 0 <= i < |tail| ==> lines[i + 1] == tail[i];
  }

  /** On a settled text, reading line by line gives exactly what `findall` gives. */
  lemma FindAllByLines(text: string)
    requires SettledText(text)
    ensures FindAll(text) == Collect(Parses(Lines(text)))
  {
    LinesOfText(text);
    ScanLines(Lines(text));
  }

  /** On a settled text, the keys are exactly the keys of its matching lines. */
  lemma FluentKeysOfLines(text: string, k: string)
    requires SettledText(text)
    ensures k in FluentKeys(text) <==>
      exists i :: 0 <= i < |Lines(text)| && Defines(ParseLine(Lines(text)[i]), k)
  {
    var lines := Lines(text);
    var ps := Parses(lines);
    FindAllByLines(text);
    ParsesAt(lines);
    DictKeys(ps, k);
    if k in FluentKeys(text) {
      var i :| 0 <= i < |ps| && Defines(ps[i], k);
      assert Defines(ParseLine(lines[i]), k);
    } else {
      forall i | 0 <= i < |lines| ensures !Defines(ParseLine(lines[i]), k) {
        assert !Defines(ps[i], k);
      }
    }
  }

  /** On a settled text, the dictionary keeps for each key the value of the last line defining it. */
  lemma FluentLastWins(text: string, j: nat, k: string, v: string)
    requires SettledText(text)
    requires j < |Lines(text)| && ParseLine(Lines(text)[j]) == Some(Entry(k, v))
    requires forall l :: j < l < |Lines(text)| ==> !Defines(ParseLine(Lines(text)[l]), k)
    ensures k in FluentMap(text) && FluentMap(text)[k] == v
  {
    var lines := Lines(text);
    FindAllByLines(text);
    ParsesAt(lines);
    DictLastWins(Parses(lines), j, k, v);
  }

  /** Tuple mode gives the sentinel exactly when nothing matches. */
  lemma TupleSentinel(text: string)
    ensures ExtractTuple(text) == [(None, None)] <==> FindAll(text) == []
  {
    DictOfValid(FindAll(text));
  }

  /** On a settled text, that is exactly when no line matches. */
  lemma TupleSentinelOfLines(text: string)
    requires SettledText(text)
    ensures ExtractTuple(text) == [(None, None)] <==>
      forall i :: 0 <= i < |Lines(text)| ==> ParseLine(Lines(text)[i]).None?
  {
    var lines := Lines(text);
    FindAllByLines(text);
    TupleSentinel(text);
    ParsesAt(lines);
    CollectEmpty(Parses(lines));
  }

  /**
    On a settled text, element 0 of the tuple is the key of the first matching line,
    paired with the value that the last line defining that key gave it.
  */
  lemma TupleFirst(text: string, i: nat, j: nat)
    requires SettledText(text)
    requires i < |Lines(text)| && ParseLine(Lines(text)[i]).Some?
    requires forall l :: 0 <= l < i ==> ParseLine(Lines(text)[l]).None?
    requires j < |Lines(text)| && Defines(ParseLine(Lines(text)[j]), ParseLine(Lines(text)[i]).value.key)
    requires forall l :: j < l < |Lines(text)| ==> !Defines(ParseLine(Lines(text)[l]), ParseLine(Lines(text)[i]).value.key)
    ensures ExtractTuple(text)[0] ==
      (Some(ParseLine(Lines(text)[i]).value.key), Some(ParseLine(Lines(text)[j]).value.value))
  {
    var lines := Lines(text);
    FindAllByLines(text);
    ParsesAt(lines);
    var ps := Parses(lines);
    var k := ps[i].value.key;
    DictFirstKey(ps, i);
    DictLastWins(ps, j, k, ps[j].value.value);
  }

  /** On a single line, tuple mode is the match of that line, or the sentinel. */
  lemma TupleOfLine(line: string)
    requires '\n' !in line
    ensures ExtractTuple(line)[0] ==
      match ParseLine(line)
      case None => (None, None)
      case Some(e) => (Some(e.key), Some(e.value))
  {
    ScanLastLine(line);
    match ParseLine(line)
    case None =>
    case Some(e) =>
      DictOfAppend([], e);
      assert [] + [e] == [e];
  }

  /**
    At a line start, key, blanks, `=`, blanks and a value that runs to the end of the
    text are matched as that key and value, even where the blanks hold line breaks.
  */
  lemma MatchRender(key: string, before: string, after: string, value: string)
    requires IsKey(key) && Blank(before) && Blank(after)
    requires '\n' !in value && (value == [] || !IsSpace(value[0]))
    ensures MatchAt(Render(key, before, after, value)) == Some(Match(Entry(key, value), []))
  {
    var tail := before + ("=" + (after + value));
    var s := Render(key, before, after, value);
    assert s == key + tail;
    assert tail[0] == if before == [] then '=' else before[0];
    KeySpan(key, tail);
    assert s[..|key|] == key && s[|key|..] == tail;
    var sep := "=" + (after + value);
    TrimLeftBlank(before, sep);
    assert TrimLeft(sep) == sep;
    assert sep[1..] == after + value;
    TrimLeftBlank(after, value);
    assert TrimLeft(value) == value;
    RestOfLinePrefix(value, []);
    assert value + [] == value;
    assert value[..|value|] == value && value[|value|..] == [];
  }

  /**
    A line that ends right after `=` takes its value from the next line, since `\s*`
    takes the `'\n'`; read on its own the line would give the empty value.
  */
  lemma ValueOnNextLine(text: string)
    requires text == "title =\n    Welcome"
    ensures FindAll(text) == [Entry("title", "Welcome")]
    ensures ParseLine("title =") == Some(Entry("title", ""))
  {
    var key, value := "title", "Welcome";
    assert IsKey(key);
    assert text == Render(key, " ", "\n    ", value);
    MatchRender(key, " ", "\n    ", value);
    assert Scan(text) == [Entry(key, value)] + Scan(NextLine([]));
    assert Scan([]) == [];
    ParseLineComplete(key, " ", [], []);
    assert Render(key, " ", [], []) == "title =";
  }

  /** The scenario `hello = Hi`: key `hello`, value `Hi`. */
  lemma HelloLine(line: string)
    requires line == "hello = Hi"
    ensures ParseLine(line) == Some(Entry("hello", "Hi"))
  {
    var key, blank, value := "hello", " ", "Hi";
    assert IsKey(key);
    assert line == Render(key, blank, blank, value);
    ParseLineComplete(key, blank, blank, value);
    assert TrimLeft(value) == value;
  }
}
