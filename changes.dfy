/**
  `extract_fluent_strings`: the scan of a unified diff that records, for every key
  touched by a removed (`-`) or added (`+`) line, its old and new value and the
  lines they came from.
*/
module Changes {
  import opened Wrappers
  import opened Text
  import opened Fluent

  /** The per-key record `{"old", "new", "old_line", "new_line"}`. */
  datatype Change = Change(
    oldValue: Option<string>,
    newValue: Option<string>,
    oldLine: Option<string>,
    newLine: Option<string>)

  /** The record a key gets the first time a diff line mentions it. */
  const Unset := Change(None, None, None, None)

  /** The diff lines the scan looks at: those starting with `-` or `+`. */
  predicate Marked(line: string) {
    StartsWith(line, "-") || StartsWith(line, "+")
  }

  /** The side of the record a marker writes: `-` the old one, `+` the new one. */
  function Marker(removed: bool): string {
    if removed then "-" else "+"
  }

  /** The value and line that side of a record holds. */
  function Side(c: Change, removed: bool): (Option<string>, Option<string>) {
    if removed then (c.oldValue, c.oldLine) else (c.newValue, c.newLine)
  }

  /**
    The entry a marked line carries: element 0 of `extract_fluent(line[1:].strip(), "tuple")`,
    present when its key is not `None`.
  */
  function LineEntry(line: string): Option<Entry>
    requires line != []
  {
    var pair := ExtractTuple(Strip(line[1..]))[0];
    if pair.0.Some? then Some(Entry(pair.0.value, pair.1.value)) else None
  }

  /** What the scan reads off a line: the pair of a marked line, nothing for any other line. */
  function Reading(line: string): Option<Entry> {
    if Marked(line) then LineEntry(line) else None
  }

  /** The readings of all the lines of a diff. */
  function Readings(lines: seq<string>): (rs: seq<Option<Entry>>)
    ensures |rs| == |lines|
  {
    seq(|lines|, i requires 0 <= i < |lines| => Reading(lines[i]))
  }

  lemma ReadingAt(lines: seq<string>, i: nat)
    requires i < |lines|
    ensures Readings(lines)[i] == Reading(lines[i])
  {
  }

  lemma ReadingsAt(lines: seq<string>)
    ensures forall i :: 0 <= i < |lines| ==> Readings(lines)[i] == Reading(lines[i])
  {
  }

  /** Whether a line with a reading writes the old side (it starts with `-`) or the new side. */
  predicate Writes(line: string, removed: bool) {
    if removed then StartsWith(line, "-") else !StartsWith(line, "-")
  }

  /**
    One iteration of the scan: a line that reads as an entry creates the key's record
    if it has none, then sets the value and the stripped line of the side its marker names.
  */
  function Apply(changes: map<string, Change>, line: string, reading: Option<Entry>): map<string, Change> {
    match reading
    case None => changes
    case Some(e) =>
      var rec := if e.key in changes then changes[e.key] else Unset;
      if StartsWith(line, "-") then
        changes[e.key := rec.(oldValue := Some(e.value), oldLine := Some(Strip(line)))]
      else
        changes[e.key := rec.(newValue := Some(e.value), newLine := Some(Strip(line)))]
  }

  /** The records after the scan has applied each line to its reading, in order. */
  function Replay(lines: seq<string>, rs: seq<Option<Entry>>): map<string, Change>
    requires |rs| == |lines|
  {
    if lines == [] then map[]
    else Apply(Replay(lines[..|lines| - 1], rs[..|rs| - 1]), lines[|lines| - 1], rs[|rs| - 1])
  }

  /** The records after the scan has seen `lines`. */
  function Accumulate(lines: seq<string>): map<string, Change> {
    Replay(lines, Readings(lines))
  }

  lemma ReplayPrefix(lines: seq<string>, rs: seq<Option<Entry>>, i: nat)
    requires |rs| == |lines| && i < |lines|
    ensures Replay(lines[..i + 1], rs[..i + 1]) == Apply(Replay(lines[..i], rs[..i]), lines[i], rs[i])
  {
    assert lines[..i + 1][..i] == lines[..i];
    assert rs[..i + 1][..i] == rs[..i];
  }

  /** `Apply` as the scan performs it: first a fresh record when the key has none, then the update. */
  lemma ApplyInTwoSteps(changes: map<string, Change>, line: string, e: Entry)
    ensures Apply(changes, line, Some(e)) ==
      var c := if e.key in changes then changes else changes[e.key := Unset];
      if StartsWith(line, "-") then c[e.key := c[e.key].(oldValue := Some(e.value), oldLine := Some(Strip(line)))]
      else c[e.key := c[e.key].(newValue := Some(e.value), newLine := Some(Strip(line)))]
  {
  }

  /**
    The body of the scan for one line up to the lookup: `extract_fluent(line[1:].strip(), "tuple")[0]`
    on a marked line, as an entry when its key is not `None`.
  */
  method ReadLine(line: string) returns (entry: Option<Entry>)
    ensures entry == Reading(line)
  {
    entry := None;
    if StartsWith(line, "-") || StartsWith(line, "+") {
      var parsed := ExtractFluent(Strip(line[1..]));
      DictOfValid(FindAll(Strip(line[1..])));
      var pair := AsTuple(parsed)[0];
      if pair.0.Some? {
        entry := Some(Entry(pair.0.value, pair.1.value));
      }
    }
  }

  /** `extract_fluent_strings(diff_text)`. */
  method ExtractFluentStrings(diffText: string) returns (changes: map<string, Change>)
    ensures changes == Accumulate(SplitLines(diffText))
  {
    var lines := SplitLines(diffText);
    ghost var rs := Readings(lines);
    changes := map[];
    for i := 0 to |lines|
      invariant changes == Replay(lines[..i], rs[..i])
    {
      var line := lines[i];
      var entry := ReadLine(line);
      ReadingAt(lines, i);
      ReplayPrefix(lines, rs, i);
      if entry.Some? {
        var key, value := entry.value.key, entry.value.value;
        ApplyInTwoSteps(changes, line, entry.value);
        if key !in changes {
          changes := changes[key := Unset];
        }
        if StartsWith(line, "-") {
          changes := changes[key := changes[key].(oldValue := Some(value), oldLine := Some(Strip(line)))];
        } else {
          changes := changes[key := changes[key].(newValue := Some(value), newLine := Some(Strip(line)))];
        }
      }
    }
    assert lines[..|lines|] == lines;
    assert rs[..|rs|] == rs;
  }

  /** A line that writes side `removed` of the record of `k`. */
  predicate Touches(line: string, removed: bool, k: string) {
    StartsWith(line, Marker(removed)) && Defines(Reading(line), k)
  }

  /** An unmarked line, or one whose pair has no key, changes nothing. */
  lemma UnreadLineIgnored(changes: map<string, Change>, line: string)
    requires !Marked(line) || LineEntry(line).None?
    ensures Apply(changes, line, Reading(line)) == changes
  {
  }

  /** The keys with a record are the keys some reading names. */
  lemma {:induction false} ReplayKeys(lines: seq<string>, rs: seq<Option<Entry>>, k: string)
    requires |rs| == |lines|
    ensures k in Replay(lines, rs) <==> exists i :: 0 <= i < |rs| && Defines(rs[i], k)
  {
    if lines != [] {
      var init, rinit := lines[..|lines| - 1], rs[..|rs| - 1];
      ReplayKeys(init, rinit, k);
      DefinedSomewhere(rinit, rs[|rs| - 1], k);
      assert rs == rinit + [rs[|rs| - 1]];
    }
  }

  /** What applying one line does to one side of the record of `k`. */
  lemma ApplySide(changes: map<string, Change>, line: string, r: Option<Entry>, removed: bool, k: string)
    requires k in Apply(changes, line, r)
    ensures Defines(r, k) && Writes(line, removed) ==>
      Side(Apply(changes, line, r)[k], removed) == (Some(r.value.value), Some(Strip(line)))
    ensures !(Defines(r, k) && Writes(line, removed)) ==>
      Side(Apply(changes, line, r)[k], removed) == if k in changes then Side(changes[k], removed) else (None, None)
  {
  }

  /** Each side of a record holds the value and the stripped line of the last line that wrote it. */
  lemma {:induction false} ReplayLastWrite(lines: seq<string>, rs: seq<Option<Entry>>, removed: bool, j: nat, k: string)
    requires |rs| == |lines|
    requires j < |lines| && Defines(rs[j], k) && Writes(lines[j], removed)
    requires forall l :: j < l < |lines| ==> !(Defines(rs[l], k) && Writes(lines[l], removed))
    ensures k in Replay(lines, rs)
    ensures Side(Replay(lines, rs)[k], removed) == (Some(rs[j].value.value), Some(Strip(lines[j])))
  {
    var init, rinit := lines[..|lines| - 1], rs[..|rs| - 1];
    var prev := Replay(init, rinit);
    assert Replay(lines, rs) == Apply(prev, lines[|lines| - 1], rs[|rs| - 1]);
    if j < |lines| - 1 {
      ReplayLastWrite(init, rinit, removed, j, k);
    }
    ApplySide(prev, lines[|lines| - 1], rs[|rs| - 1], removed, k);
  }

  /** A side no line wrote stays `None` in both its fields. */
  lemma {:induction false} ReplayNoWrite(lines: seq<string>, rs: seq<Option<Entry>>, removed: bool, k: string)
    requires |rs| == |lines| && k in Replay(lines, rs)
    requires forall l :: 0 <= l < |lines| ==> !(Defines(rs[l], k) && Writes(lines[l], removed))
    ensures Side(Replay(lines, rs)[k], removed) == (None, None)
  {
    var init, rinit := lines[..|lines| - 1], rs[..|rs| - 1];
    var prev := Replay(init, rinit);
    assert Replay(lines, rs) == Apply(prev, lines[|lines| - 1], rs[|rs| - 1]);
    ApplySide(prev, lines[|lines| - 1], rs[|rs| - 1], removed, k);
    if k in prev {
      ReplayNoWrite(init, rinit, removed, k);
    }
  }

  /** On a marked line, the marker of a side is there exactly when the line writes that side. */
  lemma MarkerWrites(line: string, removed: bool)
    requires Marked(line)
    ensures StartsWith(line, Marker(removed)) <==> Writes(line, removed)
  {
    assert StartsWith(line, "-") ==> line[0] == '-';
    assert StartsWith(line, "+") ==> line[0] == '+';
  }

  /** A line that touches `k` writes the side its marker names. */
  lemma TouchesWrites(line: string, removed: bool, k: string)
    ensures Touches(line, removed, k) <==> Defines(Reading(line), k) && Writes(line, removed)
  {
    if Marked(line) {
      MarkerWrites(line, removed);
    }
  }

  /** A key has a record exactly when some marked line's pair names it. */
  lemma AccumulateKeys(lines: seq<string>, k: string)
    ensures k in Accumulate(lines) <==> exists i :: 0 <= i < |lines| && Defines(Reading(lines[i]), k)
  {
    var rs := Readings(lines);
    ReadingsAt(lines);
    ReplayKeys(lines, rs, k);
    if k in Accumulate(lines) {
      var i :| 0 <= i < |rs| && Defines(rs[i], k);
      assert Defines(Reading(lines[i]), k);
    } else {
      forall i | 0 <= i < |lines| ensures !Defines(Reading(lines[i]), k) {
        assert !Defines(rs[i], k);
      }
    }
  }

  /**
    After the scan, each side of a key's record holds the value and the stripped line
    of the last line with that side's marker that names the key.
  */
  lemma LastTouchWins(lines: seq<string>, removed: bool, j: nat, k: string)
    requires j < |lines| && Touches(lines[j], removed, k)
    requires forall l :: j < l < |lines| ==> !Touches(lines[l], removed, k)
    ensures k in Accumulate(lines)
    ensures Side(Accumulate(lines)[k], removed) == (Some(Reading(lines[j]).value.value), Some(Strip(lines[j])))
  {
    var rs := Readings(lines);
    ReadingsAt(lines);
    TouchesWrites(lines[j], removed, k);
    forall l | j < l < |lines| ensures !(Defines(rs[l], k) && Writes(lines[l], removed)) {
      TouchesWrites(lines[l], removed, k);
    }
    ReplayLastWrite(lines, rs, removed, j, k);
  }

  /** A side that no line touched stays `None` in both its fields. */
  lemma NeverTouched(lines: seq<string>, removed: bool, k: string)
    requires k in Accumulate(lines)
    requires forall l :: 0 <= l < |lines| ==> !Touches(lines[l], removed, k)
    ensures Side(Accumulate(lines)[k], removed) == (None, None)
  {
    var rs := Readings(lines);
    ReadingsAt(lines);
    forall l | 0 <= l < |lines| ensures !(Defines(rs[l], k) && Writes(lines[l], removed)) {
      TouchesWrites(lines[l], removed, k);
    }
    ReplayNoWrite(lines, rs, removed, k);
  }

  /** On a diff line, the pair is the pattern's reading of the line without its marker, stripped. */
  lemma LineEntryParses(line: string)
    requires line != [] && NoLineBreak(line)
    ensures LineEntry(line) == ParseLine(Strip(line[1..]))
  {
    var text := Strip(line[1..]);
    StripSub(line[1..]);
    assert forall i :: 0 <= i < |line[1..]| ==> line[1..][i] == line[i + 1];
    assert '\n' !in line[1..];
    TupleOfLine(text);
  }

  /** `+++ b/…` file headers never create or change a record. */
  lemma AddedHeaderIgnored(line: string)
    requires StartsWith(line, "++") && NoLineBreak(line)
    ensures LineEntry(line) == None
  {
    PlusTextIgnored(line[1..]);
    NoMatchNoEntry(line);
  }

  /** A marked line whose stripped remainder does not match has no entry. */
  lemma NoMatchNoEntry(line: string)
    requires line != [] && NoLineBreak(line) && ParseLine(Strip(line[1..])) == None
    ensures LineEntry(line) == None
  {
    LineEntryParses(line);
  }

  lemma PlusTextIgnored(s: string)
    requires StartsWith(s, "+")
    ensures ParseLine(Strip(s)) == None
  {
    var t := Strip(s);
    StripFromNonSpace(s);
    TrimRightKeeps(s, 0);
    assert t[..1] == "+";
    UnkeyedLineIgnored(t);
  }

  /** `--- a/…` and `--- /dev/null` file headers never create or change a record. */
  lemma RemovedHeaderIgnored(line: string)
    requires StartsWith(line, "--- ") && |line| > 4 && !IsSpace(line[4]) && line[4] != '='
    requires NoLineBreak(line)
    ensures LineEntry(line) == None
  {
    var s := line[1..];
    assert s[0] == '-' && s[1] == '-' && s[2] == ' ' && s[3] == line[4];
    DashesTextIgnored(s);
    NoMatchNoEntry(line);
  }

  lemma DashesTextIgnored(s: string)
    requires |s| > 3 && s[0] == '-' && s[1] == '-' && s[2] == ' ' && !IsSpace(s[3]) && s[3] != '='
    ensures ParseLine(Strip(s)) == None
  {
    StripFromNonSpace(s);
    TrimRightKeeps(s, 3);
    var t := Strip(s);
    assert t[..4] == s[..4];
    assert t[..2] == "--" && t[2] == ' ' && t[3] == s[3];
    DashesIgnored(t);
  }

  /** A line `-- x…` whose `x` is neither a blank nor `=`: the key `--` is not followed by `=`. */
  lemma DashesIgnored(t: string)
    requires |t| > 3 && t[..2] == "--" && t[2] == ' ' && !IsSpace(t[3]) && t[3] != '='
    ensures ParseLine(t) == None
  {
    var key, tail := t[..2], t[2..];
    assert t == key + tail;
    KeySpan(key, tail);
    assert tail == " " + tail[1..];
    TrimLeftBlank(" ", tail[1..]);
    assert TrimLeft(tail[1..]) == tail[1..];
  }

  /** A value with no whitespace at either end and no line break. */
  predicate Trimmed(v: string) {
    v != [] && !IsSpace(v[0]) && !IsSpace(v[|v| - 1]) && NoLineBreak(v)
  }

  /** The diff line `<marker>key = value`. */
  function DiffLine(marker: char, key: string, v: string): string {
    [marker] + Render(key, " ", " ", v)
  }

  lemma DiffLineText(marker: char, key: string, v: string)
    requires !IsSpace(marker) && !IsLineBreak(marker)
    requires IsKey(key) && Trimmed(v)
    ensures NoLineBreak(DiffLine(marker, key, v))
    ensures DiffLine(marker, key, v)[1..] == Render(key, " ", " ", v)
    ensures Strip(DiffLine(marker, key, v)) == DiffLine(marker, key, v)
    ensures Strip(Render(key, " ", " ", v)) == Render(key, " ", " ", v)
  {
    var text := Render(key, " ", " ", v);
    var line := DiffLine(marker, key, v);
    assert text == key + (" " + ("=" + (" " + v)));
    assert text[0] == key[0] && text[|text| - 1] == v[|v| - 1];
    forall i | 0 <= i < |line| ensures !IsLineBreak(line[i]) {
      if i > |line| - |v| - 1 {
        assert line[i] == v[i - (|line| - |v|)];
      } else if 0 < i <= |key| {
        assert line[i] == key[i - 1];
      }
    }
    StripTrimmed(text);
    StripTrimmed(line);
  }

  lemma RenderReads(key: string, v: string)
    requires IsKey(key) && Trimmed(v)
    ensures ParseLine(Render(key, " ", " ", v)) == Some(Entry(key, v))
  {
    ParseLineComplete(key, " ", " ", v);
    assert TrimLeft(v) == v;
  }

  /** A diff line `-key = value` or `+key = value` reads as that key and value, and is its own strip. */
  lemma DiffLineReads(marker: char, key: string, v: string)
    requires marker == '-' || marker == '+'
    requires IsKey(key) && Trimmed(v)
    ensures Marked(DiffLine(marker, key, v))
    ensures StartsWith(DiffLine(marker, key, v), "-") <==> marker == '-'
    ensures Reading(DiffLine(marker, key, v)) == Some(Entry(key, v))
    ensures Strip(DiffLine(marker, key, v)) == DiffLine(marker, key, v)
  {
    var line := DiffLine(marker, key, v);
    assert line[0] == marker;
    DiffLineText(marker, key, v);
    RenderReads(key, v);
    LineEntryParses(line);
  }

  /** A removed line followed by an added line for the same key fills both sides of its record. */
  lemma EditPair(removed: string, added: string, key: string, oldValue: string, newValue: string)
    requires StartsWith(removed, "-") && Reading(removed) == Some(Entry(key, oldValue))
    requires !StartsWith(added, "-") && Reading(added) == Some(Entry(key, newValue))
    ensures key in Accumulate([removed, added])
    ensures Accumulate([removed, added])[key] ==
      Change(Some(oldValue), Some(newValue), Some(Strip(removed)), Some(Strip(added)))
  {
    var lines := [removed, added];
    var rs := Readings(lines);
    ReadingAt(lines, 0);
    ReadingAt(lines, 1);
    ReplayLastWrite(lines, rs, true, 0, key);
    ReplayLastWrite(lines, rs, false, 1, key);
  }

  /**
    The scenario of a one-line edit: `-key = old` then `+key = new` leaves the record
    of `key` with both values and both lines.
  */
  lemma OneLineEdit(key: string, oldValue: string, newValue: string)
    requires IsKey(key) && Trimmed(oldValue) && Trimmed(newValue)
    ensures var removed, added := DiffLine('-', key, oldValue), DiffLine('+', key, newValue);
      key in Accumulate([removed, added]) &&
      Accumulate([removed, added])[key] == Change(Some(oldValue), Some(newValue), Some(removed), Some(added))
  {
    DiffLineReads('-', key, oldValue);
    DiffLineReads('+', key, newValue);
    EditPair(DiffLine('-', key, oldValue), DiffLine('+', key, newValue), key, oldValue, newValue);
  }
}
