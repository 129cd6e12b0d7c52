/**
  The "May need Edit" part of the report: every commit's diff of the source
  language directory is cut into per-file segments, the `.ftl` segments are scanned
  for keys whose value was rewritten, and every such edit is looked up in the
  current translations.

  `git rev-list --all` and `git diff-tree` are replaced by a sequence of commits,
  each with the text `diff-tree` printed for it; `os.path.relpath` is a parameter.
*/
module History {
  import opened Wrappers
  import opened Text
  import opened Fluent
  import opened Changes
  import opened KeyDiff

  /** A commit id and the (stripped) output of `git diff-tree … -p <id> -- <source dir>`. */
  datatype Commit = Commit(id: string, diff: string)

  /** A member of `may_changed`: the relative path, the key and the commit that rewrote it. */
  datatype Edit = Edit(path: string, key: string, commit: string)

  /** What is reported for an edit: the current source value and the target value, if any. */
  datatype Report = Report(edit: Edit, sourceValue: string, targetValue: Option<string>)

  /** The text the diff is split at. */
  const DiffMarker := "diff --git"

  // ---------------------------------------------------------------------------
  // Runs of steps that may raise

  /** One more step after `acc`: the first exception is kept, otherwise the sets are united. */
  function Join<T>(acc: Outcome<set<T>>, o: Outcome<set<T>>): Outcome<set<T>> {
    if acc.Crash? then acc
    else if o.Crash? then o
    else Done(acc.value + o.value)
  }

  /** The outcomes of a run of steps, in order: the union of their sets, or the first exception. */
  function Gather<T>(os: seq<Outcome<set<T>>>): Outcome<set<T>> {
    if os == [] then Done({}) else Join(Gather(os[..|os| - 1]), os[|os| - 1])
  }

  lemma GatherStep<T>(os: seq<Outcome<set<T>>>, i: nat)
    requires i < |os|
    ensures Gather(os[..i + 1]) == Join(Gather(os[..i]), os[i])
  {
    assert os[..i + 1][..i] == os[..i];
  }

  /** A run completes exactly when every step does, and then it holds what the steps produced. */
  lemma {:induction false} GatherDone<T>(os: seq<Outcome<set<T>>>, x: T)
    ensures Gather(os).Done? <==> forall i :: 0 <= i < |os| ==> os[i].Done?
    ensures Gather(os).Done? ==> (x in Gather(os).value <==> exists i :: 0 <= i < |os| && x in os[i].value)
  {
    if os != [] {
      var init, last := os[..|os| - 1], os[|os| - 1];
      GatherDone(init, x);
      assert forall i :: 0 <= i < |init| ==> init[i] == os[i];
      if Gather(os).Done? && x in Gather(os).value && x !in last.value {
        var i :| 0 <= i < |init| && x in init[i].value;
        assert x in os[i].value;
      }
      if Gather(os).Done? && x in last.value {
        assert x in os[|os| - 1].value;
      }
    }
  }

  /** The first step that raises decides the exception of the whole run. */
  lemma {:induction false} GatherCrashAt<T>(os: seq<Outcome<set<T>>>, i: nat)
    requires i < |os| && Gather(os[..i]).Done? && os[i].Crash?
    ensures Gather(os) == Crash(os[i].fault)
  {
    if i == |os| - 1 {
      assert os[..|os| - 1] == os[..i];
    } else {
      var init := os[..|os| - 1];
      assert init[..i] == os[..i];
      GatherCrashAt(init, i);
    }
  }

  /** When every step that raises raises `f`, a run that raises raises `f`. */
  lemma {:induction false} GatherFault<T>(os: seq<Outcome<set<T>>>, f: Fault)
    requires forall i :: 0 <= i < |os| && os[i].Crash? ==> os[i].fault == f
    ensures Gather(os).Crash? ==> Gather(os).fault == f
  {
    if os != [] {
      var init := os[..|os| - 1];
      assert forall i :: 0 <= i < |init| ==> init[i] == os[i];
      GatherFault(init, f);
    }
  }

  // ---------------------------------------------------------------------------
  // Segments of one commit's diff

  /** `re.split(r"diff --git", diff_output)[1:]`: the per-file segments, without the text before the first. */
  function Segments(diff: string): seq<string> {
    SplitOn(diff, DiffMarker)[1..]
  }

  /** There are no segments exactly when the diff has no marker, and no segment holds one. */
  lemma SegmentsFacts(diff: string)
    ensures Segments(diff) == [] <==> !Contains(diff, DiffMarker)
    ensures forall i :: 0 <= i < |Segments(diff)| ==> !Contains(Segments(diff)[i], DiffMarker)
  {
    SplitOnPieces(diff, DiffMarker);
    var pieces := SplitOn(diff, DiffMarker);
    assert forall i :: 0 <= i < |Segments(diff)| ==> Segments(diff)[i] == pieces[i + 1];
  }

  /** Whatever precedes the first `diff --git` is dropped; the segments are the pieces after it. */
  lemma PreambleDiscarded(pre: string, rest: string)
    requires !Contains(pre, DiffMarker)
    ensures Segments(pre + DiffMarker + rest) == SplitOn(rest, DiffMarker)
  {
    var s, m := pre + DiffMarker + rest, DiffMarker;
    forall j: nat | j < |pre| ensures !OccursAt(s, m, j) {
      if j + |m| <= |pre| {
        assert s[j..j + |m|] == pre[j..j + |m|];
        assert !OccursAt(pre, m, j);
      } else {
        assert s[|pre|] == 'd';
        assert 0 < |pre| - j < |m| && m[|pre| - j] != 'd';
        assert j + |m| <= |s| ==> s[j..j + |m|][|pre| - j] == s[|pre|];
      }
    }
    SplitOnFirst(pre, m, rest);
  }

  /** `file_diff.strip().splitlines()`. */
  function SegmentLines(segment: string): seq<string> {
    SplitLines(Strip(segment))
  }

  /** `s[2:]`: the string without its first two characters, empty when it is shorter. */
  function DropTwo(s: string): string {
    if |s| <= 2 then [] else s[2..]
  }

  /**
    `file_lines[0].split()[1][2:]`: the second word of the segment's first line without
    its `a/`/`b/` prefix; `None` stands for the `IndexError` raised when there is no
    first line or it has fewer than two words.
  */
  function SegmentPath(segment: string): (r: Option<string>)
    ensures r.Some? ==> |SegmentLines(segment)| > 0
  {
    var lines := SegmentLines(segment);
    if |lines| == 0 then None
    else
      var words := Tokens(lines[0]);
      if |words| < 2 then None else Some(DropTwo(words[1]))
  }

  /** `"\n".join(file_lines[1:])`: the segment without its header line. */
  function SegmentBody(segment: string): string
    requires |SegmentLines(segment)| > 0
  {
    JoinWith(SegmentLines(segment)[1..], "\n")
  }

  /** An edit worth reporting: both an old and a new value were seen, and they differ. */
  predicate Qualifies(c: Change) {
    c.oldValue.Some? && c.newValue.Some? && c.oldValue != c.newValue
  }

  /** The `(relative_path, key, commit)` triples a scanned file adds to `may_changed`. */
  function QualifiedEdits(changes: map<string, Change>, path: string, commit: string): set<Edit> {
    set k | k in changes && Qualifies(changes[k]) :: Edit(path, k, commit)
  }

  /** What one segment of a commit contributes, or the `IndexError` its header raises. */
  function SegmentEdits(segment: string, commit: string, relPath: string -> string): Outcome<set<Edit>> {
    match SegmentPath(segment)
    case None => Crash(IndexError)
    case Some(path) =>
      if !EndsWith(path, FluentSuffix) then Done({})
      else Done(QualifiedEdits(Accumulate(SplitLines(SegmentBody(segment))), relPath(path), commit))
  }

  function SegmentOutcomes(segments: seq<string>, commit: string, relPath: string -> string): (r: seq<Outcome<set<Edit>>>)
    ensures |r| == |segments|
  {
    seq(|segments|, i requires 0 <= i < |segments| => SegmentEdits(segments[i], commit, relPath))
  }

  /** The `i`-th segment outcome is what the `i`-th segment contributes. */
  lemma SegmentOutcomesAt(segments: seq<string>, commit: string, relPath: string -> string, i: nat)
    requires i < |segments|
    ensures SegmentOutcomes(segments, commit, relPath)[i] == SegmentEdits(segments[i], commit, relPath)
  {
  }

  /** What one commit contributes; an empty diff is skipped. */
  function CommitEdits(c: Commit, relPath: string -> string): Outcome<set<Edit>> {
    if c.diff == [] then Done({}) else Gather(SegmentOutcomes(Segments(c.diff), c.id, relPath))
  }

  function CommitOutcomes(commits: seq<Commit>, relPath: string -> string): (r: seq<Outcome<set<Edit>>>)
    ensures |r| == |commits|
  {
    seq(|commits|, i requires 0 <= i < |commits| => CommitEdits(commits[i], relPath))
  }

  /** The `i`-th commit outcome is what the `i`-th commit contributes. */
  lemma CommitOutcomesAt(commits: seq<Commit>, relPath: string -> string, i: nat)
    requires i < |commits|
    ensures CommitOutcomes(commits, relPath)[i] == CommitEdits(commits[i], relPath)
  {
  }

  /** `may_changed` after all commits, or the exception that stopped the walk. */
  function HistoryEdits(commits: seq<Commit>, relPath: string -> string): Outcome<set<Edit>> {
    Gather(CommitOutcomes(commits, relPath))
  }

  // ---------------------------------------------------------------------------
  // The loops of `print_edited_translations`

  /** The loop over `changes.items()` that adds the qualifying keys. */
  method QualifiedKeys(changes: map<string, Change>, path: string, commit: string) returns (edits: set<Edit>)
    ensures edits == QualifiedEdits(changes, path, commit)
  {
    edits := {};
    var todo := changes.Keys;
    while todo != {}
      invariant todo <= changes.Keys
      invariant forall e :: e in edits <==>
        e.path == path && e.commit == commit && e.key in changes && e.key !in todo && Qualifies(changes[e.key])
      decreases todo
    {
      var key :| key in todo;
      if Qualifies(changes[key]) {
        edits := edits + {Edit(path, key, commit)};
      }
      todo := todo - {key};
    }
    assert forall e :: e in edits <==> e in QualifiedEdits(changes, path, commit);
  }

  /** The body of the loop over `file_diffs` for one segment. */
  method ScanSegment(fileDiff: string, commit: string, relPath: string -> string) returns (r: Outcome<set<Edit>>)
    ensures r == SegmentEdits(fileDiff, commit, relPath)
  {
    var fileLines := SplitLines(Strip(fileDiff));
    if |fileLines| == 0 {
      return Crash(IndexError);
    }
    var words := Tokens(fileLines[0]);
    if |words| < 2 {
      return Crash(IndexError);
    }
    var filePath := DropTwo(words[1]);
    if !EndsWith(filePath, FluentSuffix) {
      return Done({});
    }
    var changes := ExtractFluentStrings(JoinWith(fileLines[1..], "\n"));
    var edits := QualifiedKeys(changes, relPath(filePath), commit);
    return Done(edits);
  }

  /** The loops over the commits and their segments that build `may_changed`. */
  method CollectEdits(commits: seq<Commit>, relPath: string -> string) returns (result: Outcome<set<Edit>>)
    ensures result == HistoryEdits(commits, relPath)
  {
    ghost var outs := CommitOutcomes(commits, relPath);
    var mayChanged: set<Edit> := {};
    for i := 0 to |commits|
      invariant Gather(outs[..i]) == Done(mayChanged)
    {
      var commit := commits[i];
      GatherStep(outs, i);
      if commit.diff != [] {
        var fileDiffs := Segments(commit.diff);
        ghost var segOuts := SegmentOutcomes(fileDiffs, commit.id, relPath);
        ghost var before := mayChanged;
        ghost var found: set<Edit> := {};
        for j := 0 to |fileDiffs|
          invariant Gather(segOuts[..j]) == Done(found)
          invariant mayChanged == before + found
        {
          GatherStep(segOuts, j);
          var r := ScanSegment(fileDiffs[j], commit.id, relPath);
          if r.Crash? {
            GatherCrashAt(segOuts, j);
            GatherCrashAt(outs, i);
            return r;
          }
          mayChanged := mayChanged + r.value;
          found := found + r.value;
        }
        assert segOuts[..|segOuts|] == segOuts;
        assert outs[i] == Gather(segOuts);
      } else {
        assert outs[i] == Done({});
        assert mayChanged + {} == mayChanged;
      }
    }
    assert outs[..|outs|] == outs;
    return Done(mayChanged);
  }

  // ---------------------------------------------------------------------------
  // Properties of the scan

  /** A segment raises exactly when it has no first line or that line has fewer than two words. */
  lemma SegmentCrash(segment: string, commit: string, relPath: string -> string)
    ensures SegmentEdits(segment, commit, relPath).Crash? <==>
      |SegmentLines(segment)| == 0 || |Tokens(SegmentLines(segment)[0])| < 2
  {
  }

  /** The header `a/<p> b/<q>` names the file `q`. */
  lemma HeaderPath(segment: string, p: string, q: string)
    requires NoSpace(p) && NoSpace(q)
    requires |SegmentLines(segment)| > 0 && SegmentLines(segment)[0] == "a/" + p + " b/" + q
    ensures SegmentPath(segment) == Some(q)
  {
    var words := ["a/" + p, "b/" + q];
    assert JoinWith(words, " ") == "a/" + p + " b/" + q by {
      assert JoinWith(words[1..], " ") == "b/" + q;
    }
    forall i | 0 <= i < 2 ensures words[i] != [] && NoSpace(words[i]) {
      assert words[i][0] != ' ';
      assert forall c :: 2 <= c < |words[i]| ==> words[i][c] == (if i == 0 then p else q)[c - 2];
    }
    TokensOfJoin(words);
    assert DropTwo("b/" + q) == q;
  }

  /** Files not ending in `.ftl` contribute nothing. */
  lemma OtherFilesIgnored(segment: string, commit: string, relPath: string -> string)
    requires SegmentPath(segment).Some? && !EndsWith(SegmentPath(segment).value, FluentSuffix)
    ensures SegmentEdits(segment, commit, relPath) == Done({})
  {
  }

  /** The accumulator sees the lines of the segment after the header line, and only those. */
  lemma BodyExcludesHeader(segment: string)
    requires |SegmentLines(segment)| > 0
    ensures SplitLines(SegmentBody(segment)) == SegmentLines(segment)[1..]
  {
    var text := Strip(segment);
    var lines := SegmentLines(segment);
    assert text != [];
    LineBreakIsSpace(text[|text| - 1]);
    var body := lines[1..];
    SplitLinesHaveNoBreaks(text);
    assert forall i :: 0 <= i < |body| ==> body[i] == lines[i + 1];
    SplitLinesOfJoin(body);
  }

  /** `may_changed` gets `(path, key, commit)` exactly for the qualifying keys of the scanned file. */
  lemma QualifiedEditsMembers(changes: map<string, Change>, path: string, commit: string, e: Edit)
    ensures e in QualifiedEdits(changes, path, commit) <==>
      e.path == path && e.commit == commit && e.key in changes && Qualifies(changes[e.key])
  {
    if e.path == path && e.commit == commit && e.key in changes && Qualifies(changes[e.key]) {
      assert e == Edit(path, e.key, commit);
    }
  }

  /**
    Once the last `-` line and the last `+` line for a key are known, the key qualifies
    exactly when they carry different values.
  */
  lemma EditQualifies(lines: seq<string>, k: string, i: nat, j: nat)
    requires i < |lines| && Touches(lines[i], true, k)
    requires forall l :: i < l < |lines| ==> !Touches(lines[l], true, k)
    requires j < |lines| && Touches(lines[j], false, k)
    requires forall l :: j < l < |lines| ==> !Touches(lines[l], false, k)
    ensures k in Accumulate(lines)
    ensures Qualifies(Accumulate(lines)[k]) <==> Reading(lines[i]).value.value != Reading(lines[j]).value.value
  {
    LastTouchWins(lines, true, i, k);
    LastTouchWins(lines, false, j, k);
  }

  /** A key only ever removed, or only ever added, never qualifies. */
  lemma OneSidedNeverQualifies(lines: seq<string>, k: string, removed: bool)
    requires k in Accumulate(lines)
    requires forall l :: 0 <= l < |lines| ==> !Touches(lines[l], removed, k)
    ensures !Qualifies(Accumulate(lines)[k])
  {
    NeverTouched(lines, removed, k);
  }

  /** The scenario `-key = old`, `+key = new` with `old != new` qualifies. */
  lemma RewriteQualifies(key: string, oldValue: string, newValue: string)
    requires IsKey(key) && Trimmed(oldValue) && Trimmed(newValue) && oldValue != newValue
    ensures var lines := [DiffLine('-', key, oldValue), DiffLine('+', key, newValue)];
      key in Accumulate(lines) && Qualifies(Accumulate(lines)[key])
  {
    OneLineEdit(key, oldValue, newValue);
  }

  /** Every edit of a segment is tagged with its commit, so one key can be listed once per commit. */
  lemma EditsCarryCommit(segment: string, commit: string, relPath: string -> string, e: Edit)
    requires SegmentEdits(segment, commit, relPath).Done?
    requires e in SegmentEdits(segment, commit, relPath).value
    ensures e.commit == commit
  {
    match SegmentPath(segment)
    case Some(path) =>
      if EndsWith(path, FluentSuffix) {
        QualifiedEditsMembers(Accumulate(SplitLines(SegmentBody(segment))), relPath(path), commit, e);
      }
  }

  /** The walk completes exactly when no commit raises, and then gathers every commit's edits. */
  lemma HistoryMembers(commits: seq<Commit>, relPath: string -> string, e: Edit)
    ensures HistoryEdits(commits, relPath).Done? <==>
      forall i :: 0 <= i < |commits| ==> CommitEdits(commits[i], relPath).Done?
    ensures HistoryEdits(commits, relPath).Done? ==>
      (e in HistoryEdits(commits, relPath).value <==>
        exists i :: 0 <= i < |commits| && e in CommitEdits(commits[i], relPath).value)
  {
    var outs := CommitOutcomes(commits, relPath);
    forall i | 0 <= i < |commits| ensures outs[i] == CommitEdits(commits[i], relPath) {
      CommitOutcomesAt(commits, relPath, i);
    }
    GatherDone(outs, e);
    if HistoryEdits(commits, relPath).Done? && e in HistoryEdits(commits, relPath).value {
      var i :| 0 <= i < |outs| && e in outs[i].value;
      assert e in CommitEdits(commits[i], relPath).value;
    }
  }

  /** A commit can only raise the `IndexError` of a segment header. */
  lemma CommitRaisesIndexError(c: Commit, relPath: string -> string)
    ensures CommitEdits(c, relPath).Crash? ==> CommitEdits(c, relPath) == Crash(IndexError)
  {
    if c.diff != [] {
      var segments := Segments(c.diff);
      var outs := SegmentOutcomes(segments, c.id, relPath);
      forall i | 0 <= i < |outs| && outs[i].Crash? ensures outs[i].fault == IndexError {
        SegmentOutcomesAt(segments, c.id, relPath, i);
      }
      GatherFault(outs, IndexError);
    }
  }

  /** The walk over the history can only raise `IndexError`. */
  lemma WalkRaisesIndexError(commits: seq<Commit>, relPath: string -> string)
    ensures HistoryEdits(commits, relPath).Crash? ==> HistoryEdits(commits, relPath) == Crash(IndexError)
  {
    var outs := CommitOutcomes(commits, relPath);
    forall i | 0 <= i < |outs| && outs[i].Crash? ensures outs[i].fault == IndexError {
      CommitOutcomesAt(commits, relPath, i);
      CommitRaisesIndexError(commits[i], relPath);
    }
    GatherFault(outs, IndexError);
  }

  // ---------------------------------------------------------------------------
  // Looking the edits up

  /**
    `source_lang_translations` / `target_lang_translations`: the key/value dictionary
    of each file `get_file_paths` lists, under its relative path.
  */
  function Translations(tree: map<string, string>): map<string, map<string, string>> {
    TranslationsBy(tree, FluentMap)
  }

  /** The same reading for any way `read` of turning a file into its dictionary. */
  function TranslationsBy(tree: map<string, string>, read: string -> map<string, string>): map<string, map<string, string>> {
    map p | p in FluentFiles(tree) :: read(tree[p])
  }

  /** `extract_fluent(content)` for one file. */
  method FileTranslations(content: string) returns (entries: map<string, string>)
    ensures entries == FluentMap(content)
  {
    var d := ExtractFluent(content);
    entries := d.entries;
  }

  /** Every `.ftl` file of a tree has its dictionary, and no other file has one. */
  lemma TranslationsAt(tree: map<string, string>, p: string)
    ensures p in Translations(tree) <==> p in tree && EndsWith(p, FluentSuffix)
    ensures p in Translations(tree) ==> Translations(tree)[p] == FluentMap(tree[p])
  {
  }

  /** The loop that reads every `.ftl` file of a tree into its dictionary. */
  method LoadTranslations(tree: map<string, string>) returns (translations: map<string, map<string, string>>)
    ensures translations == Translations(tree)
  {
    translations := map[];
    var todo := FluentFiles(tree);
    TranslationsOutside(tree, todo, FluentMap);
    while todo != {}
      invariant todo <= FluentFiles(tree)
      invariant translations == Translations(tree - todo)
      decreases todo
    {
      var path :| path in todo;
      TranslationsGrow(tree, todo, path, FluentMap);
      var entries := FileTranslations(tree[path]);
      translations := translations[path := entries];
      todo := todo - {path};
    }
    assert tree - todo == tree;
  }

  /** Reading one more file adds its dictionary under its path. */
  lemma TranslationsGrow(tree: map<string, string>, todo: set<string>, path: string, read: string -> map<string, string>)
    requires path in todo && todo <= FluentFiles(tree)
    ensures TranslationsBy(tree - (todo - {path}), read) == TranslationsBy(tree - todo, read)[path := read(tree[path])]
  {
    assert tree - (todo - {path}) == (tree - todo)[path := tree[path]];
  }

  /** Before the loop has read any `.ftl` file, there are no dictionaries. */
  lemma TranslationsOutside(tree: map<string, string>, todo: set<string>, read: string -> map<string, string>)
    requires FluentFiles(tree) <= todo
    ensures TranslationsBy(tree - todo, read) == map[]
  {
    assert forall p :: p in FluentFiles(tree - todo) ==> p in FluentFiles(tree);
  }

  /**
    The lookups for one edit: `source_lang_translations[relative_path][key]`, which raises
    `KeyError` when the file or the key is gone, and `.get` on the target side.
  */
  function ReportOf(e: Edit, source: map<string, map<string, string>>, target: map<string, map<string, string>>): Outcome<Report> {
    if e.path !in source || e.key !in source[e.path] then Crash(KeyError)
    else
      var targetValue := if e.path in target && e.key in target[e.path] then Some(target[e.path][e.key]) else None;
      Done(Report(e, source[e.path][e.key], targetValue))
  }

  /** An edit whose file and key still exist in the source. */
  predicate Live(e: Edit, source: map<string, map<string, string>>) {
    e.path in source && e.key in source[e.path]
  }

  /** The loop over `may_changed` as written: any edit of a key that is gone raises `KeyError`. */
  function ReportsAsWritten(edits: set<Edit>, source: map<string, map<string, string>>, target: map<string, map<string, string>>): Outcome<set<Report>> {
    if exists e :: e in edits && !Live(e, source) then Crash(KeyError)
    else Done(set e | e in edits :: ReportOf(e, source, target).value)
  }

  /** The lookups with the evident intent: edits of keys that are gone are skipped. */
  function Reports(edits: set<Edit>, source: map<string, map<string, string>>, target: map<string, map<string, string>>): set<Report> {
    set e | e in edits && Live(e, source) :: ReportOf(e, source, target).value
  }

  /** The loop over `may_changed` as written, one lookup at a time. */
  method LookUpEdits(edits: set<Edit>, source: map<string, map<string, string>>, target: map<string, map<string, string>>)
    returns (result: Outcome<set<Report>>)
    ensures result == ReportsAsWritten(edits, source, target)
  {
    var reports: set<Report> := {};
    var todo := edits;
    while todo != {}
      invariant todo <= edits
      invariant forall e :: e in edits && e !in todo ==> Live(e, source)
      invariant reports == set e | e in edits && e !in todo :: ReportOf(e, source, target).value
      decreases todo
    {
      var e :| e in todo;
      var r := ReportOf(e, source, target);
      if r.Crash? {
        return Crash(KeyError);
      }
      reports := reports + {r.value};
      todo := todo - {e};
    }
    assert reports == set e | e in edits :: ReportOf(e, source, target).value;
    return Done(reports);
  }

  /** As written, the lookups raise exactly when some edited key is gone from the source. */
  lemma AsWrittenCrash(edits: set<Edit>, source: map<string, map<string, string>>, target: map<string, map<string, string>>)
    ensures ReportsAsWritten(edits, source, target).Crash? <==> exists e :: e in edits && !Live(e, source)
  {
  }

  /** A key rewritten in the past and deleted since stops the whole report. */
  lemma DeletedKeyCrashes(source: map<string, map<string, string>>)
    requires source == map["menu.ftl" := map["kept" := "Kept"]]
    ensures ReportsAsWritten({Edit("menu.ftl", "gone", "c0ffee")}, source, map[]) == Crash(KeyError)
  {
    assert !Live(Edit("menu.ftl", "gone", "c0ffee"), source);
  }

  /** With the edits of deleted keys skipped, the two agree whenever the as-written lookups complete. */
  lemma ReportsAgree(edits: set<Edit>, source: map<string, map<string, string>>, target: map<string, map<string, string>>)
    requires ReportsAsWritten(edits, source, target).Done?
    ensures ReportsAsWritten(edits, source, target).value == Reports(edits, source, target)
  {
  }

  /** Each report pairs a live edit with its current source value and its target value, if any. */
  lemma ReportsContents(edits: set<Edit>, source: map<string, map<string, string>>, target: map<string, map<string, string>>, r: Report)
    ensures r in Reports(edits, source, target) <==>
      r.edit in edits && Live(r.edit, source) && r.sourceValue == source[r.edit.path][r.edit.key]
      && r.targetValue == (if r.edit.path in target && r.edit.key in target[r.edit.path]
                           then Some(target[r.edit.path][r.edit.key]) else None)
  {
    if r.edit in edits && Live(r.edit, source) && r.sourceValue == source[r.edit.path][r.edit.key]
      && r.targetValue == (if r.edit.path in target && r.edit.key in target[r.edit.path]
                           then Some(target[r.edit.path][r.edit.key]) else None) {
      assert r == ReportOf(r.edit, source, target).value;
    }
  }

  /**
    `print_edited_translations` as written, without the printing: the lookups of every
    edit the walk found, or the walk's `IndexError`, or the `KeyError` of an edit whose
    file or key is gone from the source.
  */
  function EditedTranslationsAsWritten(commits: seq<Commit>, sourceTree: map<string, string>, targetTree: map<string, string>,
                                       relPath: string -> string): Outcome<set<Report>> {
    match HistoryEdits(commits, relPath)
    case Crash(f) => Crash(f)
    case Done(edits) => ReportsAsWritten(edits, Translations(sourceTree), Translations(targetTree))
  }

  /**
    The corrected `print_edited_translations`: the walk as written, then the lookups of
    `Reports`, which skip the edits of keys that are gone.
  */
  function EditedTranslations(commits: seq<Commit>, sourceTree: map<string, string>, targetTree: map<string, string>,
                              relPath: string -> string): Outcome<set<Report>> {
    match HistoryEdits(commits, relPath)
    case Crash(f) => Crash(f)
    case Done(edits) => Done(Reports(edits, Translations(sourceTree), Translations(targetTree)))
  }

  /**
    The script raises `KeyError` exactly when the walk completes and one of its edits
    names a file or key the source no longer has; otherwise it ends as the corrected
    report does.
  */
  lemma EditedTranslationsAgree(commits: seq<Commit>, sourceTree: map<string, string>, targetTree: map<string, string>,
                                relPath: string -> string)
    ensures var walk := HistoryEdits(commits, relPath);
      EditedTranslationsAsWritten(commits, sourceTree, targetTree, relPath) == Crash(KeyError) <==>
        walk.Done? && exists e :: e in walk.value && !Live(e, Translations(sourceTree))
    ensures var walk := HistoryEdits(commits, relPath);
      (walk.Done? ==> forall e :: e in walk.value ==> Live(e, Translations(sourceTree))) ==>
        EditedTranslationsAsWritten(commits, sourceTree, targetTree, relPath) ==
        EditedTranslations(commits, sourceTree, targetTree, relPath)
  {
    var walk := HistoryEdits(commits, relPath);
    if walk.Done? {
      AsWrittenCrash(walk.value, Translations(sourceTree), Translations(targetTree));
      if forall e :: e in walk.value ==> Live(e, Translations(sourceTree)) {
        ReportsAgree(walk.value, Translations(sourceTree), Translations(targetTree));
      }
    } else {
      WalkRaisesIndexError(commits, relPath);
    }
  }
}
