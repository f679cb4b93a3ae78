/**
 * scripts/check-test-sync.mjs: the test-first gate. A diff that adds a file under an
 * API root, or adds a line mentioning `export` in one, must also touch `test/`.
 * `git`'s outputs are parameters: the `--name-status` listing, and for each path what
 * `git diff -U0` printed for it (`None` when the command failed).
 */
module TestSync {
  import opened Wrappers
  import Strings
  import DiffGate

  const ApiRoots: seq<string> := ["lib/features/", "lib/storage/", "lib/scheduler/", "lib/algorithms/", "utils/"]

  /** `isApiSourceFile`: a JavaScript or TypeScript file under one of the API roots. */
  function IsApiSourceFile(p: string): (r: bool)
    ensures r <==> DiffGate.HasCodeExtension(p) && exists i | 0 <= i < |ApiRoots| :: Strings.StartsWith(p, ApiRoots[i])
  {
    if !DiffGate.HasCodeExtension(p) then false
    else if Strings.EndsWith(p, "/AGENTS.override.md") then
      DiffGate.CodeIsNotMarkdown(p, "/AGENTS.override.md");
      false
    else DiffGate.StartsWithAny(p, ApiRoots)
  }

  /** A test file is never an API file, so the gate cannot be met by the API change itself. */
  lemma TestsAreNotApi(p: string)
    requires Strings.StartsWith(p, "test/")
    ensures !IsApiSourceFile(p)
  {
    forall i | 0 <= i < |ApiRoots|
      ensures !Strings.StartsWith(p, ApiRoots[i])
    {
      assert ApiRoots[i][0] != 't';
      assert p[0] == 't';
    }
  }

  /** The characters of `\w`, between which `\b` finds no boundary. */
  predicate IsWordChar(c: char) {
    ('a' <= c <= 'z') || ('A' <= c <= 'Z') || ('0' <= c <= '9') || c == '_'
  }

  /** `/\bexport\b/` matches at `i`. */
  predicate ExportAt(line: string, i: int) {
    Strings.OccursAt(line, "export", i)
    && (i == 0 || !IsWordChar(line[i - 1]))
    && (i + 6 == |line| || !IsWordChar(line[i + 6]))
  }

  /** `/^\+/.test(line) && /\bexport\b/.test(line)`. */
  predicate AddsExport(line: string) {
    |line| > 0 && line[0] == '+' && exists i | 0 <= i <= |line| :: ExportAt(line, i)
  }

  /** Some line of the patch adds a line mentioning `export`. */
  function AnyAddsExport(lines: seq<string>): (r: bool)
    ensures r <==> exists i | 0 <= i < |lines| :: AddsExport(lines[i])
  {
    if lines == [] then false
    else AddsExport(lines[0]) || AnyAddsExport(lines[1..])
  }

  /** `hasExportDelta`: false when `git diff` failed, else whether a '+' line mentions `export`. */
  function HasExportDelta(patch: Option<string>): (r: bool)
    ensures patch.None? ==> !r
    ensures patch.Some? ==> (r <==> exists l | l in DiffGate.Split(Strings.Trim(patch.value), '\n') :: AddsExport(l))
  {
    patch.Some? && AnyAddsExport(DiffGate.Split(Strings.Trim(patch.value), '\n'))
  }

  /** The header `git diff -U0 base head -- path` prints before the first hunk of one modified file. */
  function FileHeader(path: string, index: string): seq<string> {
    ["diff --git a/" + path + " b/" + path, "index " + index, "--- a/" + path, "+++ b/" + path]
  }

  /**
   * As written, the file header's `+++ b/<path>` line counts as an added line: any change
   * to a file whose path holds the word `export` is taken for an export delta.
   */
  lemma HeaderCountsAsExport()
    ensures var hunk := ["@@ -1 +1 @@", "-a", "+b"];
            AnyAddsExport(FileHeader("utils/export.ts", "1a2b3c4..5d6e7f8 100644") + hunk)
            && !AnyAddsExport(hunk)
  {
    var hunk := ["@@ -1 +1 @@", "-a", "+b"];
    var path := "utils/export.ts";
    var header := FileHeader(path, "1a2b3c4..5d6e7f8 100644");
    assert path[6..12] == "export";
    assert ExportAt(path, 6);
    PlusLineAddsExport(path, 6);
    assert (header + hunk)[3] == "+++ b/" + path;
    assert !AddsExport(hunk[0]) && !AddsExport(hunk[1]);
    ShortLineAddsNoExport(hunk[2]);
  }

  /** The `+++ b/<path>` header line passes the added-export test whenever the path holds the word. */
  lemma PlusLineAddsExport(path: string, i: nat)
    requires ExportAt(path, i)
    ensures AddsExport("+++ b/" + path)
  {
    var line := "+++ b/" + path;
    assert line[i + 6..i + 12] == path[i..i + 6];
    assert i + 12 < |line| ==> line[i + 12] == path[i + 6];
    assert i > 0 ==> line[i + 5] == path[i - 1];
    assert ExportAt(line, i + 6);
  }

  lemma ShortLineAddsNoExport(line: string)
    requires |line| < 6
    ensures !AddsExport(line)
  {
  }

  /** The lines from the first hunk header (`@@`) on: the part of a patch that holds changed lines. */
  function HunkLines(lines: seq<string>): (r: seq<string>)
    ensures |r| <= |lines| && r == lines[|lines| - |r|..]
    ensures r == [] || Strings.StartsWith(r[0], "@@")
  {
    if lines == [] || Strings.StartsWith(lines[0], "@@") then lines else HunkLines(lines[1..])
  }

  /** The export test the gate evidently intends: only added lines inside hunks count. */
  function HasExportDeltaInHunks(patch: Option<string>): (r: bool)
    ensures patch.None? ==> !r
  {
    patch.Some? && AnyAddsExport(HunkLines(DiffGate.Split(Strings.Trim(patch.value), '\n')))
  }

  /** The corrected test only ever drops matches the written one finds in the header. */
  lemma HunkExportImpliesExport(patch: Option<string>)
    ensures HasExportDeltaInHunks(patch) ==> HasExportDelta(patch)
  {
    if patch.Some? {
      var lines := DiffGate.Split(Strings.Trim(patch.value), '\n');
      var hunks := HunkLines(lines);
      if AnyAddsExport(hunks) {
        var i :| 0 <= i < |hunks| && AddsExport(hunks[i]);
        assert hunks[i] == lines[|lines| - |hunks| + i];
      }
    }
  }

  /**
   * With the corrected test, a patch's header never matters: whatever the file header
   * (no line of it starts with `@@`), the verdict is that of the hunks alone.
   */
  lemma {:induction false} HunkExportIgnoresHeader(header: seq<string>, hunks: seq<string>)
    requires forall i | 0 <= i < |header| :: !Strings.StartsWith(header[i], "@@")
    requires |hunks| > 0 && Strings.StartsWith(hunks[0], "@@")
    ensures HunkLines(header + hunks) == hunks
    ensures AnyAddsExport(HunkLines(header + hunks)) <==> exists i | 0 <= i < |hunks| :: AddsExport(hunks[i])
  {
    if header != [] {
      assert (header + hunks)[1..] == header[1..] + hunks;
      HunkExportIgnoresHeader(header[1..], hunks);
    }
  }

  /** A name-status entry: the status letter(s) and the first path (`undefined` when missing). */
  datatype Change = Change(status: string, path: Option<string>)

  /** The first whitespace at or after `from`, or the end of `s`. */
  function TokenEnd(s: string, from: nat): (r: nat)
    requires from <= |s|
    decreases |s| - from
    ensures from <= r <= |s|
    ensures forall j | from <= j < r :: !Strings.IsWhitespace(s[j])
    ensures r == |s| || Strings.IsWhitespace(s[r])
  {
    if from < |s| && !Strings.IsWhitespace(s[from]) then TokenEnd(s, from + 1) else from
  }

  /** `const [status, filePath] = line.split(/\s+/, 2)`. */
  function ParseChange(line: string): (r: Change)
    ensures r.status == line[..TokenEnd(line, 0)]
    ensures r.path.None? <==> TokenEnd(line, 0) == |line|
  {
    var i := TokenEnd(line, 0);
    if i == |line| then Change(line, None)
    else
      var j := Strings.SkipWhitespace(line, i);
      Change(line[..i], Some(line[j..TokenEnd(line, j)]))
  }

  /** A `git` listing line, status and path separated by a tab, parses back into the two. */
  lemma ParseChangeOf(status: string, path: string)
    requires status != [] && path != []
    requires forall i | 0 <= i < |status| :: !Strings.IsWhitespace(status[i])
    requires forall i | 0 <= i < |path| :: !Strings.IsWhitespace(path[i])
    ensures ParseChange(status + "\t" + path) == Change(status, Some(path))
  {
    var line := status + "\t" + path;
    assert TokenEnd(line, 0) == |status| by {
      assert forall j | 0 <= j < |status| :: line[j] == status[j];
      assert Strings.IsWhitespace(line[|status|]);
      TokenEndAt(line, 0, |status|);
    }
    assert Strings.SkipWhitespace(line, |status|) == |status| + 1 by {
      assert line[|status| + 1] == path[0];
    }
    assert TokenEnd(line, |status| + 1) == |line| by {
      assert forall j | |status| + 1 <= j < |line| :: line[j] == path[j - |status| - 1];
      TokenEndAt(line, |status| + 1, |line|);
    }
    assert line[..|status|] == status;
    assert line[|status| + 1..|line|] == path;
  }

  /** `TokenEnd` is the end of a run of non-whitespace followed by whitespace or the end. */
  lemma {:induction false} TokenEndAt(s: string, from: nat, e: nat)
    requires from <= e <= |s|
    requires forall j | from <= j < e :: !Strings.IsWhitespace(s[j])
    requires e == |s| || Strings.IsWhitespace(s[e])
    decreases e - from
    ensures TokenEnd(s, from) == e
  {
    if from < e {
      TokenEndAt(s, from + 1, e);
    }
  }

  /** The parsed entries of the `--name-status` listing. */
  function Changes(nameStatus: string): (r: seq<Change>)
    ensures |r| == |DiffGate.OutputLines(nameStatus)|
  {
    ParseAll(DiffGate.OutputLines(nameStatus))
  }

  function ParseAll(lines: seq<string>): (r: seq<Change>)
    ensures |r| == |lines| && forall i | 0 <= i < |lines| :: r[i] == ParseChange(lines[i])
  {
    if lines == [] then [] else [ParseChange(lines[0])] + ParseAll(lines[1..])
  }

  /**
   * `changedFiles.some((filePath) => filePath.startsWith('test/'))`: `None` when the scan
   * reaches an entry without a path, where the script throws a `TypeError`.
   */
  function HasTestChange(changes: seq<Change>): (r: Option<bool>)
    ensures r == Some(true) ==> exists i | 0 <= i < |changes| :: changes[i].path.Some? && Strings.StartsWith(changes[i].path.value, "test/")
    ensures r == Some(false) <==> forall i | 0 <= i < |changes| :: changes[i].path.Some? && !Strings.StartsWith(changes[i].path.value, "test/")
    ensures (forall i | 0 <= i < |changes| :: changes[i].path.Some?) ==> r.Some?
  {
    if changes == [] then Some(false)
    else if changes[0].path.None? then None
    else if Strings.StartsWith(changes[0].path.value, "test/") then Some(true)
    else HasTestChange(changes[1..])
  }

  /**
   * An entry that counts as an API addition: an API file that is new or gained an
   * `export` line (`exportDelta`, the per-path export test).
   */
  predicate Qualifies(c: Change, exportDelta: string -> bool) {
    c.path.Some? && IsApiSourceFile(c.path.value) && (c.status == "A" || exportDelta(c.path.value))
  }

  /** `apiChangedFiles`: the paths of the qualifying entries, in listing order. */
  function ApiChanged(changes: seq<Change>, exportDelta: string -> bool): (r: seq<string>)
    ensures |r| <= |changes|
    ensures r == [] <==> forall i | 0 <= i < |changes| :: !Qualifies(changes[i], exportDelta)
    ensures forall p :: p in r <==> exists i | 0 <= i < |changes| :: Qualifies(changes[i], exportDelta) && changes[i].path.value == p
  {
    if changes == [] then []
    else
      var rest := ApiChanged(changes[1..], exportDelta);
      assert forall i | 1 <= i < |changes| :: changes[i] == changes[1..][i - 1];
      if Qualifies(changes[0], exportDelta) then [changes[0].path.value] + rest else rest
  }

  /** How the gate ends. */
  datatype Outcome =
    | Skipped              // no API additions: exit 0
    | Failed(files: seq<string>)  // API additions without a test change: exit 1, listing them
    | Passed               // API additions with a test change: exit 0
    | Crashed              // `undefined.startsWith`: the script throws

  /** The decision of `main` on the parsed listing. */
  function Decide(cs: seq<Change>, exportDelta: string -> bool): (r: Outcome)
    ensures r == Crashed <==> HasTestChange(cs).None?
    ensures r == Skipped <==> HasTestChange(cs).Some? && forall i | 0 <= i < |cs| :: !Qualifies(cs[i], exportDelta)
    ensures r.Failed? <==> HasTestChange(cs) == Some(false) && exists i | 0 <= i < |cs| :: Qualifies(cs[i], exportDelta)
    ensures r == Passed <==> HasTestChange(cs) == Some(true) && exists i | 0 <= i < |cs| :: Qualifies(cs[i], exportDelta)
    ensures r.Failed? ==> r.files == ApiChanged(cs, exportDelta) && r.files != []
  {
    var hasTest := HasTestChange(cs);
    if hasTest.None? then Crashed
    else
      var api := ApiChanged(cs, exportDelta);
      if api == [] then Skipped
      else if !hasTest.value then Failed(api) else Passed
  }

  /** The per-path export test `main` hands to the gate: `hasExportDelta` on that path's patch. */
  function WrittenDelta(patchOf: string -> Option<string>): string -> bool {
    p => HasExportDelta(patchOf(p))
  }

  /** The same test with the file header left out of the scan. */
  function CorrectedDelta(patchOf: string -> Option<string>): string -> bool {
    p => HasExportDeltaInHunks(patchOf(p))
  }

  /** `main` as written: the gate's outcome for `git`'s listing and patches. */
  function TestGate(nameStatus: string, patchOf: string -> Option<string>): (r: Outcome)
    ensures r == Decide(ParseAll(DiffGate.OutputLines(nameStatus)), WrittenDelta(patchOf))
    ensures r.Failed? ==> forall f | f in r.files ::
      IsApiSourceFile(f) && exists line | line in DiffGate.OutputLines(nameStatus) :: ParseChange(line).path == Some(f)
  {
    GateOutcome(nameStatus, WrittenDelta(patchOf))
  }

  /** `main` with the corrected export test. */
  function CorrectedTestGate(nameStatus: string, patchOf: string -> Option<string>): (r: Outcome)
    ensures r == Decide(ParseAll(DiffGate.OutputLines(nameStatus)), CorrectedDelta(patchOf))
    ensures r.Failed? ==> forall f | f in r.files ::
      IsApiSourceFile(f) && exists line | line in DiffGate.OutputLines(nameStatus) :: ParseChange(line).path == Some(f)
  {
    GateOutcome(nameStatus, CorrectedDelta(patchOf))
  }

  /** The gate over the parsed listing, for a given per-path export test. */
  function GateOutcome(nameStatus: string, exportDelta: string -> bool): (r: Outcome)
    ensures r == Decide(ParseAll(DiffGate.OutputLines(nameStatus)), exportDelta)
    ensures r.Failed? ==> forall f | f in r.files ::
      IsApiSourceFile(f) && exists line | line in DiffGate.OutputLines(nameStatus) :: ParseChange(line).path == Some(f)
  {
    var lines := DiffGate.OutputLines(nameStatus);
    var cs := ParseAll(lines);
    var r := Decide(cs, exportDelta);
    forall f | r.Failed? && f in r.files
      ensures IsApiSourceFile(f) && exists line | line in lines :: ParseChange(line).path == Some(f)
    {
      var i :| 0 <= i < |cs| && Qualifies(cs[i], exportDelta) && cs[i].path.value == f;
      assert lines[i] in lines;
    }
    r
  }

  /**
   * A per-path test that finds fewer deltas can only turn a failure into a skip: the
   * crash is the same, a skip stays a skip, and a failure lists fewer files.
   */
  lemma DecideWithFewerDeltas(cs: seq<Change>, fewer: string -> bool, more: string -> bool)
    requires forall p :: fewer(p) ==> more(p)
    ensures Decide(cs, fewer) == Crashed <==> Decide(cs, more) == Crashed
    ensures Decide(cs, more) == Skipped ==> Decide(cs, fewer) == Skipped
    ensures Decide(cs, fewer).Failed? ==>
      Decide(cs, more).Failed? && forall f | f in Decide(cs, fewer).files :: f in Decide(cs, more).files
  {
    assert forall i | 0 <= i < |cs| :: Qualifies(cs[i], fewer) ==> Qualifies(cs[i], more);
  }

  /**
   * The corrected gate never fails where the written one passes or skips; it differs
   * only by skipping a change whose sole `export` match was the file header.
   */
  lemma CorrectedGateOnlyDrops(nameStatus: string, patchOf: string -> Option<string>)
    ensures TestGate(nameStatus, patchOf) == Crashed <==> CorrectedTestGate(nameStatus, patchOf) == Crashed
    ensures TestGate(nameStatus, patchOf) == Skipped ==> CorrectedTestGate(nameStatus, patchOf) == Skipped
    ensures CorrectedTestGate(nameStatus, patchOf).Failed? ==>
      && TestGate(nameStatus, patchOf).Failed?
      && forall f | f in CorrectedTestGate(nameStatus, patchOf).files :: f in TestGate(nameStatus, patchOf).files
  {
    forall p ensures CorrectedDelta(patchOf)(p) ==> WrittenDelta(patchOf)(p) {
      HunkExportImpliesExport(patchOf(p));
    }
    DecideWithFewerDeltas(ParseAll(DiffGate.OutputLines(nameStatus)), CorrectedDelta(patchOf), WrittenDelta(patchOf));
  }

  /**
   * A listing whose entries all carry a path never crashes, and the gate fails exactly
   * when an API addition comes without any `test/` change.
   */
  lemma GateFailsIffUntested(cs: seq<Change>, exportDelta: string -> bool)
    requires forall i | 0 <= i < |cs| :: cs[i].path.Some?
    ensures Decide(cs, exportDelta) != Crashed
    ensures Decide(cs, exportDelta).Failed?
            <==> (exists i | 0 <= i < |cs| :: Qualifies(cs[i], exportDelta))
                 && forall i | 0 <= i < |cs| :: !Strings.StartsWith(cs[i].path.value, "test/")
  {
  }
}
