/**
 * scripts/check-doc-sync.mjs: the document-first gate. Every changed source file under a
 * monitored root must come with a change to the `DESCRIPTION.md` beside it. `git`'s
 * outputs are parameters: the `--name-only` listing, and for each path whether
 * `git cat-file -e HEAD:<path>` succeeded.
 */
module DocSync {
  import opened Wrappers
  import Strings
  import DiffGate
  import TestSync
  import Seqs

  const MonitoredRoots: seq<string> := ["lib/features/", "lib/storage/", "lib/scheduler/", "lib/algorithms/"]

  const DescriptionName: string := "DESCRIPTION.md"

  /** `isMonitoredCodeFile`: a JavaScript or TypeScript file under one of the monitored roots. */
  function IsMonitoredCodeFile(p: string): (r: bool)
    ensures r <==> DiffGate.HasCodeExtension(p) && exists i | 0 <= i < |MonitoredRoots| :: Strings.StartsWith(p, MonitoredRoots[i])
  {
    if Strings.EndsWith(p, "/DESCRIPTION.md") then
      assert !DiffGate.HasCodeExtension(p) by {
        assert p[|p| - 1] == 'd';
      }
      false
    else if Strings.EndsWith(p, "/AGENTS.override.md") then
      assert !DiffGate.HasCodeExtension(p) by {
        assert p[|p| - 1] == 'd';
      }
      false
    else if !DiffGate.HasCodeExtension(p) then false
    else DiffGate.StartsWithAny(p, MonitoredRoots)
  }

  /** Every monitored file is also an API file of the test-first gate. */
  lemma MonitoredIsApi(p: string)
    requires IsMonitoredCodeFile(p)
    ensures TestSync.IsApiSourceFile(p)
  {
    var i :| 0 <= i < |MonitoredRoots| && Strings.StartsWith(p, MonitoredRoots[i]);
    assert MonitoredRoots[i] == TestSync.ApiRoots[i];
  }

  /**
   * Node's `path.posix.dirname` scan: walking down from index `i` to 1, the first '/'
   * met after a character other than '/' ends the directory; -1 when there is none.
   */
  function DirEnd(p: string, i: int, matchedSlash: bool): (r: int)
    requires i < |p|
    decreases i
    ensures r == -1 || (1 <= r <= i && p[r] == '/')
  {
    if i < 1 then -1
    else if p[i] == '/' then (if !matchedSlash then i else DirEnd(p, i - 1, true))
    else DirEnd(p, i - 1, false)
  }

  /** `path.posix.dirname(p)`. */
  function Dirname(p: string): (r: string)
    ensures r != ""
  {
    if p == "" then "."
    else
      var end := DirEnd(p, |p| - 1, true);
      if end == -1 then (if p[0] == '/' then "/" else ".")
      else if p[0] == '/' && end == 1 then "//"
      else p[..end]
  }

  /** The scan stops at the '/' that precedes the last name. */
  lemma {:induction false} DirEndAtLastSlash(p: string, d: nat, i: int, matchedSlash: bool)
    requires 1 <= d <= i < |p| && p[d] == '/'
    requires forall j | d < j <= i :: p[j] != '/'
    requires i > d || !matchedSlash
    decreases i
    ensures DirEnd(p, i, matchedSlash) == d
  {
    if i > d {
      DirEndAtLastSlash(p, d, i - 1, false);
    }
  }

  /** The directory of `dir/name` is `dir`, for a file name and a directory not ending in '/'. */
  lemma DirnameOfChild(dir: string, name: string)
    requires dir != "" && dir[|dir| - 1] != '/'
    requires name != "" && '/' !in name
    ensures Dirname(dir + "/" + name) == dir
  {
    var p := dir + "/" + name;
    assert forall j | |dir| < j <= |p| - 1 :: p[j] == name[j - |dir| - 1];
    if |dir| >= 1 {
      DirEndAtLastSlash(p, |dir|, |p| - 1, true);
    }
    assert p[..|dir|] == dir;
  }

  /** `descriptionPathFor`: the `DESCRIPTION.md` in the file's directory. */
  function DescriptionPathFor(p: string): (r: string)
    ensures Strings.EndsWith(r, "/DESCRIPTION.md")
  {
    var r := Dirname(p) + "/" + DescriptionName;
    assert r[|r| - 15..] == "/DESCRIPTION.md";
    r
  }

  /** A file's description sits beside it, and is never itself a monitored file. */
  lemma DescriptionBeside(dir: string, name: string)
    requires dir != "" && dir[|dir| - 1] != '/'
    requires name != "" && '/' !in name
    ensures DescriptionPathFor(dir + "/" + name) == dir + "/DESCRIPTION.md"
    ensures !IsMonitoredCodeFile(DescriptionPathFor(dir + "/" + name))
  {
    DirnameOfChild(dir, name);
  }

  /** What the gate says about one changed file, `None` when it has nothing to say. */
  function Violation(f: string, changed: set<string>, existsInHead: string -> bool): (r: Option<string>)
    ensures r.Some? <==> IsMonitoredCodeFile(f) && DescriptionPathFor(f) !in changed
    ensures r.Some? && !existsInHead(DescriptionPathFor(f)) ==> r.value == f + " -> missing " + DescriptionPathFor(f)
    ensures r.Some? && existsInHead(DescriptionPathFor(f)) ==> r.value == f + " -> " + DescriptionPathFor(f) + " not updated in the same diff"
  {
    if !IsMonitoredCodeFile(f) then None
    else
      var d := DescriptionPathFor(f);
      if !(existsInHead(d) || d in changed) then Some(f + " -> missing " + d)
      else if d !in changed then Some(f + " -> " + d + " not updated in the same diff")
      else None
  }

  /** The gate's verdict on each file, as one function of the path. */
  function Judge(changed: set<string>, existsInHead: string -> bool): (judge: string -> Option<string>)
    ensures forall f :: judge(f) == Violation(f, changed, existsInHead)
  {
    f => Violation(f, changed, existsInHead)
  }

  /**
   * The gate passes exactly when every monitored changed file has its description among
   * the changed files; whether the description already exists only picks the message.
   */
  lemma ViolationsEmptyIff(files: seq<string>, changed: set<string>, existsInHead: string -> bool)
    ensures Seqs.FilterMap(files, Judge(changed, existsInHead)) == []
            <==> forall i | 0 <= i < |files| :: IsMonitoredCodeFile(files[i]) ==> DescriptionPathFor(files[i]) in changed
  {
    Seqs.FilterMapEmptyIff(files, Judge(changed, existsInHead));
  }

  /** Each violation names a changed, monitored file whose description was not changed. */
  lemma ViolationsNameMonitored(files: seq<string>, changed: set<string>, existsInHead: string -> bool)
    ensures forall v | v in Seqs.FilterMap(files, Judge(changed, existsInHead)) ::
      exists i | 0 <= i < |files| :: IsMonitoredCodeFile(files[i]) && DescriptionPathFor(files[i]) !in changed
                                    && Violation(files[i], changed, existsInHead) == Some(v)
  {
    Seqs.FilterMapFrom(files, Judge(changed, existsInHead));
  }

  /** `new Set(changedFiles)`. */
  function Members(files: seq<string>): (r: set<string>)
    ensures forall f :: f in r <==> f in files
  {
    set f | f in files
  }

  /**
   * `main`: walks the changed files and collects the violations; the script exits with
   * status 1 when there is any, and passes otherwise.
   */
  method DocGate(files: seq<string>, existsInHead: string -> bool) returns (violations: seq<string>, exitCode: int)
    ensures violations == Seqs.FilterMap(files, Judge(Members(files), existsInHead))
    ensures exitCode == 0 || exitCode == 1
    ensures exitCode == 0 <==> forall i | 0 <= i < |files| :: IsMonitoredCodeFile(files[i]) ==> DescriptionPathFor(files[i]) in files
  {
    var changedSet := Members(files);
    violations := [];
    for i := 0 to |files|
      invariant violations == Seqs.FilterMap(files[..i], Judge(changedSet, existsInHead))
    {
      var f := files[i];
      ghost var v := Violation(f, changedSet, existsInHead);
      Seqs.FilterMapSnoc(files, i, Judge(changedSet, existsInHead));
      if !IsMonitoredCodeFile(f) {
        assert v == None;
        continue;
      }
      var d := DescriptionPathFor(f);
      var hasDescription := existsInHead(d) || d in changedSet;
      if !hasDescription {
        assert v == Some(f + " -> missing " + d);
        violations := violations + [f + " -> missing " + d];
        continue;
      }
      if d !in changedSet {
        assert v == Some(f + " -> " + d + " not updated in the same diff");
        violations := violations + [f + " -> " + d + " not updated in the same diff"];
      }
    }
    assert files[..|files|] == files;
    ViolationsEmptyIff(files, changedSet, existsInHead);
    exitCode := if |violations| > 0 then 1 else 0;
  }
}
