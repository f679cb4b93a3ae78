/**
 * What the two diff gates, scripts/check-test-sync.mjs and scripts/check-doc-sync.mjs,
 * share: the base and head revisions they compare, the JavaScript/TypeScript source
 * test, and the way they read `git`'s line-per-file output.
 */
module DiffGate {
  import opened Wrappers
  import Strings
  import Seqs

  /** `s.split(sep)` for a one-character separator: the pieces between the separators. */
  function Split(s: string, sep: char): (r: seq<string>)
    ensures |r| >= 1
    ensures forall i | 0 <= i < |r| :: sep !in r[i]
    ensures sep in s ==> |r| >= 2
    ensures sep !in s ==> r == [s]
    ensures Join(r, sep) == s
  {
    var i := Strings.IndexOf(s, [sep], 0);
    if i < 0 then
      assert forall j | 0 <= j < |s| :: s[j] != sep by {
        forall j | 0 <= j < |s|
          ensures s[j] != sep
        {
          assert !Strings.OccursAt(s, [sep], j);
          assert s[j..j + 1] == [s[j]];
        }
      }
      [s]
    else
      assert s[i] == sep by {
        assert s[i..i + 1] == [sep];
      }
      var head := s[..i];
      assert sep !in head by {
        forall j | 0 <= j < |head|
          ensures head[j] != sep
        {
          assert !Strings.OccursAt(s, [sep], j);
          assert s[j..j + 1] == [head[j]];
        }
      }
      assert s == head + [sep] + s[i + 1..];
      [head] + Split(s[i + 1..], sep)
  }

  /** The pieces glued back together with the separator. */
  function Join(pieces: seq<string>, sep: char): string
    requires |pieces| >= 1
  {
    if |pieces| == 1 then pieces[0] else pieces[0] + [sep] + Join(pieces[1..], sep)
  }

  /** Splitting undoes joining, when no piece holds the separator. */
  lemma {:induction false} SplitJoin(pieces: seq<string>, sep: char)
    requires |pieces| >= 1 && forall i | 0 <= i < |pieces| :: sep !in pieces[i]
    ensures Split(Join(pieces, sep), sep) == pieces
  {
    if |pieces| > 1 {
      SplitJoin(pieces[1..], sep);
      FirstSeparator(pieces, sep);
    }
  }

  /** In joined pieces the first separator follows the first piece. */
  lemma FirstSeparator(pieces: seq<string>, sep: char)
    requires |pieces| > 1 && sep !in pieces[0]
    ensures var s := Join(pieces, sep);
      && Strings.IndexOf(s, [sep], 0) == |pieces[0]|
      && s[..|pieces[0]|] == pieces[0]
      && s[|pieces[0]| + 1..] == Join(pieces[1..], sep)
  {
    var s := Join(pieces, sep);
    var head := pieces[0];
    assert s[|head|] == sep;
    assert s[..|head|] == head && s[|head| + 1..] == Join(pieces[1..], sep);
    assert Strings.OccursAt(s, [sep], |head|);
    assert forall j | 0 <= j < |head| :: !Strings.OccursAt(s, [sep], j) by {
      forall j | 0 <= j < |head|
        ensures !Strings.OccursAt(s, [sep], j)
      {
        assert s[j] == head[j];
      }
    }
  }

  /** The first argument that starts with `prefix` (`args.find`). */
  function FindArg(args: seq<string>, prefix: string): (r: Option<string>)
    ensures r.Some? ==> r.value in args && Strings.StartsWith(r.value, prefix)
    ensures r.None? <==> forall i | 0 <= i < |args| :: !Strings.StartsWith(args[i], prefix)
  {
    if args == [] then None
    else if Strings.StartsWith(args[0], prefix) then Some(args[0])
    else FindArg(args[1..], prefix)
  }

  /** `arg.split('=')[1]` for an argument that holds a '='. */
  function OptionValue(arg: string): (r: string)
    requires '=' in arg
  {
    Split(arg, '=')[1]
  }

  /** The value of `--name=value` is `value` when it holds no '='. */
  lemma OptionValueOf(name: string, value: string)
    requires '=' !in name && '=' !in value
    ensures OptionValue(name + "=" + value) == value
  {
    SplitJoin([name, value], '=');
    assert Join([name, value], '=') == name + "=" + value;
  }

  /**
   * `determineBaseHead`: `--base=` and `--head=` from the arguments; otherwise the head
   * is HEAD and the base HEAD~1, or the empty tree when HEAD has no parent.
   * `hasParent` is whether `git rev-parse --verify HEAD~1` succeeded and `emptyTree` what
   * `git hash-object -t tree /dev/null` printed.
   */
  function DetermineBaseHead(args: seq<string>, hasParent: bool, emptyTree: string): (r: (string, string))
    ensures FindArg(args, "--head=").None? ==> r.1 == "HEAD"
    ensures FindArg(args, "--head=").Some? ==> '=' in FindArg(args, "--head=").value && r.1 == OptionValue(FindArg(args, "--head=").value)
    ensures FindArg(args, "--base=").None? ==> r.0 == (if hasParent then "HEAD~1" else emptyTree)
    ensures FindArg(args, "--base=").Some? ==> '=' in FindArg(args, "--base=").value && r.0 == OptionValue(FindArg(args, "--base=").value)
  {
    var baseArg := FindArg(args, "--base=");
    var headArg := FindArg(args, "--head=");
    var head := if headArg.Some? then (assert headArg.value[6] == '='; OptionValue(headArg.value)) else "HEAD";
    if baseArg.Some? then
      assert baseArg.value[6] == '=';
      (OptionValue(baseArg.value), head)
    else if hasParent then ("HEAD~1", head)
    else (emptyTree, head)
  }

  /** Passing `--base=b --head=h` compares exactly `b` and `h`, whatever the repository. */
  lemma ExplicitRange(b: string, h: string, hasParent: bool, emptyTree: string)
    requires '=' !in b && '=' !in h
    ensures DetermineBaseHead(["--base=" + b, "--head=" + h], hasParent, emptyTree) == (b, h)
  {
    var args := ["--base=" + b, "--head=" + h];
    assert ("--base=" + b)[..7] == "--base=";
    assert ("--head=" + h)[..7] == "--head=";
    assert ("--base=" + b)[2] == 'b';
    assert FindArg(args, "--base=") == Some("--base=" + b);
    assert FindArg(args, "--head=") == Some("--head=" + h);
    OptionValueOf("--base", b);
    OptionValueOf("--head", h);
    assert "--base" + "=" + b == "--base=" + b;
    assert "--head" + "=" + h == "--head=" + h;
  }

  /** `/\.(ts|tsx|js|jsx)$/`: the path ends in one of the four source extensions. */
  predicate HasCodeExtension(p: string) {
    Strings.EndsWith(p, ".ts") || Strings.EndsWith(p, ".tsx") || Strings.EndsWith(p, ".js") || Strings.EndsWith(p, ".jsx")
  }

  /** A source path never ends in a Markdown file name, so the gates' Markdown exclusions change nothing for it. */
  lemma CodeIsNotMarkdown(p: string, name: string)
    requires HasCodeExtension(p) && Strings.EndsWith(name, ".md")
    ensures !Strings.EndsWith(p, name)
  {
    assert p[|p| - 1] in {'s', 'x'};
    assert name[|name| - 1] == 'd';
  }

  /** `roots.some((root) => p.startsWith(root))`. */
  function StartsWithAny(p: string, roots: seq<string>): (r: bool)
    ensures r <==> exists i | 0 <= i < |roots| :: Strings.StartsWith(p, roots[i])
  {
    if roots == [] then false
    else Strings.StartsWith(p, roots[0]) || StartsWithAny(p, roots[1..])
  }

  /** Keeps the non-empty strings (`filter(Boolean)`). */
  function NonEmpty(xs: seq<string>): (r: seq<string>)
    ensures |r| <= |xs| && forall i | 0 <= i < |r| :: r[i] != ""
    ensures forall x | x in r :: x in xs
    ensures forall x | x in xs && x != "" :: x in r
  {
    if xs == [] then []
    else (if xs[0] == "" then [] else [xs[0]]) + NonEmpty(xs[1..])
  }

  /** Trims every string (`map((s) => s.trim())`). */
  function TrimAll(xs: seq<string>): (r: seq<string>)
    ensures |r| == |xs| && forall i | 0 <= i < |xs| :: r[i] == Strings.Trim(xs[i])
  {
    Seqs.Map(xs, Strings.Trim)
  }

  /**
   * The lines of what a `git` command printed: `run` trims the output, which is split
   * at '\n'; each line is trimmed and the empty ones dropped.
   */
  function OutputLines(output: string): (r: seq<string>)
    ensures forall i | 0 <= i < |r| :: r[i] != ""
    ensures |r| <= |Split(Strings.Trim(output), '\n')|
  {
    NonEmpty(TrimAll(Split(Strings.Trim(output), '\n')))
  }
}
