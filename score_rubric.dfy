/**
 * skills/check-architecture-clean-score/scripts/generate_score_rubric.py: the rule rows
 * of the architecture score rubric, read from the bullets of two sections of AGENTS.md.
 * Strings follow Python's `str` methods: `strip`, `rstrip` and the regex `\s` use
 * `str.isspace`, `lower` maps ASCII letters.
 */
module ScoreRubric {
  import opened Wrappers
  import Strings
  import Seqs

  /** `str.isspace` for one character. */
  predicate IsSpace(c: char) {
    || c == ' ' || ('\t' <= c <= '\r') || ('\U{001C}' <= c <= '\U{001F}') || c == '\U{0085}' || c == '\U{00A0}'
    || c == '\U{1680}' || ('\U{2000}' <= c <= '\U{200A}') || c == '\U{2028}' || c == '\U{2029}'
    || c == '\U{202F}' || c == '\U{205F}' || c == '\U{3000}'
  }

  /** `s.rstrip()`. */
  function RStrip(s: string): (r: string)
    ensures |r| <= |s| && r == s[..|r|]
    ensures r == [] || !IsSpace(r[|r| - 1])
    ensures forall j | |r| <= j < |s| :: IsSpace(s[j])
  {
    if s != [] && IsSpace(s[|s| - 1]) then
      var init := s[..|s| - 1];
      var r := RStrip(init);
      assert init[..|r|] == s[..|r|];
      assert forall j | |r| <= j < |init| :: s[j] == init[j];
      r
    else s
  }

  /** `s.lstrip()`. */
  function LStrip(s: string): (r: string)
    ensures |r| <= |s| && r == s[|s| - |r|..]
    ensures r == [] || !IsSpace(r[0])
    ensures forall j | 0 <= j < |s| - |r| :: IsSpace(s[j])
  {
    if s != [] && IsSpace(s[0]) then LStrip(s[1..]) else s
  }

  /** No whitespace at either end: what `strip` returns. */
  predicate Clean(s: string) {
    s == [] || (!IsSpace(s[0]) && !IsSpace(s[|s| - 1]))
  }

  /** `s.strip()`. */
  function Strip(s: string): (r: string)
    ensures Clean(r)
  {
    var t := RStrip(s);
    var r := LStrip(t);
    assert r != [] ==> r[|r| - 1] == t[|t| - 1];
    r
  }

  /** Stripping leaves a clean string unchanged. */
  lemma StripClean(s: string)
    requires Clean(s)
    ensures RStrip(s) == s && LStrip(s) == s && Strip(s) == s
  {
  }

  /** `strip` is idempotent, and ignores a prior `rstrip`. */
  lemma StripStable(s: string)
    ensures Strip(Strip(s)) == Strip(s)
    ensures Strip(RStrip(s)) == Strip(s)
  {
    StripClean(Strip(s));
    var t := RStrip(s);
    assert RStrip(t) == t by {
      if t != [] {
        assert !IsSpace(t[|t| - 1]);
      }
    }
  }

  /** `s.lower()` for ASCII letters. */
  function Lower(s: string): (r: string)
    ensures |r| == |s|
    ensures forall i | 0 <= i < |s| :: r[i] == (if 'A' <= s[i] <= 'Z' then (s[i] as int + 32) as char else s[i])
  {
    if s == [] then []
    else [if 'A' <= s[0] <= 'Z' then (s[0] as int + 32) as char else s[0]] + Lower(s[1..])
  }

  /** Python's `pat in s`. */
  predicate Includes(s: string, pat: string) {
    Strings.IndexOf(s, pat, 0) >= 0
  }

  /** `pat in s` holds exactly when `pat` occurs somewhere in `s`. */
  lemma IncludesIffContains(s: string, pat: string)
    ensures Includes(s, pat) <==> Strings.Contains(s, pat)
  {
    var i := Strings.IndexOf(s, pat, 0);
    if i >= 0 {
      assert Strings.OccursAt(s, pat, i);
    }
  }

  /** The number of '#' that open `s` from index `i`. */
  function Hashes(s: string, i: nat): (r: nat)
    requires i <= |s|
    decreases |s| - i
    ensures i + r <= |s| && forall j | i <= j < i + r :: s[j] == '#'
    ensures i + r == |s| || s[i + r] != '#'
  {
    if i < |s| && s[i] == '#' then 1 + Hashes(s, i + 1) else 0
  }

  /** The end of the whitespace run that starts at `i`. */
  function SkipSpace(s: string, i: nat): (r: nat)
    requires i <= |s|
    decreases |s| - i
    ensures i <= r <= |s| && forall j | i <= j < r :: IsSpace(s[j])
    ensures r == |s| || !IsSpace(s[r])
  {
    if i < |s| && IsSpace(s[i]) then SkipSpace(s, i + 1) else i
  }

  /** A heading: its level (the number of '#') and its title. */
  datatype Heading = Heading(level: nat, title: string)

  /**
   * `SECTION_RE.match(s)` on a stripped line, `^(#{1,6})\s+(.+?)\s*$`: one to six '#',
   * whitespace, then a title that runs to the end of the line and holds no '\n'.
   */
  function HeadingOf(s: string): (r: Option<Heading>)
    requires Clean(s)
    ensures r.Some? ==> 1 <= r.value.level <= 6 && r.value.level < |s| && r.value.title != []
    ensures r.Some? ==> (forall j | 0 <= j < r.value.level :: s[j] == '#') && IsSpace(s[r.value.level])
    ensures r.Some? ==> Strings.EndsWith(s, r.value.title) && '\n' !in r.value.title && Clean(r.value.title)
    ensures s == [] || s[0] != '#' ==> r.None?
  {
    var k := Hashes(s, 0);
    if 1 <= k <= 6 && k < |s| && IsSpace(s[k]) then
      var j := SkipSpace(s, k);
      var title := s[j..];
      if '\n' in title then None
      else
        assert title[|title| - 1] == s[|s| - 1];
        StripClean(title);
        Some(Heading(k, Strip(title)))
    else None
  }

  /** The heading a Markdown line is, once stripped (`SECTION_RE.match(line.strip())`). */
  function LineHeading(line: string): Option<Heading> {
    HeadingOf(Strip(line))
  }

  /** Right-stripping a line never changes whether, or which, heading it is. */
  lemma LineHeadingRStrip(line: string)
    ensures LineHeading(RStrip(line)) == LineHeading(line)
  {
    StripStable(line);
  }

  /** `title.lower() == section_name.strip().lower()`: the title names the section, case aside. */
  function TitleMatches(sectionName: string): (matches: string -> bool)
    ensures forall title :: matches(title) <==> Lower(title) == Lower(Strip(sectionName))
  {
    title => Lower(title) == Lower(Strip(sectionName))
  }

  /** The heading opens the section: it is a heading, and its title matches. */
  predicate Opens(h: Option<Heading>, matches: string -> bool) {
    h.Some? && matches(h.value.title)
  }

  /** The heading is at `level` or above, and so ends a section at `level`. */
  predicate Closes(h: Option<Heading>, level: nat) {
    h.Some? && h.value.level <= level
  }

  /** The index of the first line from `from` whose heading, by `heading`, opens the section. */
  function FirstOpening(lines: seq<string>, matches: string -> bool, from: nat, heading: string -> Option<Heading>): (r: Option<nat>)
    requires from <= |lines|
    decreases |lines| - from
    ensures r.Some? ==> from <= r.value < |lines| && Opens(heading(lines[r.value]), matches)
  {
    if from == |lines| then None
    else if Opens(heading(lines[from]), matches) then Some(from)
    else FirstOpening(lines, matches, from + 1, heading)
  }

  /** `FirstOpening` finds exactly the first opening line from `from`, and finds none when there is none. */
  lemma {:induction false} FirstOpeningIsFirst(lines: seq<string>, matches: string -> bool, from: nat, heading: string -> Option<Heading>)
    requires from <= |lines|
    decreases |lines| - from
    ensures var r := FirstOpening(lines, matches, from, heading);
      forall j | from <= j < (if r.Some? then r.value else |lines|) :: !Opens(heading(lines[j]), matches)
  {
    if from < |lines| && !Opens(heading(lines[from]), matches) {
      FirstOpeningIsFirst(lines, matches, from + 1, heading);
    }
  }

  /**
   * A section's body at `level`: the lines from `from` up to the first closing heading,
   * each passed through `keep` (`rstrip`), headings below the level skipped.
   */
  function Body(lines: seq<string>, from: nat, level: nat, heading: string -> Option<Heading>, keep: string -> string): (r: seq<string>)
    requires from <= |lines|
    decreases |lines| - from
    ensures |r| <= |lines| - from
  {
    if from == |lines| || Closes(heading(lines[from]), level) then []
    else Kept(lines[from], heading, keep) + Body(lines, from + 1, level, heading, keep)
  }

  /** What one non-closing line adds to the body: nothing for a heading, else the kept line. */
  function Kept(line: string, heading: string -> Option<Heading>, keep: string -> string): seq<string> {
    if heading(line).Some? then [] else [keep(line)]
  }

  /** The body under the first heading that opens the section, or nothing when none does. */
  function SectionOf(lines: seq<string>, matches: string -> bool, heading: string -> Option<Heading>, keep: string -> string): seq<string> {
    match FirstOpening(lines, matches, 0, heading)
    case None => []
    case Some(s) => Body(lines, s + 1, heading(lines[s]).value.level, heading, keep)
  }

  /** The lines of the named section of a Markdown document. */
  function Section(lines: seq<string>, sectionName: string): seq<string> {
    SectionOf(lines, TitleMatches(sectionName), LineHeading, RStrip)
  }

  /** Each body line is a kept line from `from` on that is no heading. */
  lemma {:induction false} BodyFrom(lines: seq<string>, from: nat, level: nat, heading: string -> Option<Heading>, keep: string -> string)
    requires from <= |lines|
    decreases |lines| - from
    ensures forall o | o in Body(lines, from, level, heading, keep) ::
      exists j | from <= j < |lines| :: o == keep(lines[j]) && heading(lines[j]).None?
  {
    if from < |lines| && !Closes(heading(lines[from]), level) {
      BodyFrom(lines, from + 1, level, heading, keep);
    }
  }

  /** `rstrip` is idempotent. */
  lemma RStripStable(s: string)
    ensures RStrip(RStrip(s)) == RStrip(s)
  {
    var t := RStrip(s);
    if t != [] {
      assert !IsSpace(t[|t| - 1]);
    }
  }

  /**
   * The section's lines are right-stripped, are never headings (sub-headings inside the
   * section included), and a document without the heading has no section lines.
   */
  lemma SectionClean(lines: seq<string>, sectionName: string)
    ensures forall o | o in Section(lines, sectionName) :: RStrip(o) == o && LineHeading(o).None?
    ensures (forall j | 0 <= j < |lines| :: !Opens(LineHeading(lines[j]), TitleMatches(sectionName))) ==> Section(lines, sectionName) == []
  {
    var first := FirstOpening(lines, TitleMatches(sectionName), 0, LineHeading);
    if first.Some? {
      BodyFrom(lines, first.value + 1, LineHeading(lines[first.value]).value.level, LineHeading, RStrip);
      forall o | o in Section(lines, sectionName)
        ensures RStrip(o) == o && LineHeading(o).None?
      {
        var j :| first.value + 1 <= j < |lines| && o == RStrip(lines[j]) && LineHeading(lines[j]).None?;
        RStripStable(lines[j]);
        LineHeadingRStrip(lines[j]);
      }
    }
  }

  /** `extract_section_lines`, over the lines of `markdown.splitlines()`. */
  method ExtractSectionLines(lines: seq<string>, sectionName: string) returns (out: seq<string>)
    ensures out == Section(lines, sectionName)
  {
    out := ScanSection(lines, TitleMatches(sectionName), LineHeading, RStrip);
  }

  /**
   * What the loop of `extract_section_lines` still has to add from line `i` on: the body
   * at `level` while in the section, else the whole section still ahead.
   */
  ghost function Remaining(lines: seq<string>, i: nat, inSection: bool, level: nat,
                           matches: string -> bool, heading: string -> Option<Heading>, keep: string -> string): seq<string>
    requires i <= |lines|
  {
    if inSection then Body(lines, i, level, heading, keep)
    else match FirstOpening(lines, matches, i, heading)
      case None => []
      case Some(s) => Body(lines, s + 1, heading(lines[s]).value.level, heading, keep)
  }

  /** In the section, a heading at its level or above leaves nothing more to add. */
  lemma RemainingStops(lines: seq<string>, i: nat, level: nat,
                       matches: string -> bool, heading: string -> Option<Heading>, keep: string -> string)
    requires i < |lines| && Closes(heading(lines[i]), level)
    ensures Remaining(lines, i, true, level, matches, heading, keep) == []
  {
  }

  /** Before the section, the first heading whose title matches opens it at that heading's level. */
  lemma RemainingOpens(lines: seq<string>, i: nat, level: nat,
                       matches: string -> bool, heading: string -> Option<Heading>, keep: string -> string)
    requires i < |lines| && Opens(heading(lines[i]), matches)
    ensures Remaining(lines, i, false, level, matches, heading, keep)
            == Remaining(lines, i + 1, true, heading(lines[i]).value.level, matches, heading, keep)
  {
  }

  /** Any other heading, and any line before the section, adds nothing. */
  lemma RemainingSkips(lines: seq<string>, i: nat, inSection: bool, level: nat,
                       matches: string -> bool, heading: string -> Option<Heading>, keep: string -> string)
    requires i < |lines|
    requires if inSection then heading(lines[i]).Some? && !Closes(heading(lines[i]), level)
             else !Opens(heading(lines[i]), matches)
    ensures Remaining(lines, i, inSection, level, matches, heading, keep)
            == Remaining(lines, i + 1, inSection, level, matches, heading, keep)
  {
    if inSection {
      assert Kept(lines[i], heading, keep) == [];
    }
  }

  /** In the section, a line that is no heading is kept. */
  lemma RemainingKeeps(lines: seq<string>, i: nat, level: nat,
                       matches: string -> bool, heading: string -> Option<Heading>, keep: string -> string)
    requires i < |lines| && heading(lines[i]).None?
    ensures Remaining(lines, i, true, level, matches, heading, keep)
            == [keep(lines[i])] + Remaining(lines, i + 1, true, level, matches, heading, keep)
  {
  }

  /** The state of the loop of `extract_section_lines`: whether it is in the section, the section's level, the lines kept so far, and whether it has stopped. */
  datatype Scan = Scan(inSection: bool, level: nat, out: seq<string>, stopped: bool)

  /** What one line does to the state of the loop. */
  ghost function Step(st: Scan, line: string, matches: string -> bool, heading: string -> Option<Heading>, keep: string -> string): Scan {
    if st.stopped then st
    else match heading(line)
      case Some(h) =>
        if st.inSection && h.level <= st.level then st.(stopped := true)
        else if !st.inSection && matches(h.title) then st.(inSection := true, level := h.level)
        else st
      case None => if st.inSection then st.(out := st.out + [keep(line)]) else st
  }

  /** The state of the loop after the first `n` lines. */
  ghost function ScanTo(lines: seq<string>, n: nat, matches: string -> bool, heading: string -> Option<Heading>, keep: string -> string): Scan
    requires n <= |lines|
  {
    if n == 0 then Scan(false, 0, [], false) else Step(ScanTo(lines, n - 1, matches, heading, keep), lines[n - 1], matches, heading, keep)
  }

  /** The loop's state after `n` lines accounts for the whole section: what it kept, then what is still to come. */
  ghost predicate Accounts(lines: seq<string>, n: nat, matches: string -> bool, heading: string -> Option<Heading>, keep: string -> string)
    requires n <= |lines|
  {
    var st := ScanTo(lines, n, matches, heading, keep);
    if st.stopped then st.out == SectionOf(lines, matches, heading, keep)
    else st.out + Remaining(lines, n, st.inSection, st.level, matches, heading, keep) == SectionOf(lines, matches, heading, keep)
  }

  /** One more line keeps the account. */
  lemma AccountsStep(lines: seq<string>, n: nat, matches: string -> bool, heading: string -> Option<Heading>, keep: string -> string)
    requires n < |lines| && Accounts(lines, n, matches, heading, keep)
    ensures Accounts(lines, n + 1, matches, heading, keep)
  {
    var st := ScanTo(lines, n, matches, heading, keep);
    if !st.stopped {
      var h := heading(lines[n]);
      if h.Some? && st.inSection && h.value.level <= st.level {
        RemainingStops(lines, n, st.level, matches, heading, keep);
      } else if h.Some? && !st.inSection && matches(h.value.title) {
        RemainingOpens(lines, n, st.level, matches, heading, keep);
      } else if h.Some? || !st.inSection {
        RemainingSkips(lines, n, st.inSection, st.level, matches, heading, keep);
      } else {
        RemainingKeeps(lines, n, st.level, matches, heading, keep);
      }
    }
  }

  /** Every state of the loop keeps the account. */
  lemma {:induction false} AccountsAll(lines: seq<string>, n: nat, matches: string -> bool, heading: string -> Option<Heading>, keep: string -> string)
    requires n <= |lines|
    ensures Accounts(lines, n, matches, heading, keep)
  {
    if n > 0 {
      AccountsAll(lines, n - 1, matches, heading, keep);
      AccountsStep(lines, n - 1, matches, heading, keep);
    }
  }

  /** When the loop stops, or runs out of lines, it has kept exactly the section. */
  lemma ScanResult(lines: seq<string>, n: nat, matches: string -> bool, heading: string -> Option<Heading>, keep: string -> string)
    requires n <= |lines| && (n == |lines| || ScanTo(lines, n, matches, heading, keep).stopped)
    ensures ScanTo(lines, n, matches, heading, keep).out == SectionOf(lines, matches, heading, keep)
  {
    AccountsAll(lines, n, matches, heading, keep);
    var st := ScanTo(lines, n, matches, heading, keep);
    if !st.stopped {
      assert Remaining(lines, n, st.inSection, st.level, matches, heading, keep) == [];
      assert st.out + [] == st.out;
    }
  }

  /**
   * The loop of `extract_section_lines`: `heading` is the heading match of a line,
   * `matches` the test on its title and `keep` what a body line becomes.
   */
  method ScanSection(lines: seq<string>, matches: string -> bool, heading: string -> Option<Heading>, keep: string -> string)
    returns (out: seq<string>)
    ensures out == SectionOf(lines, matches, heading, keep)
  {
    var inSection := false;
    var sectionLevel: nat := 0;
    out := [];
    var i := 0;
    while i < |lines|
      invariant 0 <= i <= |lines|
      invariant ScanTo(lines, i, matches, heading, keep) == Scan(inSection, sectionLevel, out, false)
    {
      var line := lines[i];
      var m := heading(line);
      if m.Some? {
        var level := m.value.level;
        var title := m.value.title;
        if inSection && level <= sectionLevel {
          ScanResult(lines, i + 1, matches, heading, keep);
          return;
        }
        if !inSection && matches(title) {
          inSection := true;
          sectionLevel := level;
        }
        i := i + 1;
        continue;
      }
      if inSection {
        out := out + [keep(line)];
      }
      i := i + 1;
    }
    ScanResult(lines, i, matches, heading, keep);
  }

  /** What one line contributes to the bullets: the text after "- ", stripped. */
  function BulletOf(line: string): (r: Option<string>)
    ensures r.Some? <==> Strings.StartsWith(Strip(line), "- ")
    ensures r.Some? ==> Strip(r.value) == r.value && Strip(line) == "- " + Strip(line)[2..]
  {
    var s := Strip(line);
    if Strings.StartsWith(s, "- ") then
      StripStable(s[2..]);
      Seqs.SplitAt(s, 2);
      Some(Strip(s[2..]))
    else None
  }

  /** The bullets of `lines`, in order. */
  function Bullets(lines: seq<string>): seq<string> {
    Seqs.FilterMap(lines, BulletOf)
  }

  /** Every bullet is stripped and comes from a line that starts with "- " once stripped. */
  lemma BulletsFromLines(lines: seq<string>)
    ensures forall b | b in Bullets(lines) :: Strip(b) == b
    ensures forall b | b in Bullets(lines) :: exists i | 0 <= i < |lines| :: BulletOf(lines[i]) == Some(b)
  {
    Seqs.FilterMapFrom(lines, BulletOf);
  }

  /** `extract_bullets`. */
  method ExtractBullets(lines: seq<string>) returns (bullets: seq<string>)
    ensures bullets == Bullets(lines)
  {
    bullets := [];
    for i := 0 to |lines|
      invariant bullets == Seqs.FilterMap(lines[..i], BulletOf)
    {
      Seqs.FilterMapSnoc(lines, i, BulletOf);
      var s := Strip(lines[i]);
      if Strings.StartsWith(s, "- ") {
        bullets := bullets + [Strip(s[2..])];
      }
    }
    assert lines[..|lines|] == lines;
  }

  /** `penalty_for_rule`. */
  function PenaltyForRule(rule: string, section: string): (r: nat)
    ensures r == 20 <==> Includes(Lower(rule), "must not")
    ensures r == 15 <==> !Includes(Lower(rule), "must not") && Includes(Lower(rule), "must")
    ensures r == 12 <==> !Includes(Lower(rule), "must") && Lower(section) == "dependency rules"
    ensures r == 10 <==> !Includes(Lower(rule), "must") && Lower(section) == "code constraint"
    ensures r == 8 <==> !Includes(Lower(rule), "must") && Lower(section) != "dependency rules" && Lower(section) != "code constraint"
  {
    var text := Lower(rule);
    var sectionKey := Lower(section);
    if Includes(text, "must not") then
      MustNotHasMust(text);
      20
    else if Includes(text, "must") then 15
    else if sectionKey == "dependency rules" then 12
    else if sectionKey == "code constraint" then 10
    else 8
  }

  /** Any text with "must not" also holds "must", which is why "must not" is tested first. */
  lemma MustNotHasMust(text: string)
    requires Includes(text, "must not")
    ensures Includes(text, "must")
  {
    IncludesIffContains(text, "must not");
    IncludesIffContains(text, "must");
    var i :| 0 <= i <= |text| && Strings.OccursAt(text, "must not", i);
    assert text[i..i + 4] == text[i..i + 8][..4];
    assert Strings.OccursAt(text, "must", i);
  }

  datatype Severity = High | Medium | Low

  /** `severity_for_penalty`. */
  function SeverityForPenalty(penalty: int): (r: Severity)
    ensures r == High <==> penalty >= 15
    ensures r == Medium <==> 8 <= penalty <= 14
    ensures r == Low <==> penalty <= 7
  {
    if penalty >= 15 then High
    else if penalty >= 8 then Medium
    else Low
  }

  /** A rule's penalty is one of five values, and its severity is never Low. */
  lemma RuleNeverLow(rule: string, section: string)
    ensures PenaltyForRule(rule, section) in {8, 10, 12, 15, 20}
    ensures SeverityForPenalty(PenaltyForRule(rule, section)) != Low
    ensures SeverityForPenalty(PenaltyForRule(rule, section)) == High
            <==> Includes(Lower(rule), "must")
  {
    if Includes(Lower(rule), "must not") {
      MustNotHasMust(Lower(rule));
    }
  }

  /** A row of the rubric's rule table. */
  datatype RuleRow = RuleRow(rule: string, penalty: nat, severity: Severity, section: string)

  /** The row for one rule. */
  function Row(rule: string, section: string): RuleRow {
    var penalty := PenaltyForRule(rule, section);
    RuleRow(rule, penalty, SeverityForPenalty(penalty), section)
  }

  /** The row of each rule of `section`. */
  function RowIn(section: string): (f: string -> RuleRow)
    ensures forall rule :: f(rule) == Row(rule, section)
  {
    rule => Row(rule, section)
  }

  /** The rows for the rules of one section, in order. */
  function Rows(section: string, rules: seq<string>): (r: seq<RuleRow>)
    ensures |r| == |rules|
  {
    Seqs.Map(rules, RowIn(section))
  }

  const Sections: seq<string> := ["Dependency Rules", "Code Constraint"]

  /** The rows of `build_rubric`: the Dependency Rules bullets, then the Code Constraint ones. */
  method BuildRows(dependencyRules: seq<string>, codeConstraints: seq<string>) returns (rows: seq<RuleRow>)
    ensures rows == Rows("Dependency Rules", dependencyRules) + Rows("Code Constraint", codeConstraints)
  {
    var groups := [(Sections[0], dependencyRules), (Sections[1], codeConstraints)];
    rows := [];
    for k := 0 to 2
      invariant k == 0 ==> rows == []
      invariant k == 1 ==> rows == Rows("Dependency Rules", dependencyRules)
      invariant k == 2 ==> rows == Rows("Dependency Rules", dependencyRules) + Rows("Code Constraint", codeConstraints)
    {
      var (section, rules) := groups[k];
      ghost var before := rows;
      for i := 0 to |rules|
        invariant rows == before + Rows(section, rules[..i])
      {
        var penalty := PenaltyForRule(rules[i], section);
        var severity := SeverityForPenalty(penalty);
        ghost var done := Rows(section, rules[..i]);
        Seqs.MapSnoc(rules, i, RowIn(section));
        assert RuleRow(rules[i], penalty, severity, section) == RowIn(section)(rules[i]);
        Seqs.AppendAssoc(before, done, [RuleRow(rules[i], penalty, severity, section)]);
        rows := rows + [RuleRow(rules[i], penalty, severity, section)];
      }
      assert rules[..|rules|] == rules;
    }
  }

  /** `sum(row[1] for row in rule_rows)`. */
  function Total(rows: seq<RuleRow>): nat {
    if rows == [] then 0 else Total(rows[..|rows| - 1]) + rows[|rows| - 1].penalty
  }

  /** The total adds up section by section. */
  lemma {:induction false} TotalAppend(a: seq<RuleRow>, b: seq<RuleRow>)
    ensures Total(a + b) == Total(a) + Total(b)
  {
    if b != [] {
      assert (a + b)[..|a + b| - 1] == a + b[..|b| - 1];
      TotalAppend(a, b[..|b| - 1]);
    } else {
      assert a + b == a;
    }
  }

  /** Every rule costs between 8 and 20 points, so the total lies between 8 and 20 per rule. */
  lemma {:induction false} TotalBounds(section: string, rules: seq<string>)
    ensures 8 * |rules| <= Total(Rows(section, rules)) <= 20 * |rules|
  {
    if rules != [] {
      var rows := Rows(section, rules);
      TotalBounds(section, rules[..|rules| - 1]);
      Seqs.MapSnoc(rules, |rules| - 1, RowIn(section));
      assert rules[..|rules|] == rules;
      assert rows == Rows(section, rules[..|rules| - 1]) + [Row(rules[|rules| - 1], section)];
      assert rows[..|rows| - 1] == Rows(section, rules[..|rules| - 1]);
      RuleNeverLow(rules[|rules| - 1], section);
    }
  }

  /**
   * The rule rows and `total_max_penalty` of `build_rubric`, from the lines of AGENTS.md;
   * the total is the sum of the two sections' penalties.
   */
  method RubricRows(lines: seq<string>) returns (rows: seq<RuleRow>, totalMaxPenalty: nat)
    ensures rows == Rows("Dependency Rules", Bullets(Section(lines, "Dependency Rules")))
                    + Rows("Code Constraint", Bullets(Section(lines, "Code Constraint")))
    ensures 8 * |rows| <= totalMaxPenalty <= 20 * |rows|
    ensures totalMaxPenalty == Total(Rows("Dependency Rules", Bullets(Section(lines, "Dependency Rules"))))
                               + Total(Rows("Code Constraint", Bullets(Section(lines, "Code Constraint"))))
  {
    var dependencySection := ExtractSectionLines(lines, "Dependency Rules");
    var dependencyRules := ExtractBullets(dependencySection);
    var codeSection := ExtractSectionLines(lines, "Code Constraint");
    var codeConstraints := ExtractBullets(codeSection);
    rows := BuildRows(dependencyRules, codeConstraints);
    totalMaxPenalty := Total(rows);
    TotalAppend(Rows("Dependency Rules", dependencyRules), Rows("Code Constraint", codeConstraints));
    TotalBounds("Dependency Rules", dependencyRules);
    TotalBounds("Code Constraint", codeConstraints);
  }

  /** `f"{idx}. `-{penalty}` ({severity}, {section}): {rule}"`. */
  function RuleLine(idx: nat, row: RuleRow): (r: string)
    ensures Strings.StartsWith(r, Strings.DecimalString(idx) + ". `-" + Strings.DecimalString(row.penalty) + "` (")
    ensures Strings.EndsWith(r, "): " + row.rule)
  {
    var name := match row.severity case High => "High" case Medium => "Medium" case Low => "Low";
    var head := Strings.DecimalString(idx) + ". `-" + Strings.DecimalString(row.penalty) + "` (";
    var tail := "): " + row.rule;
    var r := head + name + ", " + row.section + tail;
    assert r[..|head|] == head;
    assert r[|r| - |tail|..] == tail;
    r
  }

  /** The rubric's "Rule Penalties" list: one numbered line per row, or a notice when there are none. */
  function PenaltyLines(rows: seq<RuleRow>): (r: seq<string>)
    ensures rows == [] ==> r == ["- No explicit bullet rules found in `Dependency Rules` or `Code Constraint`."]
    ensures rows != [] ==> |r| == |rows| && forall i | 0 <= i < |rows| :: r[i] == RuleLine(i + 1, rows[i])
  {
    if rows == [] then ["- No explicit bullet rules found in `Dependency Rules` or `Code Constraint`."]
    else NumberedLines(rows, 1)
  }

  function NumberedLines(rows: seq<RuleRow>, idx: nat): (r: seq<string>)
    ensures |r| == |rows| && forall i | 0 <= i < |rows| :: r[i] == RuleLine(idx + i, rows[i])
  {
    if rows == [] then [] else [RuleLine(idx, rows[0])] + NumberedLines(rows[1..], idx + 1)
  }
}
