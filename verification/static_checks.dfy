/** The regex rule engine `run_static_checks` (svdf/static_checks.py).

    The regular-expression engine is an input of the model: a `Matcher`
    gives, for a pattern and a text, the start offsets of the matches in the
    order `re.finditer` reports them. The directory walk is an input too: the
    `*.c` files in the order `Path.rglob` yields them, each with its text or
    with `None` when `read_text` raised. */
module StaticChecks {
  import opened Base
  import opened Lines

  datatype Rule = Rule(id: string, pattern: string, message: string, severity: string, fix: string)

  datatype Finding = Finding(id: string, file: string, line: nat, message: string,
                             severity: string, snippet: string, suggestedFix: string)

  datatype SourceFile = SourceFile(path: string, content: Option<string>)

  type Matcher = (string, string) -> seq<nat>

  const StrcpyRule: Rule := Rule("S001", "\\bstrcpy\\s*\\(", "Use of strcpy() without bounds check", "HIGH",
                                "Use strncpy() or bounds check")
  const GetsRule: Rule := Rule("S002", "\\bgets\\s*\\(", "Use of gets() which is unsafe", "HIGH", "Use fgets()")
  const SprintfRule: Rule := Rule("S003", "\\bsprintf\\s*\\(", "Use of sprintf() without bounds check", "MEDIUM",
                                  "Use snprintf()")
  const CredentialRule: Rule := Rule("S004", "\\\"([A-Za-z0-9_@!$%^&*()-]{8,})\\\"", "Possible hard-coded credential found",
                                     "HIGH", "Store secrets in environment variables instead of source code.")
  const SystemRule: Rule := Rule("S005", "\\bsystem\\s*\\(", "Use of system() can lead to command injection", "HIGH",
                                 "Avoid system(); use execve() safely with proper validation")
  const StrcatRule: Rule := Rule("S009", "\\bstrcat\\s*\\(", "Use of strcat() without bounds check", "HIGH",
                                 "Use strncat() with proper bounds checking")

  /** The built-in rule table. */
  function DefaultRules(): (rules: seq<Rule>)
    ensures |rules| == 6
    ensures forall i, j :: 0 <= i < j < |rules| ==> rules[i].id != rules[j].id
    ensures forall k :: 0 <= k < |rules| ==> rules[k].severity == "HIGH" || rules[k].severity == "MEDIUM"
  {
    var rules := [StrcpyRule, GetsRule, SprintfRule, CredentialRule, SystemRule, StrcatRule];
    assert forall k :: 0 <= k < |rules| ==> |rules[k].id| == 4;
    assert rules[0].id[3] == '1' && rules[1].id[3] == '2' && rules[2].id[3] == '3';
    assert rules[3].id[3] == '4' && rules[4].id[3] == '5' && rules[5].id[3] == '9';
    rules
  }

  /** `rules or DEFAULT_RULES`: a missing or empty rule list means the
      built-in table, any other list is used as given. */
  function EffectiveRules(rules: Option<seq<Rule>>): (r: seq<Rule>)
    ensures |r| > 0
    ensures (rules.None? || rules.value == []) ==> r == DefaultRules()
    ensures (rules.Some? && rules.value != []) ==> r == rules.value
  {
    match rules
    case None => DefaultRules()
    case Some(rs) => if rs == [] then DefaultRules() else rs
  }

  /** The snippet of a finding: the stripped line at the '\n'-counted index of
      the `splitlines()` list, or "" when that index is outside the list. */
  function Snippet(lines: seq<string>, lineNo: nat): (snippet: string)
    ensures 1 <= lineNo <= |lines| ==> StrippedFrom(lines[lineNo - 1], snippet)
    ensures !(1 <= lineNo <= |lines|) ==> snippet == ""
  {
    if 0 <= lineNo - 1 < |lines| then Strip(lines[lineNo - 1]) else ""
  }

  /** The finding carries the rule's identity, message, severity and fix. */
  predicate CopiedFrom(f: Finding, r: Rule)
  {
    f.id == r.id && f.message == r.message && f.severity == r.severity && f.suggestedFix == r.fix
  }

  /** The finding for a match of `rule` starting at offset `start`. */
  function MakeFinding(path: string, text: string, lines: seq<string>, rule: Rule, start: nat): Finding
  {
    var n := LineNumber(text, start);
    Finding(rule.id, path, n, rule.message, rule.severity, Snippet(lines, n), rule.fix)
  }

  /** The findings of one rule in one file, one per match, in match order. */
  function RuleFindings(path: string, text: string, lines: seq<string>, rule: Rule, starts: seq<nat>): (fs: seq<Finding>)
    ensures |fs| == |starts|
    ensures forall k :: 0 <= k < |fs| ==>
              && CopiedFrom(fs[k], rule) && fs[k].file == path
              && fs[k].line == LineNumber(text, starts[k])
              && fs[k].snippet == Snippet(lines, fs[k].line)
  {
    seq(|starts|, k requires 0 <= k < |starts| => MakeFinding(path, text, lines, rule, starts[k]))
  }

  /** The findings of all rules in one file, rule after rule. */
  function TextFindings(path: string, text: string, lines: seq<string>, rules: seq<Rule>, matcher: Matcher): seq<Finding>
    decreases |rules|
  {
    if rules == [] then []
    else RuleFindings(path, text, lines, rules[0], matcher(rules[0].pattern, text))
         + TextFindings(path, text, lines, rules[1..], matcher)
  }

  /** The findings of one file; a file that could not be read has none. */
  function FileFindings(file: SourceFile, rules: seq<Rule>, matcher: Matcher): seq<Finding>
  {
    match file.content
    case None => []
    case Some(text) => TextFindings(file.path, text, SplitLines(text), rules, matcher)
  }

  /** The findings of all files, file after file. */
  function ScanFiles(files: seq<SourceFile>, rules: seq<Rule>, matcher: Matcher): seq<Finding>
    decreases |files|
  {
    if files == [] then [] else FileFindings(files[0], rules, matcher) + ScanFiles(files[1..], rules, matcher)
  }

  /** `run_static_checks`: one finding per match of a rule in effect in a
      readable file, each copying one of those rules and naming that file. */
  function RunStaticChecks(files: seq<SourceFile>, rules: Option<seq<Rule>>, matcher: Matcher): (findings: seq<Finding>)
    ensures |findings| == MatchCount(files, EffectiveRules(rules), matcher)
    ensures forall f :: f in findings ==>
              && f.line >= 1
              && (exists r :: r in EffectiveRules(rules) && CopiedFrom(f, r))
              && (exists file :: file in files && file.content.Some? && file.path == f.file)
  {
    FindingsCount(files, EffectiveRules(rules), matcher);
    FindingProvenance(files, EffectiveRules(rules), matcher);
    ScanFiles(files, EffectiveRules(rules), matcher)
  }

  // ---------------------------------------------------------------------
  // Reference counts

  function RuleMatchCount(text: string, rules: seq<Rule>, matcher: Matcher): nat
    decreases |rules|
  {
    if rules == [] then 0 else |matcher(rules[0].pattern, text)| + RuleMatchCount(text, rules[1..], matcher)
  }

  /** The number of matches of all rules over all readable files. */
  function MatchCount(files: seq<SourceFile>, rules: seq<Rule>, matcher: Matcher): nat
    decreases |files|
  {
    if files == [] then 0
    else
      (match files[0].content case None => 0 case Some(text) => RuleMatchCount(text, rules, matcher))
      + MatchCount(files[1..], rules, matcher)
  }

  // ---------------------------------------------------------------------
  // Properties

  lemma {:induction false} TextFindingsCount(path: string, text: string, lines: seq<string>, rules: seq<Rule>, matcher: Matcher)
    ensures |TextFindings(path, text, lines, rules, matcher)| == RuleMatchCount(text, rules, matcher)
    decreases |rules|
  {
    if rules != [] {
      TextFindingsCount(path, text, lines, rules[1..], matcher);
    }
  }

  /** There is exactly one finding per match, over all readable files. */
  lemma {:induction false} FindingsCount(files: seq<SourceFile>, rules: seq<Rule>, matcher: Matcher)
    ensures |ScanFiles(files, rules, matcher)| == MatchCount(files, rules, matcher)
    decreases |files|
  {
    if files != [] {
      if files[0].content.Some? {
        TextFindingsCount(files[0].path, files[0].content.value, SplitLines(files[0].content.value), rules, matcher);
      }
      FindingsCount(files[1..], rules, matcher);
    }
  }

  /** Findings come file after file: scanning two lists of files is scanning
      the first and then the second. */
  lemma {:induction false} ScanFilesAppend(a: seq<SourceFile>, b: seq<SourceFile>, rules: seq<Rule>, matcher: Matcher)
    ensures ScanFiles(a + b, rules, matcher) == ScanFiles(a, rules, matcher) + ScanFiles(b, rules, matcher)
    decreases |a|
  {
    if a == [] {
      assert a + b == b;
    } else {
      assert (a + b)[0] == a[0] && (a + b)[1..] == a[1..] + b;
      ScanFilesAppend(a[1..], b, rules, matcher);
    }
  }

  /** A file whose read raised contributes nothing and does not stop the scan
      of the files around it. */
  lemma UnreadableFileSkipped(a: seq<SourceFile>, path: string, b: seq<SourceFile>, rules: seq<Rule>, matcher: Matcher)
    ensures ScanFiles(a + [SourceFile(path, None)] + b, rules, matcher)
         == ScanFiles(a, rules, matcher) + ScanFiles(b, rules, matcher)
  {
    var gap := [SourceFile(path, None)];
    assert gap[1..] == [];
    assert ScanFiles(gap, rules, matcher) == [] by {
      assert FileFindings(gap[0], rules, matcher) == [];
      assert ScanFiles(gap[1..], rules, matcher) == [];
    }
    ScanFilesAppend(a, gap, rules, matcher);
    assert ScanFiles(a + gap, rules, matcher) == ScanFiles(a, rules, matcher);
    ScanFilesAppend(a + gap, b, rules, matcher);
  }

  /** Within a file, findings come rule after rule, in the order of the rule list. */
  lemma {:induction false} TextFindingsAppend(path: string, text: string, lines: seq<string>,
                                              r1: seq<Rule>, r2: seq<Rule>, matcher: Matcher)
    ensures TextFindings(path, text, lines, r1 + r2, matcher)
         == TextFindings(path, text, lines, r1, matcher) + TextFindings(path, text, lines, r2, matcher)
    decreases |r1|
  {
    if r1 == [] {
      assert r1 + r2 == r2;
    } else {
      assert (r1 + r2)[0] == r1[0] && (r1 + r2)[1..] == r1[1..] + r2;
      TextFindingsAppend(path, text, lines, r1[1..], r2, matcher);
    }
  }

  /** Within one rule, findings follow the match offsets, so their line
      numbers never decrease when the offsets do not. */
  lemma RuleFindingsOrdered(path: string, text: string, lines: seq<string>, rule: Rule, starts: seq<nat>)
    requires forall i, j :: 0 <= i <= j < |starts| ==> starts[i] <= starts[j]
    ensures var fs := RuleFindings(path, text, lines, rule, starts);
            forall i, j :: 0 <= i <= j < |fs| ==> fs[i].line <= fs[j].line
  {
    forall i, j | 0 <= i <= j < |starts|
      ensures LineNumber(text, starts[i]) <= LineNumber(text, starts[j])
    {
      LineNumberMonotone(text, starts[i], starts[j]);
    }
  }

  lemma {:induction false} TextFindingsProvenance(path: string, text: string, lines: seq<string>,
                                                  rules: seq<Rule>, matcher: Matcher)
    ensures forall f :: f in TextFindings(path, text, lines, rules, matcher) ==>
              f.file == path && f.line >= 1 && exists r :: r in rules && CopiedFrom(f, r)
    decreases |rules|
  {
    if rules != [] {
      TextFindingsProvenance(path, text, lines, rules[1..], matcher);
      var own := RuleFindings(path, text, lines, rules[0], matcher(rules[0].pattern, text));
      forall f | f in own
        ensures f.file == path && f.line >= 1 && CopiedFrom(f, rules[0])
      {
      }
      forall f | f in TextFindings(path, text, lines, rules, matcher)
        ensures f.file == path && f.line >= 1 && exists r :: r in rules && CopiedFrom(f, r)
      {
        if f in own {
          assert rules[0] in rules;
        } else {
          var r :| r in rules[1..] && CopiedFrom(f, r);
          assert r in rules;
        }
      }
    }
  }

  /** Every finding names a readable scanned file, a line number of at least
      1, and copies identity, message, severity and fix from one of the rules. */
  lemma {:induction false} FindingProvenance(files: seq<SourceFile>, rules: seq<Rule>, matcher: Matcher)
    ensures forall f :: f in ScanFiles(files, rules, matcher) ==>
              && f.line >= 1
              && (exists r :: r in rules && CopiedFrom(f, r))
              && (exists file :: file in files && file.content.Some? && file.path == f.file)
    decreases |files|
  {
    if files != [] {
      FindingProvenance(files[1..], rules, matcher);
      var head := files[0];
      if head.content.Some? {
        TextFindingsProvenance(head.path, head.content.value, SplitLines(head.content.value), rules, matcher);
      }
      forall f | f in ScanFiles(files, rules, matcher)
        ensures && f.line >= 1
                && (exists r :: r in rules && CopiedFrom(f, r))
                && (exists file :: file in files && file.content.Some? && file.path == f.file)
      {
        if f in FileFindings(head, rules, matcher) {
          assert head in files;
        } else {
          assert f in ScanFiles(files[1..], rules, matcher);
          var file :| file in files[1..] && file.content.Some? && file.path == f.file;
          assert file in files;
        }
      }
    }
  }

  /** In a text where only '\n' breaks lines, the snippet of a match inside
      the text is the stripped line that holds the match. */
  lemma SnippetIsMatchLine(path: string, text: string, rule: Rule, start: nat)
    requires start < |text|
    requires NewlinesOnly(text)
    ensures exists a: nat, b: nat :: LineAround(text, start, a, b)
              && MakeFinding(path, text, SplitLines(text), rule, start).snippet == Strip(text[a..b])
  {
    LinesAgreeOnNewlineText(text, start);
    var a: nat, b: nat :| LineAround(text, start, a, b)
                          && SplitLines(text)[LineNumber(text, start) - 1] == text[a..b];
    assert MakeFinding(path, text, SplitLines(text), rule, start).snippet == Strip(text[a..b]);
  }

  lemma StripKeepsWord()
    ensures Strip("b") == "b"
  {
    assert SkipSpaces("b", 0) == 0;
    assert SkipSpacesBack("b", 0, 1) == 1;
  }

  /** A form feed makes the snippet come from another line: in "a\fb\nc" a
      match at offset 4 (the 'c') is reported on line 2 with snippet "b". */
  lemma SnippetFromOtherLine(path: string, rule: Rule)
    ensures var f := MakeFinding(path, "a\U{000C}b\nc", SplitLines("a\U{000C}b\nc"), rule, 4);
            f.line == 2 && f.snippet == "b"
  {
    var t := "a\U{000C}b\nc";
    FormFeedShiftsLines();
    var lines := SplitLines(t);
    assert lines[1] == "b";
    StripKeepsWord();
    assert Snippet(lines, 2) == "b";
    assert LineNumber(t, 4) == 2;
  }

  /** Without a rule list, or with an empty one, the scan uses the built-in
      table: every finding is one of its six rules' and has severity HIGH or
      MEDIUM. A non-empty list is used exactly as given. */
  lemma RulesInEffect(files: seq<SourceFile>, rules: Option<seq<Rule>>, matcher: Matcher)
    ensures (rules.None? || rules == Some([])) ==>
              && RunStaticChecks(files, rules, matcher) == ScanFiles(files, DefaultRules(), matcher)
              && |RunStaticChecks(files, rules, matcher)| == MatchCount(files, DefaultRules(), matcher)
              && forall f :: f in RunStaticChecks(files, rules, matcher) ==>
                   && (exists r :: r in DefaultRules() && CopiedFrom(f, r))
                   && (f.severity == "HIGH" || f.severity == "MEDIUM")
    ensures rules.Some? && rules.value != [] ==>
              RunStaticChecks(files, rules, matcher) == ScanFiles(files, rules.value, matcher)
  {
    if rules.None? || rules == Some([]) {
      var findings, d := RunStaticChecks(files, rules, matcher), DefaultRules();
      assert EffectiveRules(rules) == d;
      SeveritiesOf(findings, d);
    }
  }

  /** Findings copied from rules of severity HIGH or MEDIUM have one of those
      severities. */
  lemma SeveritiesOf(findings: seq<Finding>, rules: seq<Rule>)
    requires forall k :: 0 <= k < |rules| ==> rules[k].severity == "HIGH" || rules[k].severity == "MEDIUM"
    requires forall f :: f in findings ==> exists r :: r in rules && CopiedFrom(f, r)
    ensures forall f :: f in findings ==> f.severity == "HIGH" || f.severity == "MEDIUM"
  {
    forall f | f in findings
      ensures f.severity == "HIGH" || f.severity == "MEDIUM"
    {
      var r :| r in rules && CopiedFrom(f, r);
      var k :| 0 <= k < |rules| && rules[k] == r;
    }
  }
}
