/** The vocabulary substitution engine of the package (src/srt2csv/vocabulary.py):
    `OLD<=>NEW` lines become an ordered list of rules, and the rules rewrite the
    text lines of a subtitle file while index and timecode lines stay as they are. */
module Vocabulary {
  import opened Wrappers
  import opened Text
  import opened Replace

  /** One substitution: occurrences of `pattern` (OLD) become `replacement` (NEW). */
  datatype Rule = Rule(pattern: string, replacement: string)

  const Separator: string := "<=>"
  const Arrow: string := "-->"

  // ---------------------------------------------------------------- two_cases

  /** The replacement with its first character upper-cased, and lower-cased. */
  function TwoCases(title: string): (r: (string, string))
    ensures title == [] ==> r == ([], [])
    ensures title != [] ==> |r.0| == |title| && |r.1| == |title|
    ensures title != [] ==> r.0[1..] == title[1..] && r.1[1..] == title[1..]
    ensures title != [] ==> r.0[0] == ToUpper(title[0]) && r.1[0] == ToLower(title[0])
  {
    if title == [] then ([], []) else ([ToUpper(title[0])] + title[1..], [ToLower(title[0])] + title[1..])
  }

  /** The pair depends on the title only up to the case of its first
      character: either variant gives the same pair back, and the title is
      itself one of the two. */
  lemma TwoCasesOfVariant(title: string)
    ensures TwoCases(TwoCases(title).0) == TwoCases(title)
    ensures TwoCases(TwoCases(title).1) == TwoCases(title)
    ensures title == TwoCases(title).0 || title == TwoCases(title).1
  {
    if title != [] {
      var (u, l) := TwoCases(title);
      assert u[1..] == title[1..] && l[1..] == title[1..];
      assert ToUpper(ToLower(title[0])) == ToUpper(title[0]);
      assert ToLower(ToUpper(title[0])) == ToLower(title[0]);
      assert title == [title[0]] + title[1..];
    }
  }

  // ---------------------------------------------------------------- parse_vocabular_text

  /** The rules one vocabulary line contributes: none, or the upper and then
      the lower variant of NEW, both for the same stripped OLD. */
  function LineRules(line: string): (r: seq<Rule>)
    ensures |r| == 0 || |r| == 2
  {
    var t := Strip(line);
    if t == [] then []
    else
      match SplitFirst(t, Separator)
      case None => []
      case Some((oldPart, newPart)) =>
        var cases := TwoCases(Strip(newPart));
        [Rule(Strip(oldPart), cases.0), Rule(Strip(oldPart), cases.1)]
  }

  /** A line contributes rules exactly when its stripped form holds the
      separator; the two rules then share one stripped OLD that holds no
      separator itself, and their NEWs are the two cases of one another. */
  lemma LineRulesShape(line: string)
    ensures |LineRules(line)| == 2 <==> Contains(Strip(line), Separator)
    ensures var r := LineRules(line);
      |r| == 2 ==> r[0].pattern == r[1].pattern && IsStripped(r[0].pattern) && !Contains(r[0].pattern, Separator)
    ensures var r := LineRules(line);
      |r| == 2 ==> TwoCases(r[0].replacement) == (r[0].replacement, r[1].replacement)
  {
    var t := Strip(line);
    if t != [] {
      match SplitFirst(t, Separator)
      case None =>
      case Some((oldPart, newPart)) =>
        OldHasNoSeparator(t, oldPart, newPart);
        StripShape(oldPart);
        TwoCasesOfVariant(Strip(newPart));
    } else {
      assert !Contains(t, Separator) by {
        assert !OccursAt(t, Separator, 0);
      }
    }
  }

  /** A text that holds no `<=>` and is followed by one: that one is the
      first, since no proper suffix of `<=>` begins it. */
  lemma FirstSeparatorAfter(a: string, b: string)
    requires !Contains(a, Separator)
    ensures SplitFirst(a + Separator + b, Separator) == Some((a, b))
  {
    var s := a + Separator + b;
    assert s[|a|..|a| + 3] == Separator;
    forall j: nat | j < |a|
      ensures !OccursAt(s, Separator, j)
    {
      if j + 3 <= |a| {
        assert s[j..j + 3] == a[j..j + 3];
        assert !OccursAt(a, Separator, j);
      } else if j + 1 == |a| {
        assert s[j..j + 3][1] == s[j + 1] == '<';
      } else {
        assert s[j..j + 3][2] == s[j + 2] == '<';
      }
    }
    assert OccursAt(s, Separator, |a|);
    assert Find(s, Separator) == Some(|a|);
    assert s[..|a|] == a;
    assert s[|a| + 3..] == b;
  }

  /** A line whose stripped form is OLD, `<=>`, NEW with no `<=>` in OLD
      gives the two rules for stripped OLD, with the two cases of stripped
      NEW, upper first. */
  lemma LineRulesOfSplit(line: string, a: string, b: string)
    requires Strip(line) == a + Separator + b && !Contains(a, Separator)
    ensures LineRules(line) == [Rule(Strip(a), TwoCases(Strip(b)).0), Rule(Strip(a), TwoCases(Strip(b)).1)]
  {
    FirstSeparatorAfter(a, b);
  }

  /** The rules of a line `OLD<=>NEW` with both sides already stripped and
      no '<' in OLD. */
  lemma LineRulesOfStrippedSides(oldPart: string, first: char, rest: string)
    requires Separator[0] !in oldPart && IsStripped(oldPart) && IsStripped([first] + rest) && oldPart != []
    ensures LineRules(oldPart + Separator + ([first] + rest))
         == [Rule(oldPart, [ToUpper(first)] + rest), Rule(oldPart, [ToLower(first)] + rest)]
  {
    var newPart := [first] + rest;
    var line := oldPart + Separator + newPart;
    assert IsStripped(line);
    StrippedIsFixed(line);
    AbsentFirstChar(oldPart, Separator);
    LineRulesOfSplit(line, oldPart, newPart);
    StrippedIsFixed(oldPart);
    StrippedIsFixed(newPart);
    assert newPart[1..] == rest;
  }

  lemma OldHasNoSeparator(t: string, oldPart: string, newPart: string)
    requires t == oldPart + Separator + newPart
    requires forall j :: 0 <= j < |oldPart| ==> !OccursAt(t, Separator, j)
    ensures !Contains(Strip(oldPart), Separator)
  {
    var a := StripOffset(oldPart);
    var so := Strip(oldPart);
    if Contains(so, Separator) {
      var k := Find(so, Separator).value;
      OccursInSlice(oldPart, a, a + |so|, Separator, k);
      assert t[0..|oldPart|] == oldPart;
      OccursInSlice(t, 0, |oldPart|, Separator, a + k);
    }
  }

  function CountSeparatorLines(lines: seq<string>): nat {
    if lines == [] then 0
    else CountSeparatorLines(lines[..|lines| - 1]) + (if Contains(Strip(lines[|lines| - 1]), Separator) then 1 else 0)
  }

  /** The rules of all lines, in line order, before sorting. */
  function CollectRules(lines: seq<string>): (r: seq<Rule>)
    ensures |r| == 2 * CountSeparatorLines(lines)
  {
    if lines == [] then [] else CollectRules(lines[..|lines| - 1]) + LineRules(lines[|lines| - 1])
  }

  /** Lines with the same stripped form contribute the same rules. */
  lemma {:induction false} CollectRulesByStrip(xs: seq<string>, ys: seq<string>)
    requires |xs| == |ys|
    requires forall k :: 0 <= k < |xs| ==> Strip(xs[k]) == Strip(ys[k])
    ensures CollectRules(xs) == CollectRules(ys)
    decreases |xs|
  {
    if xs != [] {
      CollectRulesByStrip(xs[..|xs| - 1], ys[..|ys| - 1]);
    }
  }

  lemma CollectRulesStep(lines: seq<string>, i: nat)
    requires i < |lines|
    ensures CollectRules(lines[..i + 1]) == CollectRules(lines[..i]) + LineRules(lines[i])
  {
    assert lines[..i + 1][..i] == lines[..i];
  }

  // ---------------------------------------------------------------- stable sort

  predicate SortedByPatternLength(rs: seq<Rule>) {
    forall i, j :: 0 <= i < j < |rs| ==> |rs[i].pattern| >= |rs[j].pattern|
  }

  /** The rules whose pattern has length k, in their order. */
  function WithPatternLength(rs: seq<Rule>, k: nat): seq<Rule> {
    if rs == [] then []
    else WithPatternLength(rs[..|rs| - 1], k) + (if |rs[|rs| - 1].pattern| == k then [rs[|rs| - 1]] else [])
  }

  /** Insertion into a list sorted by non-increasing pattern length, after
      every rule whose pattern is at least as long. */
  function Insert(x: Rule, rs: seq<Rule>): seq<Rule> {
    if rs == [] then [x]
    else if |rs[0].pattern| >= |x.pattern| then [rs[0]] + Insert(x, rs[1..])
    else [x] + rs
  }

  /** `rules.sort(key=lambda x: len(x[0]), reverse=True)`; Python's sort is
      stable, also with reverse=True. */
  function SortByPatternLength(rs: seq<Rule>): seq<Rule> {
    if rs == [] then [] else Insert(rs[|rs| - 1], SortByPatternLength(rs[..|rs| - 1]))
  }

  lemma {:induction false} WithPatternLengthAppend(a: seq<Rule>, b: seq<Rule>, k: nat)
    ensures WithPatternLength(a + b, k) == WithPatternLength(a, k) + WithPatternLength(b, k)
    decreases |b|
  {
    if b != [] {
      WithPatternLengthAppend(a, b[..|b| - 1], k);
      assert (a + b)[..|a + b| - 1] == a + b[..|b| - 1];
    } else {
      assert a + b == a;
    }
  }

  lemma {:induction false} ShorterAbsent(rs: seq<Rule>, k: nat)
    requires forall i :: 0 <= i < |rs| ==> |rs[i].pattern| < k
    ensures WithPatternLength(rs, k) == []
    decreases |rs|
  {
    if rs != [] {
      ShorterAbsent(rs[..|rs| - 1], k);
    }
  }

  lemma {:induction false} InsertPermutes(x: Rule, rs: seq<Rule>)
    ensures multiset(Insert(x, rs)) == multiset(rs) + multiset{x}
    decreases |rs|
  {
    if rs != [] && |rs[0].pattern| >= |x.pattern| {
      InsertPermutes(x, rs[1..]);
      assert rs == [rs[0]] + rs[1..];
    }
  }

  lemma {:induction false} InsertSorted(x: Rule, rs: seq<Rule>)
    requires SortedByPatternLength(rs)
    ensures SortedByPatternLength(Insert(x, rs))
    decreases |rs|
  {
    if rs != [] && |rs[0].pattern| >= |x.pattern| {
      var tail := Insert(x, rs[1..]);
      InsertSorted(x, rs[1..]);
      InsertPermutes(x, rs[1..]);
      var r := [rs[0]] + tail;
      forall j | 0 < j < |r| ensures |r[0].pattern| >= |r[j].pattern| {
        assert r[j] in multiset(tail);
        if r[j] != x {
          assert r[j] in multiset(rs[1..]);
          var m :| 0 <= m < |rs[1..]| && rs[1..][m] == r[j];
          assert rs[1 + m] == r[j];
        }
      }
    }
  }

  lemma {:induction false} InsertStable(x: Rule, rs: seq<Rule>, k: nat)
    requires SortedByPatternLength(rs)
    ensures WithPatternLength(Insert(x, rs), k) == WithPatternLength(rs, k) + (if |x.pattern| == k then [x] else [])
    decreases |rs|
  {
    if rs == [] {
      assert WithPatternLength([x], k) == WithPatternLength([], k) + (if |x.pattern| == k then [x] else []);
    } else if |rs[0].pattern| >= |x.pattern| {
      SortedTail(rs);
      InsertStable(x, rs[1..], k);
      InsertAfterHead(x, rs, k);
    } else {
      InsertInFront(x, rs, k);
    }
  }

  lemma SortedTail(rs: seq<Rule>)
    requires SortedByPatternLength(rs) && rs != []
    ensures SortedByPatternLength(rs[1..])
  {
    var tail := rs[1..];
    forall i, j | 0 <= i < j < |tail| ensures |tail[i].pattern| >= |tail[j].pattern| {
      assert tail[i] == rs[i + 1] && tail[j] == rs[j + 1];
    }
  }

  /** Inserting after a head at least as long as x: the head stays first and
      what holds for the tail carries over. */
  lemma InsertAfterHead(x: Rule, rs: seq<Rule>, k: nat)
    requires rs != [] && |rs[0].pattern| >= |x.pattern|
    requires WithPatternLength(Insert(x, rs[1..]), k) == WithPatternLength(rs[1..], k) + (if |x.pattern| == k then [x] else [])
    ensures WithPatternLength(Insert(x, rs), k) == WithPatternLength(rs, k) + (if |x.pattern| == k then [x] else [])
  {
    var tail := rs[1..];
    assert Insert(x, rs) == [rs[0]] + Insert(x, tail);
    WithPatternLengthAppend([rs[0]], Insert(x, tail), k);
    WithPatternLengthAppend([rs[0]], tail, k);
    assert rs == [rs[0]] + tail;
  }

  /** Inserting before a sorted list whose longest pattern is shorter than
      x's puts x first. */
  lemma InsertInFront(x: Rule, rs: seq<Rule>, k: nat)
    requires SortedByPatternLength(rs) && rs != [] && |rs[0].pattern| < |x.pattern|
    ensures WithPatternLength(Insert(x, rs), k) == WithPatternLength(rs, k) + (if |x.pattern| == k then [x] else [])
  {
    assert Insert(x, rs) == [x] + rs;
    assert WithPatternLength([x], k) == WithPatternLength([], k) + (if |x.pattern| == k then [x] else []);
    WithPatternLengthAppend([x], rs, k);
    if k == |x.pattern| {
      ShorterAbsent(rs, k);
    }
  }

  /** The sort orders by non-increasing pattern length, is a permutation, and
      is stable: the rules of each pattern length keep their input order. */
  lemma {:induction false} SortByPatternLengthIsStableSort(rs: seq<Rule>)
    ensures SortedByPatternLength(SortByPatternLength(rs))
    ensures multiset(SortByPatternLength(rs)) == multiset(rs)
    ensures forall k :: WithPatternLength(SortByPatternLength(rs), k) == WithPatternLength(rs, k)
    decreases |rs|
  {
    if rs != [] {
      var init := rs[..|rs| - 1];
      var x := rs[|rs| - 1];
      SortByPatternLengthIsStableSort(init);
      InsertSorted(x, SortByPatternLength(init));
      InsertPermutes(x, SortByPatternLength(init));
      forall k ensures WithPatternLength(SortByPatternLength(rs), k) == WithPatternLength(rs, k) {
        InsertStable(x, SortByPatternLength(init), k);
      }
      assert rs == init + [x];
    }
  }

  /** `parse_vocabular_text`: one rule pair per `OLD<=>NEW` line, longest OLD first. */
  method ParseVocabularText(vocabularText: string) returns (rules: seq<Rule>)
    ensures rules == SortByPatternLength(CollectRules(SplitLines(vocabularText)))
    ensures |rules| == 2 * CountSeparatorLines(SplitLines(vocabularText))
    ensures SortedByPatternLength(rules)
    ensures forall k :: WithPatternLength(rules, k) == WithPatternLength(CollectRules(SplitLines(vocabularText)), k)
  {
    var lines := SplitLines(vocabularText);
    var replacements: seq<Rule> := [];
    for i := 0 to |lines|
      invariant replacements == CollectRules(lines[..i])
    {
      CollectRulesStep(lines, i);
      var line := Strip(lines[i]);
      if line == [] {
        continue;
      }
      var parts := SplitFirst(line, Separator);
      if parts.Some? {
        var (oldPart, newPart) := parts.value;
        var (newUpper, newLower) := TwoCases(Strip(newPart));
        var oldStrip := Strip(oldPart);
        ghost var before := replacements;
        replacements := replacements + [Rule(oldStrip, newUpper)];
        replacements := replacements + [Rule(oldStrip, newLower)];
        assert replacements == before + LineRules(lines[i]) by {
          assert replacements == before + [Rule(oldStrip, newUpper), Rule(oldStrip, newLower)];
        }
      }
    }
    assert lines[..|lines|] == lines;
    SortByPatternLengthIsStableSort(replacements);
    rules := SortByPatternLength(replacements);
    assert |multiset(rules)| == |multiset(replacements)|;
  }

  // ---------------------------------------------------------------- apply_replacements

  /** The rules applied one after the other, each to the result of the previous. */
  function ApplyRules(line: string, rules: seq<Rule>, g: Guard): string {
    if rules == [] then line
    else
      var last := rules[|rules| - 1];
      ReplaceAll(ApplyRules(line, rules[..|rules| - 1], g), last.pattern, last.replacement, g)
  }

  function GuardFor(wholeWords: bool): Guard {
    if wholeWords then WordBoundaries else Anywhere
  }

  /** `apply_replacements`: `re.sub` with `\b` around OLD when `wholeWords`,
      plain `str.replace` otherwise, rule after rule in list order. */
  method ApplyReplacements(line: string, rules: seq<Rule>, wholeWords: bool) returns (r: string)
    ensures r == ApplyRules(line, rules, GuardFor(wholeWords))
    ensures rules == [] ==> r == line
  {
    r := line;
    for i := 0 to |rules|
      invariant r == ApplyRules(line, rules[..i], GuardFor(wholeWords))
    {
      assert rules[..i + 1][..i] == rules[..i];
      var rule := rules[i];
      r := ReplaceAll(r, rule.pattern, rule.replacement, GuardFor(wholeWords));
    }
    assert rules[..|rules|] == rules;
  }

  /** Applying a list in two parts is applying the first part, then the second. */
  lemma {:induction false} ApplyRulesAppend(line: string, rs1: seq<Rule>, rs2: seq<Rule>, g: Guard)
    ensures ApplyRules(line, rs1 + rs2, g) == ApplyRules(ApplyRules(line, rs1, g), rs2, g)
    decreases |rs2|
  {
    if rs2 == [] {
      assert rs1 + rs2 == rs1;
    } else {
      ApplyRulesAppend(line, rs1, rs2[..|rs2| - 1], g);
      assert (rs1 + rs2)[..|rs1 + rs2| - 1] == rs1 + rs2[..|rs2| - 1];
    }
  }

  /** A line in which no rule's pattern matches is left exactly as it is. */
  lemma {:induction false} NoRuleMatchesLeavesLine(line: string, rules: seq<Rule>, g: Guard)
    requires forall r, j :: r in rules ==> !MatchAt(line, r.pattern, g, j)
    ensures ApplyRules(line, rules, g) == line
    decreases |rules|
  {
    if rules != [] {
      var last := rules[|rules| - 1];
      NoRuleMatchesLeavesLine(line, rules[..|rules| - 1], g);
      assert last in rules;
      NoMatchLeavesUnchanged(line, last.pattern, last.replacement, g);
    }
  }

  // ---------------------------------------------------------------- modify_subtitles_with_vocabular_text_only_optimized

  /** Blank, all-digit (an index) or holding "-->" (a timecode), once stripped. */
  predicate IsStructural(line: string) {
    var t := Strip(line);
    t == [] || IsDigits(t) || Contains(t, Arrow)
  }

  /** What the optimized rewriter makes of one line. */
  function RewrittenLine(line: string, rules: seq<Rule>): string {
    if IsStructural(line) then line else ApplyRules(line, rules, NoWordOrHyphenAround)
  }

  function RewriteLines(lines: seq<string>, rules: seq<Rule>): seq<string> {
    seq(|lines|, i requires 0 <= i < |lines| => RewrittenLine(lines[i], rules))
  }

  /** The before/after record the rewriter logs for a changed line. */
  datatype LogEntry = LogEntry(original: string, modified: string)

  /** The inner loop over the compiled patterns: the rewritten line, and the
      rules whose substitution changed it at its turn. */
  method RewriteContentLine(line: string, rules: seq<Rule>) returns (newLine: string, changes: seq<Rule>)
    ensures newLine == ApplyRules(line, rules, NoWordOrHyphenAround)
    ensures newLine != line ==> changes != []
    ensures |changes| <= |rules|
    ensures forall c :: c in changes ==> c in rules
  {
    newLine := line;
    changes := [];
    for i := 0 to |rules|
      invariant newLine == ApplyRules(line, rules[..i], NoWordOrHyphenAround)
      invariant newLine != line ==> changes != []
      invariant |changes| <= i
      invariant forall c :: c in changes ==> c in rules[..i]
    {
      assert rules[..i + 1][..i] == rules[..i];
      var rule := rules[i];
      var newText := ReplaceAll(newLine, rule.pattern, rule.replacement, NoWordOrHyphenAround);
      if newText != newLine {
        changes := changes + [rule];
        newLine := newText;
      }
    }
    assert rules[..|rules|] == rules;
  }

  /** One turn of the rewriter's loop: a structural line is kept, any other
      line goes through every rule, and a line the rules changed is logged
      before and after, stripped. */
  method RewriteLine(line: string, rules: seq<Rule>) returns (newLine: string, logged: seq<LogEntry>)
    ensures newLine == RewrittenLine(line, rules)
    ensures newLine != line ==> logged == [LogEntry(Strip(line), Strip(newLine))]
    ensures logged == [] || logged == [LogEntry(Strip(line), Strip(newLine))]
  {
    var lineStripped := Strip(line);
    if lineStripped == [] || IsDigits(lineStripped) || Contains(lineStripped, Arrow) {
      return line, [];
    }
    var changes;
    newLine, changes := RewriteContentLine(line, rules);
    logged := if changes != [] then [LogEntry(Strip(line), Strip(newLine))] else [];
  }

  /** Without rules no line changes. */
  lemma NoRulesRewriteNothing(lines: seq<string>)
    ensures RewriteLines(lines, []) == lines
  {
  }

  /** `modify_subtitles_with_vocabular_text_only_optimized`: with no rules the
      text comes back untouched; otherwise every line (as `splitlines` gives
      them) is kept if structural and rewritten if not, and the lines are
      joined by '\n'. Every line the rules changed is logged. */
  method ModifySubtitlesOptimized(subtitles: string, rules: seq<Rule>) returns (result: string, log: seq<LogEntry>)
    ensures rules == [] ==> result == subtitles && log == []
    ensures rules != [] ==> result == Join(RewriteLines(SplitLines(subtitles), rules), "\n")
    ensures forall i :: 0 <= i < |SplitLines(subtitles)| && RewriteLines(SplitLines(subtitles), rules)[i] != SplitLines(subtitles)[i]
              ==> LogEntry(Strip(SplitLines(subtitles)[i]), Strip(RewriteLines(SplitLines(subtitles), rules)[i])) in log
  {
    var lines := SplitLines(subtitles);
    if rules == [] {
      NoRulesRewriteNothing(lines);
      return subtitles, [];
    }
    var resultLines: seq<string> := [];
    log := [];
    for i := 0 to |lines|
      invariant resultLines == RewriteLines(lines[..i], rules)
      invariant LogsChanges(lines, resultLines, log)
    {
      var newLine, logged := RewriteLine(lines[i], rules);
      LogsChangesStep(lines, resultLines, log, newLine, logged);
      RewriteLinesStep(lines, i, rules);
      log := log + logged;
      resultLines := resultLines + [newLine];
    }
    assert lines[..|lines|] == lines;
    result := Join(resultLines, "\n");
  }

  lemma RewriteLinesStep(lines: seq<string>, i: nat, rules: seq<Rule>)
    requires i < |lines|
    ensures RewriteLines(lines[..i + 1], rules) == RewriteLines(lines[..i], rules) + [RewrittenLine(lines[i], rules)]
  {
  }

  /** Every line of `out` that differs from the line of `lines` it came from
      has its log entry. */
  predicate LogsChanges(lines: seq<string>, out: seq<string>, log: seq<LogEntry>)
    requires |out| <= |lines|
  {
    forall k :: 0 <= k < |out| && out[k] != lines[k] ==> LogEntry(Strip(lines[k]), Strip(out[k])) in log
  }

  lemma LogsChangesStep(lines: seq<string>, out: seq<string>, log: seq<LogEntry>, newLine: string, logged: seq<LogEntry>)
    requires |out| < |lines| && LogsChanges(lines, out, log)
    requires newLine != lines[|out|] ==> logged == [LogEntry(Strip(lines[|out|]), Strip(newLine))]
    ensures LogsChanges(lines, out + [newLine], log + logged)
  {
    var out', log' := out + [newLine], log + logged;
    forall k | 0 <= k < |out'| && out'[k] != lines[k]
      ensures LogEntry(Strip(lines[k]), Strip(out'[k])) in log'
    {
      if k < |out| {
        assert out'[k] == out[k];
        assert LogEntry(Strip(lines[k]), Strip(out[k])) in log;
      } else {
        assert log'[|log|] == logged[0];
      }
    }
  }
}
