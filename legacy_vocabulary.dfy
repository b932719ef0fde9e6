/** The older copy of the vocabulary engine at the top of the repository
    (vocabulary.py). It shares `two_cases`, the rule building, the sort and
    `apply_replacements` with the package version, so those are reused from
    the Vocabulary module; what differs is that it reads files line by line
    (each line keeping its '\n'), and that its subtitle rewriter always uses
    `\b` boundaries, passes blank lines through the rules and writes the
    lines back without a separator. */
module LegacyVocabulary {
  import opened Text
  import opened Replace
  import opened Vocabulary

  // ---------------------------------------------------------------- parse_vocabular_file

  /** The rules read from a vocabulary file, sorted longest OLD first. */
  function FileRules(contents: string): seq<Rule> {
    SortByPatternLength(CollectRules(FileLines(contents)))
  }

  /** The per-line loop and the sort of `parse_vocabular_file`, over the
      file's contents. */
  method ParseVocabularFile(contents: string) returns (rules: seq<Rule>)
    ensures rules == FileRules(contents)
    ensures |rules| == 2 * CountSeparatorLines(FileLines(contents))
    ensures SortedByPatternLength(rules)
    ensures forall k :: WithPatternLength(rules, k) == WithPatternLength(CollectRules(FileLines(contents)), k)
  {
    var lines := FileLines(contents);
    var replacements: seq<Rule> := [];
    for i := 0 to |lines|
      invariant replacements == CollectRules(lines[..i])
    {
      CollectRulesStep(lines, i);
      var line := Strip(lines[i]);
      if line == [] {
        continue;
      }
      var parts := SplitFirst(line, Separator);
      if parts.Some? {
        var (oldPart, newPart) := parts.value;
        var (newUpper, newLower) := TwoCases(Strip(newPart));
        var oldStrip := Strip(oldPart);
        ghost var before := replacements;
        replacements := replacements + [Rule(oldStrip, newUpper)];
        replacements := replacements + [Rule(oldStrip, newLower)];
        assert replacements == before + LineRules(lines[i]) by {
          assert replacements == before + [Rule(oldStrip, newUpper), Rule(oldStrip, newLower)];
        }
      }
    }
    assert lines[..|lines|] == lines;
    SortByPatternLengthIsStableSort(replacements);
    rules := SortByPatternLength(replacements);
    assert |multiset(rules)| == |multiset(replacements)|;
  }

  /** Reading the file line by line, terminators kept, gives the same rules
      as `parse_vocabular_text` on the whole text: `strip` removes the '\n'. */
  lemma FileRulesAgreeWithText(contents: string)
    ensures FileRules(contents) == SortByPatternLength(CollectRules(SplitLines(contents)))
  {
    var xs := FileLines(contents);
    var ys := SplitLines(contents);
    forall k | 0 <= k < |xs| ensures Strip(xs[k]) == Strip(ys[k]) {
      if xs[k] != ys[k] {
        StripAppendSpace(ys[k], '\n');
      }
    }
    CollectRulesByStrip(xs, ys);
  }

  // ---------------------------------------------------------------- modify_subtitles_with_vocabular_text_only

  /** An index line (all digits) or a timecode line (holds "-->"), once
      stripped. Unlike the optimized rewriter, a blank line is not one. */
  predicate IsIndexOrTimecode(line: string) {
    var t := Strip(line);
    IsDigits(t) || Contains(t, Arrow)
  }

  /** What the legacy rewriter writes for one line of the subtitle file. */
  function LegacyLine(line: string, rules: seq<Rule>): string {
    if IsIndexOrTimecode(line) then line else ApplyRules(line, rules, WordBoundaries)
  }

  function LegacyLines(lines: seq<string>, rules: seq<Rule>): (r: seq<string>)
    ensures |r| == |lines|
  {
    seq(|lines|, i requires 0 <= i < |lines| => LegacyLine(lines[i], rules))
  }

  /** The output after one more line is the output so far and that line's. */
  lemma LegacyLinesStep(lines: seq<string>, i: nat, rules: seq<Rule>)
    requires i < |lines|
    ensures Concat(LegacyLines(lines[..i + 1], rules)) == Concat(LegacyLines(lines[..i], rules)) + LegacyLine(lines[i], rules)
  {
    var next := LegacyLines(lines[..i + 1], rules);
    assert next[..i] == LegacyLines(lines[..i], rules);
    assert next[i] == LegacyLine(lines[i], rules);
  }

  /** `modify_subtitles_with_vocabular_text_only`: the vocabulary file is
      parsed, then every line of the subtitle file is written out, index and
      timecode lines as they are and every other line through
      `apply_replacements` with whole-word (`\b`) matching. The output file is
      the lines written one after the other. */
  method ModifySubtitles(subtitles: string, vocabulary: string) returns (output: string)
    ensures output == Concat(LegacyLines(FileLines(subtitles), FileRules(vocabulary)))
  {
    var replacements := ParseVocabularFile(vocabulary);
    var lines := FileLines(subtitles);
    output := [];
    for i := 0 to |lines|
      invariant output == Concat(LegacyLines(lines[..i], replacements))
    {
      LegacyLinesStep(lines, i, replacements);
      var line := lines[i];
      var lineStrip := Strip(line);
      if IsDigits(lineStrip) || Contains(lineStrip, Arrow) {
        output := output + line;
        continue;
      }
      var newLine := ApplyReplacements(line, replacements, true);
      assert newLine == LegacyLine(line, replacements);
      output := output + newLine;
    }
    assert lines[..|lines|] == lines;
  }

  /** A vocabulary without any `<=>` line leaves the subtitle file exactly as
      it was. */
  lemma EmptyVocabularyKeepsSubtitles(subtitles: string, vocabulary: string)
    requires CountSeparatorLines(FileLines(vocabulary)) == 0
    ensures Concat(LegacyLines(FileLines(subtitles), FileRules(vocabulary))) == subtitles
  {
    var lines := FileLines(subtitles);
    assert FileRules(vocabulary) == [];
    assert LegacyLines(lines, []) == lines;
    FileLinesConcat(subtitles);
  }
}
