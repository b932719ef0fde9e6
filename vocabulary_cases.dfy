/** Worked instances of the two boundary rules and of the rule list: the
    sentence of the package's vocabulary test, the `Kyiv` words the boundary
    rules tell apart, and the longest-first order of the rule list. */
module VocabularyCases {
  import opened Wrappers
  import opened Text
  import opened Replace
  import opened Vocabulary

  const Middle: string := " is the capital" + " of Ukraine. "
  const Tail: string := " is a city."
  /** The text of the package's vocabulary test, and what it must become. */
  const Sentence: string := "Kyiv" + Middle + "Bendery" + Tail
  const Expected: string := "Kiev" + Middle + "Bendeerryy" + Tail
  const TestRules: seq<Rule> := [Rule("Kyiv", "Kiev"), Rule("Bendery", "Bendeerryy")]

  lemma TwoCasesOfWord(c: char, rest: string)
    ensures TwoCases([c] + rest) == ([ToUpper(c)] + rest, [ToLower(c)] + rest)
  {
    assert ([c] + rest)[1..] == rest;
  }

  lemma ApplyTwoRules(line: string, r1: Rule, r2: Rule, g: Guard)
    ensures ApplyRules(line, [r1, r2], g)
         == ReplaceAll(ReplaceAll(line, r1.pattern, r1.replacement, g), r2.pattern, r2.replacement, g)
  {
    assert [r1][..0] == [];
    assert ApplyRules(line, [r1], g) == ReplaceAll(line, r1.pattern, r1.replacement, g);
    assert [r1, r2][..1] == [r1];
  }

  /** The first rule of the test: `Kyiv` opens the sentence and is followed
      by a space. */
  lemma KyivRuleOnSentence(g: Guard)
    requires g != Anywhere
    ensures ReplaceAll(Sentence, "Kyiv", "Kiev", g) == "Kiev" + Middle + "Bendery" + Tail
  {
    var rest := Middle + "Bendery" + Tail;
    KyivOpensSentence(rest, g);
    ReplaceSingleOccurrence([], "Kyiv", "Kiev", rest, g);
    assert [] + "Kiev" + rest == "Kiev" + Middle + "Bendery" + Tail;
  }

  lemma KyivOpensSentence(rest: string, g: Guard)
    requires rest == Middle + "Bendery" + Tail && g != Anywhere
    ensures [] + "Kyiv" + rest == Sentence
    ensures 'K' !in rest && Admits(g, [] + "Kyiv" + rest, 0, 4)
  {
    assert [] + "Kyiv" + rest == Sentence;
    assert 'K' !in Middle && 'K' !in Tail;
    assert Sentence[4] == ' ';
  }

  /** The second rule: `Bendery` stands between a space and a space. */
  lemma BenderyRuleOnSentence(g: Guard)
    requires g != Anywhere
    ensures ReplaceAll("Kiev" + Middle + "Bendery" + Tail, "Bendery", "Bendeerryy", g) == Expected
  {
    ReplaceSingleOccurrence("Kiev" + Middle, "Bendery", "Bendeerryy", Tail, g);
  }

  /** Both rules of the test, one after the other, under either boundary rule. */
  lemma TestRulesRewriteSentence(g: Guard)
    requires g != Anywhere
    ensures ApplyRules(Sentence, TestRules, g) == Expected
  {
    KyivRuleOnSentence(g);
    BenderyRuleOnSentence(g);
    ApplyTwoRules(Sentence, TestRules[0], TestRules[1], g);
  }

  /** `apply_replacements(test_text, replacements)` with its default
      whole-word matching gives the expected sentence. */
  lemma ApplyReplacementsOnTestSentence()
    ensures ApplyRules(Sentence, TestRules, GuardFor(true)) == Expected
  {
    TestRulesRewriteSentence(WordBoundaries);
  }

  /** The optimized rewriter gives the same sentence: it is one text line. */
  lemma OptimizedRewriteOnTestSentence()
    ensures Join(RewriteLines(SplitLines(Sentence), TestRules), "\n") == Expected
  {
    SentenceIsPlainLine();
    OneLine(Sentence);
    AbsentFirstChar(Sentence, Arrow);
    TestRulesRewriteSentence(NoWordOrHyphenAround);
  }

  lemma SentenceIsPlainLine()
    ensures '\n' !in Sentence && '-' !in Sentence
    ensures Strip(Sentence) == Sentence && !IsDigits(Sentence)
  {
    assert '\n' !in Middle && '\n' !in Tail;
    assert '-' !in Middle && '-' !in Tail;
    assert !IsDigit(Sentence[0]);
    assert Strip(Sentence) == Sentence;
  }

  /** `Kyiv.` is rewritten by the optimized rule: a full stop is neither a
      word character nor a hyphen. */
  lemma KyivBeforeFullStop()
    ensures ReplaceAll("Kyiv.", "Kyiv", "Kiev", NoWordOrHyphenAround) == "Kiev."
  {
    ReplaceSingleOccurrence([], "Kyiv", "Kiev", ".", NoWordOrHyphenAround);
    assert [] + "Kyiv" + "." == "Kyiv.";
  }

  /** `Kyivan` is left alone by both rules: a word character follows. */
  lemma KyivInsideAWord(g: Guard)
    requires g != Anywhere
    ensures ReplaceAll("Kyivan", "Kyiv", "Kiev", g) == "Kyivan"
  {
    var s := "Kyivan";
    assert !Admits(g, s, 0, 4);
    SkipFrom(s, "Kyiv", "Kiev", g, 1, |s|);
  }

  /** `Kyiv-based`: the optimized rule treats the hyphen as part of the word
      and leaves it alone. */
  lemma KyivBeforeHyphenKept()
    ensures ReplaceAll("Kyiv-based", "Kyiv", "Kiev", NoWordOrHyphenAround) == "Kyiv-based"
  {
    var s := "Kyiv-based";
    assert !Admits(NoWordOrHyphenAround, s, 0, 4);
    SkipFrom(s, "Kyiv", "Kiev", NoWordOrHyphenAround, 1, |s|);
  }

  /** `Kyiv-based`: `\b` sees a boundary before the hyphen, so the older
      whole-word rule rewrites it. */
  lemma KyivBeforeHyphenRewritten()
    ensures ReplaceAll("Kyiv-based", "Kyiv", "Kiev", WordBoundaries) == "Kiev-based"
  {
    assert [] + "Kyiv" + "-based" == "Kyiv-based";
    ReplaceSingleOccurrence([], "Kyiv", "Kiev", "-based", WordBoundaries);
  }

  /** Only the first `<=>` splits a line: the rest, separators included, is
      the replacement. */
  lemma SplitAtFirstSeparator()
    ensures LineRules("a<=>b<=>c") == [Rule("a", "B<=>c"), Rule("a", "b<=>c")]
  {
    SplitLineIsStripped();
    AbsentFirstChar("a", Separator);
    LineRulesOfSplit("a<=>b<=>c", "a", "b<=>c");
    SplitLineSides();
  }

  lemma SplitLineIsStripped()
    ensures Strip("a<=>b<=>c") == "a" + Separator + "b<=>c"
  {
    var line := "a<=>b<=>c";
    assert "a" + Separator + "b<=>c" == line;
    assert IsStripped(line);
    StrippedIsFixed(line);
  }

  lemma SplitLineSides()
    ensures Strip("a") == "a" && Strip("b<=>c") == "b<=>c"
    ensures TwoCases("b<=>c") == ("B<=>c", "b<=>c")
  {
    StrippedIsFixed("a");
    StrippedIsFixed("b<=>c");
    TwoCasesOfWord('b', "<=>c");
    assert ['b'] + "<=>c" == "b<=>c";
    assert ['B'] + "<=>c" == "B<=>c";
  }

  lemma StripPaddedLine()
    ensures Strip(" x<y <=> z") == "x<y <=> z"
  {
    var line := " x<y <=> z";
    var t := "x<y <=> z";
    assert line[1..] == t && IsSpace(line[0]) && !IsSpace(t[0]);
    assert LStrip(line) == t;
    assert !IsSpace(t[|t| - 1]);
  }

  lemma StripPaddedOld()
    ensures Strip("x<y ") == "x<y"
  {
    var a := "x<y ";
    assert !IsSpace(a[0]);
    assert a[..3] == "x<y" && IsSpace(a[3]) && !IsSpace(a[2]);
    assert RStrip(a) == RStrip("x<y");
  }

  lemma StripPaddedNew()
    ensures Strip(" z") == "z"
  {
    var b := " z";
    assert b[1..] == "z" && IsSpace(b[0]) && !IsSpace('z');
    assert LStrip(b) == LStrip("z");
  }

  lemma AngleIsNotSeparator()
    ensures !Contains("x<y ", Separator)
  {
    var a := "x<y ";
    forall j: nat
      ensures !OccursAt(a, Separator, j)
    {
      if j == 0 {
        assert a[0..3][0] == 'x';
      } else if j == 1 {
        assert a[1..4][1] == 'y';
      }
    }
  }

  /** A line with whitespace around it and around its separator, and a '<'
      in OLD, still splits at its first `<=>`, and both sides are stripped. */
  lemma PaddedLineWithAngle()
    ensures LineRules(" x<y <=> z") == [Rule("x<y", "Z"), Rule("x<y", "z")]
  {
    StripPaddedLine();
    assert "x<y " + Separator + " z" == "x<y <=> z";
    AngleIsNotSeparator();
    LineRulesOfSplit(" x<y <=> z", "x<y ", " z");
    StripPaddedOld();
    StripPaddedNew();
    LowerZCases();
  }

  lemma LowerZCases()
    ensures TwoCases("z") == ("Z", "z")
  {
    TwoCasesOfWord('z', []);
    assert ['z'] + [] == "z";
    assert ToUpper('z') == 'Z' && ToLower('z') == 'z';
    assert [ToUpper('z')] + [] == "Z" && [ToLower('z')] + [] == "z";
  }

  lemma KiyvLine()
    ensures LineRules("Kiyv<=>Kiev") == [Rule("Kiyv", "Kiev"), Rule("Kiyv", "kiev")]
  {
    KiyvCases();
    LineRulesOfStrippedSides("Kiyv", 'K', "iev");
  }

  lemma KiyvCases()
    ensures "Kiyv" + Separator + (['K'] + "iev") == "Kiyv<=>Kiev"
    ensures [ToUpper('K')] + "iev" == "Kiev"
    ensures [ToLower('K')] + "iev" == "kiev"
  {
    assert ToLower('K') == 'k';
  }

  lemma EkaterinaLine()
    ensures LineRules("Ekaterina II" + "<=>" + "Ekaterina druga")
         == [Rule("Ekaterina II", "Ekaterina druga"), Rule("Ekaterina II", "ekaterina druga")]
  {
    EkaterinaCases();
    LineRulesOfStrippedSides("Ekaterina II", 'E', "katerina druga");
  }

  lemma EkaterinaCases()
    ensures ['E'] + "katerina druga" == "Ekaterina druga"
    ensures [ToUpper('E')] + "katerina druga" == "Ekaterina druga"
    ensures [ToLower('E')] + "katerina druga" == "ekaterina druga"
  {
    assert ToLower('E') == 'e';
  }

  lemma DocstringRules()
    ensures CollectRules(["Kiyv<=>Kiev", "Ekaterina II" + "<=>" + "Ekaterina druga"])
         == [Rule("Kiyv", "Kiev"), Rule("Kiyv", "kiev"),
             Rule("Ekaterina II", "Ekaterina druga"), Rule("Ekaterina II", "ekaterina druga")]
  {
    var lines := ["Kiyv<=>Kiev", "Ekaterina II" + "<=>" + "Ekaterina druga"];
    KiyvLine();
    EkaterinaLine();
    assert lines[..1][..0] == [];
    assert CollectRules(lines[..1]) == LineRules(lines[0]);
  }

  /** Two pairs of rules, the second with the longer pattern, come out of
      the sort second pair first, each pair in its own order. */
  lemma SortTwoPairs(k1: Rule, k2: Rule, e1: Rule, e2: Rule)
    requires |k1.pattern| == |k2.pattern| < |e1.pattern| == |e2.pattern|
    ensures SortByPatternLength([k1, k2, e1, e2]) == [e1, e2, k1, k2]
  {
    var rs := [k1, k2, e1, e2];
    assert SortByPatternLength(rs[..2]) == [k1, k2] by {
      assert rs[..2] == [k1, k2];
      assert [k1, k2][..1] == [k1];
      assert [k1][..0] == [];
      assert SortByPatternLength([k1]) == [k1];
      assert [k1][1..] == [];
      assert Insert(k2, [k1]) == [k1, k2];
    }
    assert SortByPatternLength(rs[..3]) == [e1, k1, k2] by {
      assert rs[..3][..2] == rs[..2];
    }
    assert Insert(e2, [e1, k1, k2]) == [e1, e2, k1, k2] by {
      assert [e1, k1, k2][1..] == [k1, k2];
    }
    assert rs[..3] == rs[..|rs| - 1];
  }

  /** The docstring's vocabulary: each line gives its two rules, and the
      longer OLD sorts first while the upper variant stays before the lower. */
  lemma LongestPatternFirst()
    ensures SortByPatternLength(CollectRules(["Kiyv<=>Kiev", "Ekaterina II" + "<=>" + "Ekaterina druga"]))
         == [Rule("Ekaterina II", "Ekaterina druga"), Rule("Ekaterina II", "ekaterina druga"),
             Rule("Kiyv", "Kiev"), Rule("Kiyv", "kiev")]
  {
    DocstringRules();
    SortTwoPairs(Rule("Kiyv", "Kiev"), Rule("Kiyv", "kiev"),
                 Rule("Ekaterina II", "Ekaterina druga"), Rule("Ekaterina II", "ekaterina druga"));
  }

  // ------------------------------------------------------------ a second pass

  /** The rules of the vocabulary lines `q-<=>!` and `.abc<=>X`, sorted. */
  const TwoPassRules: seq<Rule> := [Rule(".abc", "X"), Rule(".abc", "x"), Rule("q-", "!"), Rule("q-", "!")]

  lemma QHyphenLine()
    ensures LineRules("q-<=>!") == [Rule("q-", "!"), Rule("q-", "!")]
  {
    LineRulesOfStrippedSides("q-", '!', []);
    assert "q-" + Separator + (['!'] + []) == "q-<=>!";
    assert [ToUpper('!')] + [] == "!" && [ToLower('!')] + [] == "!";
  }

  lemma DotAbcLine()
    ensures LineRules(".abc<=>X") == [Rule(".abc", "X"), Rule(".abc", "x")]
  {
    LineRulesOfStrippedSides(".abc", 'X', []);
    assert ".abc" + Separator + (['X'] + []) == ".abc<=>X";
    assert [ToUpper('X')] + [] == "X" && [ToLower('X')] + [] == "x";
  }

  lemma TwoPassCollected()
    ensures CollectRules(["q-<=>!", ".abc<=>X"])
         == [Rule("q-", "!"), Rule("q-", "!"), Rule(".abc", "X"), Rule(".abc", "x")]
  {
    var lines := ["q-<=>!", ".abc<=>X"];
    QHyphenLine();
    DotAbcLine();
    assert lines[..1][..0] == [];
    assert CollectRules(lines[..1]) == LineRules(lines[0]);
  }

  /** `q-<=>!` then `.abc<=>X`: the longer OLD sorts first. */
  lemma TwoPassVocabulary()
    ensures SortByPatternLength(CollectRules(["q-<=>!", ".abc<=>X"])) == TwoPassRules
  {
    TwoPassCollected();
    SortTwoPairs(Rule("q-", "!"), Rule("q-", "!"), Rule(".abc", "X"), Rule(".abc", "x"));
  }

  /** A pattern whose first character is not in the text changes nothing. */
  lemma FirstCharAbsent(s: string, pat: string, rep: string, g: Guard)
    requires pat != [] && pat[0] !in s
    ensures ReplaceAll(s, pat, rep, g) == s
  {
    SkipFrom(s, pat, rep, g, 0, |s|);
    assert s[0..|s|] == s;
  }

  lemma ApplyFourRules(line: string, rs: seq<Rule>, g: Guard)
    requires |rs| == 4
    ensures ApplyRules(line, rs, g)
         == ReplaceAll(ReplaceAll(ReplaceAll(ReplaceAll(line, rs[0].pattern, rs[0].replacement, g),
                                             rs[1].pattern, rs[1].replacement, g),
                                  rs[2].pattern, rs[2].replacement, g),
                       rs[3].pattern, rs[3].replacement, g)
  {
    assert rs == [rs[0], rs[1]] + [rs[2], rs[3]];
    ApplyRulesAppend(line, [rs[0], rs[1]], [rs[2], rs[3]], g);
    ApplyTwoRules(line, rs[0], rs[1], g);
    ApplyTwoRules(ApplyRules(line, [rs[0], rs[1]], g), rs[2], rs[3], g);
  }

  /** In `q-.abc` the hyphen before `.abc` keeps the optimized rule off it. */
  lemma HyphenShieldsDotAbc(rep: string)
    ensures ReplaceAll("q-.abc", ".abc", rep, NoWordOrHyphenAround) == "q-.abc"
  {
    var s := "q-.abc";
    forall j: nat
      ensures !MatchAt(s, ".abc", NoWordOrHyphenAround, j)
    {
      if j == 2 {
        assert WordOrHyphenAt(s, 1);
      } else if j + 4 <= |s| {
        assert s[j..j + 4][0] == s[j] != '.';
      }
    }
    NoMatchLeavesUnchanged(s, ".abc", rep, NoWordOrHyphenAround);
  }

  lemma NoArrowInQLine()
    ensures !Contains("q-.abc", Arrow)
  {
    var s := "q-.abc";
    forall j: nat
      ensures !OccursAt(s, Arrow, j)
    {
      if j + 3 <= |s| {
        if j == 1 {
          assert s[j..j + 3][1] == '.';
        } else {
          assert s[j..j + 3][0] == s[j] != '-';
        }
      }
    }
  }

  lemma QLineIsContent()
    ensures !IsStructural("q-.abc")
  {
    var s := "q-.abc";
    assert IsStripped(s);
    StrippedIsFixed(s);
    assert !IsDigit(s[0]);
    NoArrowInQLine();
  }

  lemma BangLineIsContent()
    ensures !IsStructural("!.abc")
  {
    var s := "!.abc";
    assert IsStripped(s);
    StrippedIsFixed(s);
    assert !IsDigit(s[0]);
    AbsentFirstChar(s, Arrow);
  }

  lemma QHyphenReplaced()
    ensures ReplaceAll("q-.abc", "q-", "!", NoWordOrHyphenAround) == "!.abc"
  {
    var s := "q-.abc";
    assert [] + "q-" + ".abc" == s;
    assert !WordOrHyphenAt(s, 2);
    ReplaceSingleOccurrence([], "q-", "!", ".abc", NoWordOrHyphenAround);
    assert [] + "!" + ".abc" == "!.abc";
  }

  lemma DotAbcReplaced()
    ensures ReplaceAll("!.abc", ".abc", "X", NoWordOrHyphenAround) == "!X"
  {
    var s := "!.abc";
    assert "!" + ".abc" + [] == s;
    assert !WordOrHyphenAt(s, 0);
    ReplaceSingleOccurrence("!", ".abc", "X", [], NoWordOrHyphenAround);
    assert "!" + "X" + [] == "!X";
  }

  /** First pass: only `q-` is rewritten. */
  lemma FirstPass()
    ensures RewrittenLine("q-.abc", TwoPassRules) == "!.abc"
  {
    QLineIsContent();
    ApplyFourRules("q-.abc", TwoPassRules, NoWordOrHyphenAround);
    HyphenShieldsDotAbc("X");
    HyphenShieldsDotAbc("x");
    QHyphenReplaced();
    FirstCharAbsent("!.abc", "q-", "!", NoWordOrHyphenAround);
  }

  /** Second pass: `.abc` is now preceded by `!` and is rewritten. */
  lemma SecondPass()
    ensures RewrittenLine("!.abc", TwoPassRules) == "!X"
  {
    BangLineIsContent();
    ApplyFourRules("!.abc", TwoPassRules, NoWordOrHyphenAround);
    DotAbcReplaced();
    FirstCharAbsent("!X", ".abc", "x", NoWordOrHyphenAround);
    FirstCharAbsent("!X", "q-", "!", NoWordOrHyphenAround);
  }

  /** The optimized rewriter is not idempotent: with the rules of `q-<=>!`
      and `.abc<=>X`, rewriting `q-.abc` gives `!.abc`, and rewriting that
      again gives `!X`, because the first pass removed the hyphen that kept
      `.abc` from matching. */
  lemma SecondRewriteChangesLine()
    ensures SortByPatternLength(CollectRules(["q-<=>!", ".abc<=>X"])) == TwoPassRules
    ensures var once := RewrittenLine("q-.abc", TwoPassRules);
            once == "!.abc" && RewrittenLine(once, TwoPassRules) == "!X" && "!X" != once
  {
    TwoPassVocabulary();
    FirstPass();
    SecondPass();
  }
}
