/** Replace-all of a literal pattern, the engine behind `str.replace` and
    behind `re.sub` on an escaped literal wrapped in boundary assertions.

    Scanning goes left to right; a match resumes the scan after the matched
    text, so matches never overlap. An empty pattern matches at every position
    the guard admits, the end of the text included, and after such a match one
    character is copied before the next try, as CPython does. */
module Replace {
  import opened Text

  /** What a match needs around it. */
  datatype Guard =
    | Anywhere              // str.replace(old, new)
    | WordBoundaries        // re.sub(r'\bOLD\b', new, line)
    | NoWordOrHyphenAround  // re.sub(r'(?<![\w-])(OLD)(?![\w-])', new, line)

  predicate WordAt(s: string, i: int) {
    0 <= i < |s| && IsWordChar(s[i])
  }

  /** `\b` at position i: a word character on exactly one side of it. */
  predicate WordBoundaryAt(s: string, i: int) {
    WordAt(s, i - 1) != WordAt(s, i)
  }

  /** The class `[\w-]` at position i. */
  predicate WordOrHyphenAt(s: string, i: int) {
    0 <= i < |s| && (IsWordChar(s[i]) || s[i] == '-')
  }

  /** Whether the guard accepts a match spanning s[i..j]. Both look-arounds
      read the whole text, not just the part still to be scanned. */
  predicate Admits(g: Guard, s: string, i: nat, j: nat) {
    match g
    case Anywhere => true
    case WordBoundaries => WordBoundaryAt(s, i) && WordBoundaryAt(s, j)
    case NoWordOrHyphenAround => !WordOrHyphenAt(s, i - 1) && !WordOrHyphenAt(s, j)
  }

  predicate MatchAt(s: string, pat: string, g: Guard, i: nat) {
    OccursAt(s, pat, i) && Admits(g, s, i, i + |pat|)
  }

  /** The output produced for s[i..] once the scan has reached position i. */
  function ReplaceFrom(s: string, pat: string, rep: string, g: Guard, i: nat): string
    requires i <= |s|
    decreases |s| - i
  {
    if MatchAt(s, pat, g, i) then
      if |pat| > 0 then rep + ReplaceFrom(s, pat, rep, g, i + |pat|)
      else if i < |s| then rep + [s[i]] + ReplaceFrom(s, pat, rep, g, i + 1)
      else rep
    else if i < |s| then [s[i]] + ReplaceFrom(s, pat, rep, g, i + 1)
    else []
  }

  function ReplaceAll(s: string, pat: string, rep: string, g: Guard): string {
    ReplaceFrom(s, pat, rep, g, 0)
  }

  lemma {:induction false} NoMatchFrom(s: string, pat: string, rep: string, g: Guard, i: nat)
    requires i <= |s|
    requires forall j :: i <= j ==> !MatchAt(s, pat, g, j)
    ensures ReplaceFrom(s, pat, rep, g, i) == s[i..]
    decreases |s| - i
  {
    if i < |s| {
      NoMatchFrom(s, pat, rep, g, i + 1);
    }
  }

  /** A pattern that matches nowhere leaves the text unchanged. */
  lemma NoMatchLeavesUnchanged(s: string, pat: string, rep: string, g: Guard)
    requires forall j :: !MatchAt(s, pat, g, j)
    ensures ReplaceAll(s, pat, rep, g) == s
  {
    NoMatchFrom(s, pat, rep, g, 0);
  }

  lemma {:induction false} SelfReplaceFrom(s: string, pat: string, g: Guard, i: nat)
    requires i <= |s|
    ensures ReplaceFrom(s, pat, pat, g, i) == s[i..]
    decreases |s| - i
  {
    if MatchAt(s, pat, g, i) {
      if |pat| > 0 {
        SelfReplaceFrom(s, pat, g, i + |pat|);
        assert s[i..] == s[i..i + |pat|] + s[i + |pat|..];
      } else if i < |s| {
        SelfReplaceFrom(s, pat, g, i + 1);
      }
    } else if i < |s| {
      SelfReplaceFrom(s, pat, g, i + 1);
    }
  }

  /** Replacing a pattern by itself changes nothing, whatever the guard. */
  lemma SelfReplaceIsIdentity(s: string, pat: string, g: Guard)
    ensures ReplaceAll(s, pat, pat, g) == s
  {
    SelfReplaceFrom(s, pat, g, 0);
  }

  lemma {:induction false} CharAbsentFrom(s: string, pat: string, rep: string, g: Guard, i: nat, c: char)
    requires i <= |s| && c !in s && c !in rep
    ensures c !in ReplaceFrom(s, pat, rep, g, i)
    decreases |s| - i
  {
    if MatchAt(s, pat, g, i) {
      if |pat| > 0 {
        CharAbsentFrom(s, pat, rep, g, i + |pat|, c);
      } else if i < |s| {
        CharAbsentFrom(s, pat, rep, g, i + 1, c);
      }
    } else if i < |s| {
      CharAbsentFrom(s, pat, rep, g, i + 1, c);
    }
  }

  /** Every character of the output comes from the text or from the
      replacement, so a character absent from both stays absent. */
  lemma CharAbsentAfterReplace(s: string, pat: string, rep: string, g: Guard, c: char)
    requires c !in s && c !in rep
    ensures c !in ReplaceAll(s, pat, rep, g)
  {
    CharAbsentFrom(s, pat, rep, g, 0, c);
  }

  lemma {:induction false} ReplaceCharFrom(s: string, c: char, rep: string, i: nat)
    requires i <= |s| && c !in rep
    ensures c !in ReplaceFrom(s, [c], rep, Anywhere, i)
    decreases |s| - i
  {
    if i < |s| {
      ReplaceCharFrom(s, c, rep, i + 1);
      if s[i] == c {
        assert MatchAt(s, [c], Anywhere, i);
      }
    }
  }

  /** After `s.replace(c, rep)`, with `c` not in `rep`, no `c` remains. */
  lemma ReplaceCharRemovesIt(s: string, c: char, rep: string)
    requires c !in rep
    ensures c !in ReplaceAll(s, [c], rep, Anywhere)
  {
    ReplaceCharFrom(s, c, rep, 0);
  }

  /** Every `c` turned into `d`, character by character: a definition of
      one-character replacement that does not scan. */
  function Substitute(s: string, c: char, d: char): (r: string)
    ensures |r| == |s|
    ensures forall i :: 0 <= i < |s| ==> r[i] == if s[i] == c then d else s[i]
  {
    seq(|s|, i requires 0 <= i < |s| => if s[i] == c then d else s[i])
  }

  lemma {:induction false} ReplaceCharByCharFrom(s: string, c: char, d: char, i: nat)
    requires i <= |s|
    ensures ReplaceFrom(s, [c], [d], Anywhere, i) == Substitute(s[i..], c, d)
    decreases |s| - i
  {
    if i < |s| {
      ReplaceCharByCharFrom(s, c, d, i + 1);
      assert OccursAt(s, [c], i) <==> s[i] == c by {
        assert s[i..i + 1] == [s[i]];
      }
      var whole := Substitute(s[i..], c, d);
      var tail := Substitute(s[i + 1..], c, d);
      assert whole == [whole[0]] + tail;
    } else {
      assert s[i..] == [];
    }
  }

  /** `s.replace(c, d)` for single characters is `Substitute`. */
  lemma ReplaceCharByChar(s: string, c: char, d: char)
    ensures ReplaceAll(s, [c], [d], Anywhere) == Substitute(s, c, d)
  {
    ReplaceCharByCharFrom(s, c, d, 0);
    assert s[0..] == s;
  }

  /** A stretch of text holding no first character of the pattern is copied
      to the output as it is. */
  lemma {:induction false} SkipFrom(s: string, pat: string, rep: string, g: Guard, i: nat, k: nat)
    requires i <= k <= |s| && pat != []
    requires forall j :: i <= j < k ==> s[j] != pat[0]
    ensures ReplaceFrom(s, pat, rep, g, i) == s[i..k] + ReplaceFrom(s, pat, rep, g, k)
    decreases k - i
  {
    if i < k {
      if i + |pat| <= |s| {
        assert s[i..i + |pat|][0] == s[i];
      }
      SkipFrom(s, pat, rep, g, i + 1, k);
      assert s[i..k] == [s[i]] + s[i + 1..k];
    }
  }

  /** A text in which the pattern's first character occurs only where the
      pattern itself does, once and admitted by the guard: that one occurrence
      is replaced and the rest is kept. */
  lemma ReplaceSingleOccurrence(a: string, pat: string, rep: string, b: string, g: Guard)
    requires pat != [] && pat[0] !in a && pat[0] !in b
    requires Admits(g, a + pat + b, |a|, |a| + |pat|)
    ensures ReplaceAll(a + pat + b, pat, rep, g) == a + rep + b
  {
    var s := a + pat + b;
    var k := |a| + |pat|;
    assert s[..|a|] == a;
    assert s[|a|..k] == pat;
    assert s[k..] == b;
    forall j | 0 <= j < |a| ensures s[j] != pat[0] {
      assert s[j] == a[j];
    }
    forall j | k <= j < |s| ensures s[j] != pat[0] {
      assert s[j] == b[j - k];
    }
    SkipFrom(s, pat, rep, g, 0, |a|);
    assert MatchAt(s, pat, g, |a|);
    SkipFrom(s, pat, rep, g, k, |s|);
  }
}
