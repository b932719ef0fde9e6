/** The Python string operations the core relies on, over an ASCII view of
    characters: `str.isspace`, `str.isdigit`, `\w`, `str.strip`, `in`,
    `str.split`, `str.splitlines`, `str.join`, iteration over a text file, and
    `int()` / `str()` on decimal digit strings. */
module Text {
  import opened Wrappers

  /** `str.isspace` on ASCII: space, \t \n \v \f \r and the separators \x1c-\x1f. */
  predicate IsSpace(c: char) {
    c == ' ' || ('\t' <= c <= '\r') || ('\U{1C}' <= c <= '\U{1F}')
  }

  predicate IsDigit(c: char) {
    '0' <= c <= '9'
  }

  /** The regex class `\w` on ASCII: letters, digits and the underscore. */
  predicate IsWordChar(c: char) {
    ('a' <= c <= 'z') || ('A' <= c <= 'Z') || IsDigit(c) || c == '_'
  }

  /** `str.isdigit`: at least one character, and every character a digit. */
  predicate IsDigits(s: string) {
    |s| > 0 && forall i :: 0 <= i < |s| ==> IsDigit(s[i])
  }

  function ToUpper(c: char): (u: char)
    ensures u != c ==> 'a' <= c <= 'z' && 'A' <= u <= 'Z'
    ensures 'a' <= c <= 'z' ==> u as int == c as int - 32
  {
    if 'a' <= c <= 'z' then (c as int - 32) as char else c
  }

  function ToLower(c: char): (l: char)
    ensures l != c ==> 'A' <= c <= 'Z' && 'a' <= l <= 'z'
    ensures 'A' <= c <= 'Z' ==> l as int == c as int + 32
  {
    if 'A' <= c <= 'Z' then (c as int + 32) as char else c
  }

  // ---------------------------------------------------------------- strip

  /** `str.lstrip()`: the suffix left after dropping leading whitespace. */
  function LStrip(s: string): (r: string)
    ensures |r| <= |s|
  {
    if s != [] && IsSpace(s[0]) then LStrip(s[1..]) else s
  }

  /** `lstrip` keeps a suffix, drops only whitespace, and stops at the first
      character that is not whitespace. */
  lemma {:induction false} LStripShape(s: string)
    ensures LStrip(s) == s[|s| - |LStrip(s)|..]
    ensures forall i :: 0 <= i < |s| - |LStrip(s)| ==> IsSpace(s[i])
    ensures LStrip(s) == [] || !IsSpace(LStrip(s)[0])
    decreases |s|
  {
    if s != [] && IsSpace(s[0]) {
      LStripShape(s[1..]);
    }
  }

  /** `str.rstrip()`: the prefix left after dropping trailing whitespace. */
  function RStrip(s: string): (r: string)
    ensures |r| <= |s|
  {
    if s != [] && IsSpace(s[|s| - 1]) then RStrip(s[..|s| - 1]) else s
  }

  /** `rstrip` keeps a prefix, drops only whitespace, and stops at the last
      character that is not whitespace. */
  lemma {:induction false} RStripShape(s: string)
    ensures RStrip(s) == s[..|RStrip(s)|]
    ensures forall i :: |RStrip(s)| <= i < |s| ==> IsSpace(s[i])
    ensures RStrip(s) == [] || !IsSpace(RStrip(s)[|RStrip(s)| - 1])
    decreases |s|
  {
    if s != [] && IsSpace(s[|s| - 1]) {
      RStripShape(s[..|s| - 1]);
    }
  }

  predicate AllSpace(s: string) {
    forall i :: 0 <= i < |s| ==> IsSpace(s[i])
  }

  /** Neither end is whitespace: what `strip` leaves. */
  predicate IsStripped(s: string) {
    s == [] || (!IsSpace(s[0]) && !IsSpace(s[|s| - 1]))
  }

  /** `str.strip()`. */
  function Strip(s: string): (r: string)
    ensures |r| <= |s|
  {
    RStrip(LStrip(s))
  }

  /** `strip` leaves no whitespace at either end, and leaves nothing exactly
      when the text is all whitespace. */
  lemma StripShape(s: string)
    ensures IsStripped(Strip(s))
    ensures Strip(s) == [] <==> AllSpace(s)
  {
    var l := LStrip(s);
    var r := RStrip(l);
    var a := |s| - |l|;
    LStripShape(s);
    RStripShape(l);
    if r != [] {
      assert r[0] == l[0];
      assert s[a] == l[0];
    }
  }

  /** A text with no whitespace at either end is its own `strip`. */
  lemma StrippedIsFixed(s: string)
    requires IsStripped(s)
    ensures Strip(s) == s
  {
  }

  /** `strip` returns a slice of its argument. */
  lemma StripOffset(s: string) returns (a: nat)
    ensures a + |Strip(s)| <= |s| && s[a..a + |Strip(s)|] == Strip(s)
  {
    var l := LStrip(s);
    var r := RStrip(l);
    LStripShape(s);
    RStripShape(l);
    a := |s| - |l|;
    forall i | 0 <= i < |r| ensures s[a + i] == r[i] {
      assert r[i] == l[i];
      assert l[i] == s[a..][i];
    }
    assert s[a..a + |r|] == r;
  }

  /** `strip` only removes characters. */
  lemma StripChars(s: string, c: char)
    requires c !in s
    ensures c !in Strip(s)
  {
    var a := StripOffset(s);
  }

  /** An occurrence inside a slice is an occurrence in the whole text. */
  lemma OccursInSlice(s: string, a: nat, b: nat, sub: string, k: nat)
    requires a <= b <= |s| && OccursAt(s[a..b], sub, k)
    ensures OccursAt(s, sub, a + k)
  {
    forall i | 0 <= i < |sub| ensures s[a + k + i] == sub[i] {
      assert s[a..b][k..k + |sub|][i] == sub[i];
    }
  }

  lemma {:induction false} LStripAppend(s: string, c: char)
    ensures LStrip(s + [c]) == if LStrip(s) == [] then LStrip([c]) else LStrip(s) + [c]
    decreases |s|
  {
    if s != [] {
      assert (s + [c])[1..] == s[1..] + [c];
      if IsSpace(s[0]) {
        LStripAppend(s[1..], c);
      }
    }
  }

  /** Whitespace at the end of a line (a kept '\n' terminator, say) does not
      change what `strip` returns. */
  lemma StripAppendSpace(s: string, c: char)
    requires IsSpace(c)
    ensures Strip(s + [c]) == Strip(s)
  {
    LStripAppend(s, c);
    var l := LStrip(s);
    if l != [] {
      assert (l + [c])[..|l|] == l;
    }
  }

  lemma StripIdempotent(s: string)
    ensures Strip(Strip(s)) == Strip(s)
  {
    StripShape(s);
  }

  // ---------------------------------------------------------------- search

  predicate OccursAt(s: string, sub: string, i: nat) {
    i + |sub| <= |s| && s[i..i + |sub|] == sub
  }

  /** The first index at or after `i` where `sub` occurs (`str.find(sub, i)`). */
  function FindFrom(s: string, sub: string, i: nat): (r: Option<nat>)
    requires i <= |s|
    ensures r.Some? ==> i <= r.value <= |s| && OccursAt(s, sub, r.value)
    ensures r.Some? ==> forall j :: i <= j < r.value ==> !OccursAt(s, sub, j)
    ensures r.None? ==> forall j :: i <= j ==> !OccursAt(s, sub, j)
    decreases |s| - i
  {
    if OccursAt(s, sub, i) then Some(i)
    else if i == |s| then None
    else FindFrom(s, sub, i + 1)
  }

  function Find(s: string, sub: string): Option<nat> {
    FindFrom(s, sub, 0)
  }

  /** Python's `sub in s`. */
  predicate Contains(s: string, sub: string) {
    Find(s, sub).Some?
  }

  /** A text without the first character of `sub` does not contain `sub`. */
  lemma AbsentFirstChar(s: string, sub: string)
    requires sub != [] && sub[0] !in s
    ensures !Contains(s, sub)
  {
    forall j: nat | j + |sub| <= |s| ensures !OccursAt(s, sub, j) {
      assert s[j..j + |sub|][0] == s[j];
    }
  }

  /** The first occurrence of `sub` is at `|a|` when `a` holds no first
      character of it. */
  lemma FindAfterPrefix(a: string, sub: string, b: string)
    requires sub != [] && sub[0] !in a
    ensures Find(a + sub + b, sub) == Some(|a|)
  {
    var s := a + sub + b;
    assert s[|a|..|a| + |sub|] == sub;
    assert OccursAt(s, sub, |a|);
    forall j: nat | j < |a| ensures !OccursAt(s, sub, j) {
      assert s[j..j + |sub|][0] == s[j] == a[j];
    }
  }

  /** `s.split(sep, 1)` when `sep` occurs: the text before the first
      occurrence and the text after it. */
  function SplitFirst(s: string, sep: string): (r: Option<(string, string)>)
    ensures r.None? <==> !Contains(s, sep)
    ensures r.Some? ==> s == r.value.0 + sep + r.value.1
    ensures r.Some? ==> forall j :: 0 <= j < |r.value.0| ==> !OccursAt(s, sep, j)
  {
    match Find(s, sep)
    case None => None
    case Some(i) =>
      assert s == s[..i] + sep + s[i + |sep|..] by {
        assert s[i..i + |sep|] == sep;
      }
      Some((s[..i], s[i + |sep|..]))
  }

  /** The split of a text whose first separator follows `a`. */
  lemma SplitFirstAfterPrefix(a: string, sep: string, b: string)
    requires sep != [] && sep[0] !in a
    ensures SplitFirst(a + sep + b, sep) == Some((a, b))
  {
    var s := a + sep + b;
    FindAfterPrefix(a, sep, b);
    assert s[..|a|] == a;
    assert s[|a| + |sep|..] == b;
  }

  /** `s.split(sep)[0]`. */
  function FirstPiece(s: string, sep: string): (r: string)
    ensures |r| <= |s| && r == s[..|r|]
  {
    match SplitFirst(s, sep)
    case None => s
    case Some((a, _)) => a
  }

  // ---------------------------------------------------------------- split, join

  /** `s.split(c)` for a one-character separator: always at least one piece. */
  function Split(s: string, c: char): (r: seq<string>)
    ensures |r| >= 1
  {
    if s == [] then [[]]
    else
      var init := Split(s[..|s| - 1], c);
      var x := s[|s| - 1];
      if x == c then init + [[]]
      else init[..|init| - 1] + [init[|init| - 1] + [x]]
  }

  /** `sep.join(xs)`. */
  function Join(xs: seq<string>, sep: string): string {
    if |xs| == 0 then []
    else if |xs| == 1 then xs[0]
    else Join(xs[..|xs| - 1], sep) + sep + xs[|xs| - 1]
  }

  /** ''.join(xs). */
  function Concat(xs: seq<string>): string {
    if xs == [] then [] else Concat(xs[..|xs| - 1]) + xs[|xs| - 1]
  }

  /** `split` of a text one character longer. */
  lemma SplitSnoc(s: string, c: char, x: char)
    ensures var init := Split(s, c);
            Split(s + [x], c) == if x == c then init + [[]] else init[..|init| - 1] + [init[|init| - 1] + [x]]
  {
    assert (s + [x])[..|s|] == s;
  }

  /** `join` of one more piece. */
  lemma JoinSnoc(xs: seq<string>, y: string, sep: string)
    requires xs != []
    ensures Join(xs + [y], sep) == Join(xs, sep) + sep + y
  {
    assert (xs + [y])[..|xs|] == xs;
  }

  /** Joining the pieces of a split with its separator gives the text back. */
  lemma {:induction false} JoinSplit(s: string, c: char)
    ensures Join(Split(s, c), [c]) == s
    decreases |s|
  {
    if s != [] {
      var t := s[..|s| - 1];
      var x := s[|s| - 1];
      assert s == t + [x];
      JoinSplit(t, c);
      var init := Split(t, c);
      SplitSnoc(t, c, x);
      if x == c {
        JoinSnoc(init, [], [c]);
      } else {
        var front := init[..|init| - 1];
        var last := init[|init| - 1];
        assert init == front + [last];
        if front == [] {
          assert Split(s, c) == [last + [x]];
        } else {
          JoinSnoc(front, last + [x], [c]);
          JoinSnoc(front, last, [c]);
        }
      }
    }
  }

  /** `s.splitlines()` with '\n' as the only line break: like split, except
      that a final empty piece (text ending in '\n', or no text) is dropped. */
  function SplitLines(s: string): (r: seq<string>)
    ensures |r| + 1 == |Split(s, '\n')| || r == Split(s, '\n')
  {
    var parts := Split(s, '\n');
    if parts[|parts| - 1] == [] then parts[..|parts| - 1] else parts
  }

  lemma {:induction false} SplitWithoutSeparator(s: string, c: char)
    requires c !in s
    ensures Split(s, c) == [s]
    decreases |s|
  {
    if s != [] {
      SplitWithoutSeparator(s[..|s| - 1], c);
      assert s[..|s| - 1] + [s[|s| - 1]] == s;
    }
  }

  /** A non-empty text without a line break is one line. */
  lemma OneLine(s: string)
    requires s != [] && '\n' !in s
    ensures SplitLines(s) == [s]
  {
    SplitWithoutSeparator(s, '\n');
  }

  /** The lines a text file yields when iterated, each keeping its '\n'. */
  function FileLines(s: string): (r: seq<string>)
    ensures |r| == |SplitLines(s)|
    ensures forall k :: 0 <= k < |r| ==> r[k] == SplitLines(s)[k] + "\n" || r[k] == SplitLines(s)[k]
  {
    var parts := Split(s, '\n');
    var n := |parts| - 1;
    var terminated := seq(n, i requires 0 <= i < n => parts[i] + "\n");
    if parts[n] == [] then terminated else terminated + [parts[n]]
  }

  lemma {:induction false} ConcatTerminated(parts: seq<string>, m: nat)
    requires m < |parts|
    ensures Concat(seq(m, i requires 0 <= i < m => parts[i] + "\n")) + parts[m] == Join(parts[..m + 1], "\n")
  {
    if m > 0 {
      ConcatTerminated(parts, m - 1);
      var t := seq(m, i requires 0 <= i < m => parts[i] + "\n");
      assert t[..m - 1] == seq(m - 1, i requires 0 <= i < m - 1 => parts[i] + "\n");
      assert parts[..m + 1][..m] == parts[..m];
    }
  }

  /** Writing the lines of a file back one after the other gives the file. */
  lemma FileLinesConcat(s: string)
    ensures Concat(FileLines(s)) == s
  {
    var parts := Split(s, '\n');
    var n := |parts| - 1;
    var t := seq(n, i requires 0 <= i < n => parts[i] + "\n");
    ConcatTerminated(parts, n);
    JoinSplit(s, '\n');
    assert parts[..n + 1] == parts;
    if parts[n] != [] {
      assert (t + [parts[n]])[..n] == t;
    }
  }

  // ---------------------------------------------------------------- decimal digits

  function DigitValue(c: char): nat
    requires IsDigit(c)
  {
    c as int - '0' as int
  }

  /** `int(s)` for a string of ASCII digits. */
  function DigitsValue(s: string): nat
    requires forall i :: 0 <= i < |s| ==> IsDigit(s[i])
  {
    if s == [] then 0 else 10 * DigitsValue(s[..|s| - 1]) + DigitValue(s[|s| - 1])
  }

  function DigitChar(d: nat): (c: char)
    requires d < 10
    ensures IsDigit(c) && DigitValue(c) == d
  {
    ('0' as int + d) as char
  }

  /** `str(n)` for a natural number. */
  function Decimal(n: nat): (s: string)
    ensures IsDigits(s) && DigitsValue(s) == n
    ensures n < 10 ==> |s| == 1
    ensures n < 100 ==> |s| <= 2
    ensures n < 1000 ==> |s| <= 3
  {
    if n < 10 then [DigitChar(n)]
    else
      var s := Decimal(n / 10) + [DigitChar(n % 10)];
      assert s[..|s| - 1] == Decimal(n / 10);
      s
  }

  /** Left padding with '0' to at least `width` characters, as in f"{n:0width}". */
  function ZeroPad(s: string, width: nat): (r: string)
    requires forall i :: 0 <= i < |s| ==> IsDigit(s[i])
    ensures forall i :: 0 <= i < |r| ==> IsDigit(r[i])
    ensures |r| == if |s| >= width then |s| else width
    ensures DigitsValue(r) == DigitsValue(s)
    decreases width - |s|
  {
    if |s| >= width then s
    else
      LeadingZero(s);
      ZeroPad("0" + s, width)
  }

  lemma {:induction false} LeadingZero(s: string)
    requires forall i :: 0 <= i < |s| ==> IsDigit(s[i])
    ensures DigitsValue("0" + s) == DigitsValue(s)
    decreases |s|
  {
    if s != [] {
      LeadingZero(s[..|s| - 1]);
      assert ("0" + s)[..|s|] == "0" + s[..|s| - 1];
    }
  }
}
