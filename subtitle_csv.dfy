/** `srt_to_csv` (subtitle_csv.py): the lenient line-driven SubRip parser it
    falls back on when `srt.parse` raises, and the row it writes for each
    subtitle. */
module SubtitleCsv {
  import opened Wrappers
  import opened Text
  import opened Replace
  import opened Timecode

  /** A subtitle as `srt.Subtitle` holds it; times in microseconds. */
  datatype Entry = Entry(index: int, start: nat, end: nat, content: string)

  /** `strptime` raised on this timestamp; the exception leaves `srt_to_csv`. */
  datatype ParseError = BadTimestamp(stamp: string)

  const ByteOrderMark: char := '\U{FEFF}'
  const ArrowSep: string := " --> "

  /** The lines the parser walks: every byte order mark removed, CR LF turned
      into LF, then split at each '\n'. */
  function SrtLines(srtText: string): (r: seq<string>)
    ensures |r| >= 1
  {
    var noBom := ReplaceAll(srtText, [ByteOrderMark], [], Anywhere);
    Split(ReplaceAll(noBom, "\r\n", "\n", Anywhere), '\n')
  }

  // ---------------------------------------------------------------- lines

  /** `re.match(r'\d{2}:\d{2}:\d{2},\d{3} --> \d{2}:\d{2}:\d{2},\d{3}', t)`:
      anchored at the start only, so anything may follow. */
  predicate IsTimecodeLine(t: string) {
    |t| >= 29 && TimecodeAt(t, 0) && t[12..17] == ArrowSep && TimecodeAt(t, 17)
  }

  /** `t.split(' --> ')` on a timecode line: the first piece is the first
      timecode, the second runs from the first arrow to the next one (or to
      the end), so it starts with the second timecode. */
  lemma TimecodeLineSplit(t: string)
    requires IsTimecodeLine(t)
    ensures SplitFirst(t, ArrowSep) == Some((t[..12], t[17..]))
    ensures TimecodeAt(t[..12], 0)
    ensures TimecodeAt(FirstPiece(t[17..], ArrowSep), 0)
  {
    assert t == t[..12] + ArrowSep + t[17..];
    forall j | 0 <= j < 12 ensures t[j] != ' ' { }
    SplitFirstAfterPrefix(t[..12], ArrowSep, t[17..]);
    var b := t[17..];
    var r := FirstPiece(b, ArrowSep);
    forall j | 0 <= j < 12 ensures b[j] != ' ' {
      assert b[j] == t[17 + j];
    }
    match SplitFirst(b, ArrowSep)
    case None =>
    case Some((x, y)) =>
      assert b[|x|] == ' ' by {
        assert b == x + ArrowSep + y;
      }
    assert r == b[..|r|] && |r| >= 12;
  }

  /** What the parser makes of one line, once stripped, in the order of its
      tests: all digits, a timecode line, empty, anything else. */
  datatype LineKind =
    | IndexLine(number: nat)
    | TimecodeLine(start: Stamp, end: Stamp)
    | BlankLine
    | TextLine(text: string)

  function Classify(line: string): (k: LineKind)
    ensures k.TextLine? ==> k.text != []
  {
    var t := Strip(line);
    if IsDigits(t) then IndexLine(DigitsValue(t))
    else if IsTimecodeLine(t) then
      TimecodeLineSplit(t);
      var times := SplitFirst(t, ArrowSep).value;
      TimecodeLine(times.0, FirstPiece(times.1, ArrowSep))
    else if t == [] then BlankLine
    else TextLine(t)
  }

  function Kinds(lines: seq<string>): (r: seq<LineKind>)
    ensures |r| == |lines|
  {
    seq(|lines|, i requires 0 <= i < |lines| => Classify(lines[i]))
  }

  // ---------------------------------------------------------------- blocks

  /** The lines cut at blank lines into blocks; a blank line closes the block
      before it and opens an empty one, so there is always a last block. */
  function Blocks(kinds: seq<LineKind>): (r: seq<seq<LineKind>>)
    ensures |r| >= 1
  {
    if kinds == [] then [[]]
    else
      var init := Blocks(kinds[..|kinds| - 1]);
      var k := kinds[|kinds| - 1];
      if k == BlankLine then init + [[]]
      else init[..|init| - 1] + [init[|init| - 1] + [k]]
  }

  /** The number of the block's last index line. */
  function LastIndex(block: seq<LineKind>): Option<nat> {
    if block == [] then None
    else if block[|block| - 1].IndexLine? then Some(block[|block| - 1].number)
    else LastIndex(block[..|block| - 1])
  }

  /** The first timecode of the block's last timecode line. */
  function LastStart(block: seq<LineKind>): Option<Stamp> {
    if block == [] then None
    else if block[|block| - 1].TimecodeLine? then Some(block[|block| - 1].start)
    else LastStart(block[..|block| - 1])
  }

  /** The second timecode of the block's last timecode line. */
  function LastEnd(block: seq<LineKind>): Option<Stamp> {
    if block == [] then None
    else if block[|block| - 1].TimecodeLine? then Some(block[|block| - 1].end)
    else LastEnd(block[..|block| - 1])
  }

  /** The block's text lines, in order. */
  function TextOf(block: seq<LineKind>): seq<string> {
    if block == [] then []
    else
      var k := block[|block| - 1];
      TextOf(block[..|block| - 1]) + if k.TextLine? then [k.text] else []
  }

  /** `subtitle_number and start_time and end_time and subtitle_text`: the
      number 0 is false, like a missing one. */
  predicate Complete(number: Option<nat>, start: Option<Stamp>, end: Option<Stamp>, text: seq<string>) {
    number.Some? && number.value != 0 && start.Some? && end.Some? && text != []
  }

  /** What closing a block adds: nothing when it is incomplete; otherwise an
      entry, unless one of its timestamps makes `strptime` raise. */
  function EmitBlock(number: Option<nat>, start: Option<Stamp>, end: Option<Stamp>, text: seq<string>)
    : (r: Result<Option<Entry>, ParseError>)
    ensures !Complete(number, start, end, text) ==> r == Ok(None)
    ensures r.Ok? && r.value.Some? <==>
              Complete(number, start, end, text) && Strptime(start.value).Some? && Strptime(end.value).Some?
    ensures r.Err? ==> Complete(number, start, end, text)
                       && (r.error == BadTimestamp(start.value) || r.error == BadTimestamp(end.value))
  {
    if Complete(number, start, end, text) then
      match Strptime(start.value)
      case None => Err(BadTimestamp(start.value))
      case Some(s) =>
        match Strptime(end.value)
        case None => Err(BadTimestamp(end.value))
        case Some(e) => Ok(Some(Entry(number.value, s, e, Join(text, " "))))
    else Ok(None)
  }

  /** A complete block whose timestamps both read gives the entry with its
      number, its two times, and its text lines joined by single spaces. */
  lemma EmitCompleteBlock(n: nat, s: Stamp, e: Stamp, text: seq<string>, sv: nat, ev: nat)
    requires n != 0 && text != [] && Strptime(s) == Some(sv) && Strptime(e) == Some(ev)
    ensures EmitBlock(Some(n), Some(s), Some(e), text) == Ok(Some(Entry(n, sv, ev, Join(text, " "))))
  {
  }

  function BlockEntry(block: seq<LineKind>): Result<Option<Entry>, ParseError> {
    EmitBlock(LastIndex(block), LastStart(block), LastEnd(block), TextOf(block))
  }

  /** Adds the outcome of one more block to the entries so far; the first
      error wins. */
  function Then(acc: Result<seq<Entry>, ParseError>, next: Result<Option<Entry>, ParseError>)
    : Result<seq<Entry>, ParseError>
  {
    match acc
    case Err(e) => Err(e)
    case Ok(es) =>
      match next
      case Err(e) => Err(e)
      case Ok(None) => Ok(es)
      case Ok(Some(x)) => Ok(es + [x])
  }

  function ParseBlocks(blocks: seq<seq<LineKind>>): Result<seq<Entry>, ParseError> {
    if blocks == [] then Ok([])
    else Then(ParseBlocks(blocks[..|blocks| - 1]), BlockEntry(blocks[|blocks| - 1]))
  }

  /** The block-by-block reading of the fallback parser. */
  function ParseFallback(srtText: string): Result<seq<Entry>, ParseError> {
    ParseBlocks(Blocks(Kinds(SrtLines(srtText))))
  }

  // ---------------------------------------------------------------- block lemmas

  function Combine(a: Result<seq<Entry>, ParseError>, b: Result<seq<Entry>, ParseError>)
    : Result<seq<Entry>, ParseError>
  {
    match a
    case Err(e) => Err(e)
    case Ok(xs) =>
      match b
      case Err(e) => Err(e)
      case Ok(ys) => Ok(xs + ys)
  }

  lemma ThenCombine(a: Result<seq<Entry>, ParseError>, b: Result<seq<Entry>, ParseError>,
                    next: Result<Option<Entry>, ParseError>)
    ensures Then(Combine(a, b), next) == Combine(a, Then(b, next))
  {
    if a.Ok? && b.Ok? && next.Ok? && next.value.Some? {
      assert a.value + b.value + [next.value.value] == a.value + (b.value + [next.value.value]);
    }
  }

  lemma {:induction false} ParseBlocksAppend(xs: seq<seq<LineKind>>, ys: seq<seq<LineKind>>)
    ensures ParseBlocks(xs + ys) == Combine(ParseBlocks(xs), ParseBlocks(ys))
    decreases |ys|
  {
    if ys == [] {
      assert xs + ys == xs;
      match ParseBlocks(xs)
      case Err(_) =>
      case Ok(es) => assert es + [] == es;
    } else {
      var n := |ys| - 1;
      var front := ys[..n];
      var y := ys[n];
      ParseBlocksAppend(xs, front);
      assert ys == front + [y];
      assert xs + ys == (xs + front) + [y];
      ParseBlocksSnoc(xs + front, y);
      ParseBlocksSnoc(front, y);
      ThenCombine(ParseBlocks(xs), ParseBlocks(front), BlockEntry(y));
    }
  }

  /** One more block adds its outcome to the entries so far. */
  lemma ParseBlocksSnoc(bs: seq<seq<LineKind>>, b: seq<LineKind>)
    ensures ParseBlocks(bs + [b]) == Then(ParseBlocks(bs), BlockEntry(b))
  {
    assert (bs + [b])[..|bs|] == bs;
  }

  /** One more line: a blank line opens a new empty block. */
  lemma BlocksSnocBlank(kinds: seq<LineKind>)
    ensures Blocks(kinds + [BlankLine]) == Blocks(kinds) + [[]]
  {
    assert (kinds + [BlankLine])[..|kinds|] == kinds;
  }

  /** One more line: any other line extends the last block. */
  lemma BlocksSnocLine(kinds: seq<LineKind>, k: LineKind)
    requires k != BlankLine
    ensures var init := Blocks(kinds);
            Blocks(kinds + [k]) == init[..|init| - 1] + [init[|init| - 1] + [k]]
  {
    assert (kinds + [k])[..|kinds|] == kinds;
  }

  /** A blank line separates what comes before it from what comes after. */
  lemma {:induction false} BlocksAroundBlank(xs: seq<LineKind>, ys: seq<LineKind>)
    ensures Blocks(xs + [BlankLine] + ys) == Blocks(xs) + Blocks(ys)
    decreases |ys|
  {
    if ys == [] {
      assert xs + [BlankLine] + ys == xs + [BlankLine];
      BlocksSnocBlank(xs);
    } else {
      var n := |ys| - 1;
      var k := ys[n];
      var front := ys[..n];
      BlocksAroundBlank(xs, front);
      assert ys == front + [k];
      assert xs + [BlankLine] + ys == (xs + [BlankLine] + front) + [k];
      var a := Blocks(xs);
      var b := Blocks(front);
      if k == BlankLine {
        BlocksSnocBlank(xs + [BlankLine] + front);
        BlocksSnocBlank(front);
        assert (a + b) + [[]] == a + (b + [[]]);
      } else {
        BlocksSnocLine(xs + [BlankLine] + front, k);
        BlocksSnocLine(front, k);
        ExtendLastBlock(a, b, k);
      }
    }
  }

  lemma ExtendLastBlock(a: seq<seq<LineKind>>, b: seq<seq<LineKind>>, k: LineKind)
    requires |b| >= 1
    ensures (a + b)[..|a + b| - 1] + [(a + b)[|a + b| - 1] + [k]] == a + (b[..|b| - 1] + [b[|b| - 1] + [k]])
  {
    assert (a + b)[..|a + b| - 1] == a + b[..|b| - 1];
    assert (a + b)[|a + b| - 1] == b[|b| - 1];
  }

  /** The parser state after a blank line does not depend on anything before
      it: the entries of the text are those of the part before the blank line
      followed by those of the part after it, and an error in the first part
      stops everything. */
  lemma BlankLineSeparates(xs: seq<LineKind>, ys: seq<LineKind>)
    ensures ParseBlocks(Blocks(xs + [BlankLine] + ys)) == Combine(ParseBlocks(Blocks(xs)), ParseBlocks(Blocks(ys)))
  {
    BlocksAroundBlank(xs, ys);
    ParseBlocksAppend(Blocks(xs), Blocks(ys));
  }

  /** A blank line at the end adds nothing: the last block is emitted whether
      or not a blank line follows it. */
  lemma TrailingBlankAddsNothing(kinds: seq<LineKind>)
    ensures ParseBlocks(Blocks(kinds + [BlankLine])) == ParseBlocks(Blocks(kinds))
  {
    assert (kinds + [BlankLine])[..|kinds|] == kinds;
    var bs := Blocks(kinds);
    assert (bs + [[]])[..|bs|] == bs;
    match ParseBlocks(bs)
    case Err(_) =>
    case Ok(es) =>
  }

  lemma {:induction false} SingleBlock(block: seq<LineKind>)
    requires BlankLine !in block
    ensures Blocks(block) == [block]
    decreases |block|
  {
    if block != [] {
      SingleBlock(block[..|block| - 1]);
      assert block[..|block| - 1] + [block[|block| - 1]] == block;
    }
  }

  lemma {:induction false} NoTimecodeNoStart(block: seq<LineKind>)
    requires forall k :: k in block ==> !k.TimecodeLine?
    ensures LastStart(block) == None
    decreases |block|
  {
    if block != [] {
      assert block[|block| - 1] in block;
      NoTimecodeNoStart(block[..|block| - 1]);
    }
  }

  /** A block without a timecode line is dropped, and the blocks after it
      are read as if it had not been there. */
  lemma BlockWithoutTimecodeDropped(block: seq<LineKind>, rest: seq<LineKind>)
    requires BlankLine !in block
    requires forall k :: k in block ==> !k.TimecodeLine?
    ensures ParseBlocks(Blocks(block + [BlankLine] + rest)) == ParseBlocks(Blocks(rest))
  {
    BlankLineSeparates(block, rest);
    SingleBlock(block);
    NoTimecodeNoStart(block);
    assert [block][..0] == [];
    assert ParseBlocks(Blocks(block)) == Ok([]);
    match ParseBlocks(Blocks(rest))
    case Err(_) =>
    case Ok(ys) => assert [] + ys == ys;
  }

  // ---------------------------------------------------------------- what is emitted

  const DayMicros: nat := MillisPerDay * MicrosPerMilli

  /** What every entry of the fallback parser satisfies: a positive number,
      some text, and both times within the first day. */
  predicate WellFormed(e: Entry) {
    e.index > 0 && e.content != [] && e.start < DayMicros && e.end < DayMicros
  }

  predicate GoodKind(k: LineKind) {
    k.TextLine? ==> k.text != []
  }

  lemma {:induction false} JoinNonEmpty(xs: seq<string>, sep: string)
    requires xs != [] && xs[|xs| - 1] != []
    ensures Join(xs, sep) != []
  {
  }

  lemma {:induction false} TextOfGood(block: seq<LineKind>)
    requires forall k :: k in block ==> GoodKind(k)
    ensures forall t :: t in TextOf(block) ==> t != []
    decreases |block|
  {
    if block != [] {
      assert block[|block| - 1] in block;
      TextOfGood(block[..|block| - 1]);
    }
  }

  lemma BlockEntryWellFormed(block: seq<LineKind>)
    requires forall k :: k in block ==> GoodKind(k)
    ensures BlockEntry(block).Ok? && BlockEntry(block).value.Some? ==> WellFormed(BlockEntry(block).value.value)
  {
    var r := BlockEntry(block);
    if r.Ok? && r.value.Some? {
      var text := TextOf(block);
      TextOfGood(block);
      assert text[|text| - 1] in text;
      JoinNonEmpty(text, " ");
      StrptimeBound(LastStart(block).value);
      StrptimeBound(LastEnd(block).value);
    }
  }

  lemma {:induction false} BlocksGood(kinds: seq<LineKind>)
    requires forall k :: k in kinds ==> GoodKind(k)
    ensures forall b, k :: b in Blocks(kinds) && k in b ==> GoodKind(k)
    decreases |kinds|
  {
    if kinds != [] {
      var init := kinds[..|kinds| - 1];
      assert forall k :: k in init ==> k in kinds;
      assert kinds[|kinds| - 1] in kinds;
      BlocksGood(init);
    }
  }

  lemma {:induction false} ParseBlocksWellFormed(blocks: seq<seq<LineKind>>)
    requires forall b, k :: b in blocks && k in b ==> GoodKind(k)
    ensures ParseBlocks(blocks).Ok? ==> forall e :: e in ParseBlocks(blocks).value ==> WellFormed(e)
    decreases |blocks|
  {
    if blocks != [] {
      var last := blocks[|blocks| - 1];
      assert last in blocks;
      BlockEntryWellFormed(last);
      assert forall b :: b in blocks[..|blocks| - 1] ==> b in blocks;
      ParseBlocksWellFormed(blocks[..|blocks| - 1]);
    }
  }

  /** Every entry the fallback parser emits has a non-zero number, non-empty
      text, and times within the first day (`%H` stops at 23). */
  lemma FallbackEntriesWellFormed(srtText: string)
    ensures ParseFallback(srtText).Ok? ==> forall e :: e in ParseFallback(srtText).value ==> WellFormed(e)
  {
    var kinds := Kinds(SrtLines(srtText));
    forall k | k in kinds ensures GoodKind(k) {
      var i :| 0 <= i < |kinds| && kinds[i] == k;
    }
    BlocksGood(kinds);
    ParseBlocksWellFormed(Blocks(kinds));
  }

  // ---------------------------------------------------------------- the state machine

  lemma BlocksStep(kinds: seq<LineKind>, i: nat)
    requires i < |kinds|
    ensures var init := Blocks(kinds[..i]);
            Blocks(kinds[..i + 1])
            == if kinds[i] == BlankLine then init + [[]]
               else init[..|init| - 1] + [init[|init| - 1] + [kinds[i]]]
  {
    assert kinds[..i + 1][..i] == kinds[..i];
  }

  lemma SplitAround<T>(s: seq<T>, i: nat)
    requires i < |s|
    ensures s == s[..i] + [s[i]] + s[i + 1..]
  {
  }

  /** Once the block closed by the blank line at `i` raises, so does the
      whole text. */
  lemma ErrorStops(kinds: seq<LineKind>, i: nat)
    requires i < |kinds| && kinds[i] == BlankLine && ParseBlocks(Blocks(kinds[..i])).Err?
    ensures ParseBlocks(Blocks(kinds)) == ParseBlocks(Blocks(kinds[..i]))
  {
    SplitAround(kinds, i);
    BlankLineSeparates(kinds[..i], kinds[i + 1..]);
  }

  /** The parser's four state variables hold what the open block has set. */
  predicate StateOf(block: seq<LineKind>, number: Option<nat>, start: Option<Stamp>, end: Option<Stamp>,
                    text: seq<string>)
  {
    number == LastIndex(block) && start == LastStart(block) && end == LastEnd(block) && text == TextOf(block)
  }

  /** A line that is not blank joins the open block. */
  lemma ExtendOpenBlock(kinds: seq<LineKind>, i: nat)
    requires i < |kinds| && kinds[i] != BlankLine
    ensures var bs, bs' := Blocks(kinds[..i]), Blocks(kinds[..i + 1]);
            |bs'| == |bs| && bs'[..|bs'| - 1] == bs[..|bs| - 1] && bs'[|bs'| - 1] == bs[|bs| - 1] + [kinds[i]]
  {
    BlocksStep(kinds, i);
  }

  /** A blank line closes the open block and opens an empty one. */
  lemma CloseOpenBlock(kinds: seq<LineKind>, i: nat)
    requires i < |kinds| && kinds[i] == BlankLine
    ensures var bs, bs' := Blocks(kinds[..i]), Blocks(kinds[..i + 1]);
            bs'[..|bs'| - 1] == bs && bs'[|bs'| - 1] == []
  {
    BlocksStep(kinds, i);
    var bs := Blocks(kinds[..i]);
    assert (bs + [[]])[..|bs|] == bs;
  }

  lemma StateAfterLine(block: seq<LineKind>, k: LineKind)
    ensures LastIndex(block + [k]) == if k.IndexLine? then Some(k.number) else LastIndex(block)
    ensures LastStart(block + [k]) == if k.TimecodeLine? then Some(k.start) else LastStart(block)
    ensures LastEnd(block + [k]) == if k.TimecodeLine? then Some(k.end) else LastEnd(block)
    ensures TextOf(block + [k]) == if k.TextLine? then TextOf(block) + [k.text] else TextOf(block)
  {
    assert (block + [k])[..|block|] == block;
  }

  /** What the parser has built after the first i lines: the entries of the
      closed blocks, and the state of the open one. */
  predicate ParsedUpTo(kinds: seq<LineKind>, i: nat, entries: seq<Entry>, number: Option<nat>,
                       start: Option<Stamp>, end: Option<Stamp>, text: seq<string>)
    requires i <= |kinds|
  {
    var bs := Blocks(kinds[..i]);
    ParseBlocks(bs[..|bs| - 1]) == Ok(entries) && StateOf(bs[|bs| - 1], number, start, end, text)
  }

  /** One line that is not blank: it updates the state of the open block. */
  lemma OpenLineStep(kinds: seq<LineKind>, i: nat, entries: seq<Entry>, number: Option<nat>,
                     start: Option<Stamp>, end: Option<Stamp>, text: seq<string>)
    requires i < |kinds| && kinds[i] != BlankLine
    requires ParsedUpTo(kinds, i, entries, number, start, end, text)
    ensures var k := kinds[i];
            ParsedUpTo(kinds, i + 1, entries,
                       if k.IndexLine? then Some(k.number) else number,
                       if k.TimecodeLine? then Some(k.start) else start,
                       if k.TimecodeLine? then Some(k.end) else end,
                       if k.TextLine? then text + [k.text] else text)
  {
    ExtendOpenBlock(kinds, i);
    StateAfterLine(Blocks(kinds[..i])[|Blocks(kinds[..i])| - 1], kinds[i]);
  }

  /** A blank line: the open block is closed and its entry, if any, added;
      or its error ends the parse. */
  lemma BlankLineStep(kinds: seq<LineKind>, i: nat, entries: seq<Entry>, number: Option<nat>,
                      start: Option<Stamp>, end: Option<Stamp>, text: seq<string>)
    requires i < |kinds| && kinds[i] == BlankLine
    requires ParsedUpTo(kinds, i, entries, number, start, end, text)
    ensures var r := EmitBlock(number, start, end, text);
            && (r.Err? ==> ParseBlocks(Blocks(kinds)) == Err(r.error))
            && (r == Ok(None) ==> ParsedUpTo(kinds, i + 1, entries, None, None, None, []))
            && (r.Ok? && r.value.Some? ==> ParsedUpTo(kinds, i + 1, entries + [r.value.value], None, None, None, []))
  {
    var bs := Blocks(kinds[..i]);
    ParseLastBlock(bs);
    CloseOpenBlock(kinds, i);
    if EmitBlock(number, start, end, text).Err? {
      ErrorStops(kinds, i);
    }
  }

  /** The end of the text closes the open block. */
  lemma LastLineStep(kinds: seq<LineKind>, entries: seq<Entry>, number: Option<nat>,
                     start: Option<Stamp>, end: Option<Stamp>, text: seq<string>)
    requires ParsedUpTo(kinds, |kinds|, entries, number, start, end, text)
    ensures ParseBlocks(Blocks(kinds)) == Then(Ok(entries), EmitBlock(number, start, end, text))
  {
    assert kinds[..|kinds|] == kinds;
    ParseLastBlock(Blocks(kinds));
  }

  /** The entries of the blocks so far, the open one included. */
  lemma ParseLastBlock(bs: seq<seq<LineKind>>)
    requires |bs| >= 1
    ensures ParseBlocks(bs) == Then(ParseBlocks(bs[..|bs| - 1]), BlockEntry(bs[|bs| - 1]))
  {
  }

  /** `fallback_parse_srt`: the loop over the lines with its four state
      variables, emitting at each blank line and once more at the end (the
      two copies of the emitting code are `EmitBlock`). It reads the text
      block by block. */
  method FallbackParseSrt(srtText: string) returns (r: Result<seq<Entry>, ParseError>)
    ensures r == ParseFallback(srtText)
  {
    var lines := SrtLines(srtText);
    ghost var kinds := Kinds(lines);
    var entries: seq<Entry> := [];
    var subtitleNumber: Option<nat> := None;
    var startTime: Option<Stamp> := None;
    var endTime: Option<Stamp> := None;
    var subtitleText: seq<string> := [];
    for i := 0 to |lines|
      invariant ParsedUpTo(kinds, i, entries, subtitleNumber, startTime, endTime, subtitleText)
    {
      ghost var k := kinds[i];
      assert k == Classify(lines[i]);
      var line := Strip(lines[i]);
      if IsDigits(line) {
        assert k == IndexLine(DigitsValue(line));
        OpenLineStep(kinds, i, entries, subtitleNumber, startTime, endTime, subtitleText);
        subtitleNumber := Some(DigitsValue(line));
      } else if IsTimecodeLine(line) {
        TimecodeLineSplit(line);
        var times := SplitFirst(line, ArrowSep).value;
        assert k == TimecodeLine(times.0, FirstPiece(times.1, ArrowSep));
        OpenLineStep(kinds, i, entries, subtitleNumber, startTime, endTime, subtitleText);
        startTime := Some(times.0);
        endTime := Some(FirstPiece(times.1, ArrowSep));
      } else if line == [] {
        assert k == BlankLine;
        BlankLineStep(kinds, i, entries, subtitleNumber, startTime, endTime, subtitleText);
        match EmitBlock(subtitleNumber, startTime, endTime, subtitleText) {
          case Err(e) =>
            return Err(e);
          case Ok(None) =>
          case Ok(Some(entry)) =>
            entries := entries + [entry];
        }
        subtitleNumber := None;
        startTime := None;
        endTime := None;
        subtitleText := [];
      } else {
        assert k == TextLine(line);
        OpenLineStep(kinds, i, entries, subtitleNumber, startTime, endTime, subtitleText);
        subtitleText := subtitleText + [line];
      }
    }
    LastLineStep(kinds, entries, subtitleNumber, startTime, endTime, subtitleText);
    match EmitBlock(subtitleNumber, startTime, endTime, subtitleText) {
      case Err(e) =>
        return Err(e);
      case Ok(None) =>
      case Ok(Some(entry)) =>
        entries := entries + [entry];
    }
    r := Ok(entries);
  }

  // ---------------------------------------------------------------- rows

  /** A row of the CSV file: Number, Start Time, End Time, Duration (seconds),
      Symbol Duration (seconds per character), Text. */
  datatype Row = Row(number: int, startTime: string, endTime: string, duration: real,
                     symbolDuration: real, text: string)

  /** `content.replace('\n', ' ').strip()`: one line, no whitespace at
      either end. */
  function RowText(content: string): (t: string)
    ensures '\n' !in t && IsStripped(t)
  {
    var flat := ReplaceAll(content, "\n", " ", Anywhere);
    ReplaceCharRemovesIt(content, '\n', " ");
    StripChars(flat, '\n');
    StripShape(flat);
    Strip(flat)
  }

  /** The row text is the content with every line break turned into a
      space, then stripped. */
  lemma RowTextIsFlattened(content: string)
    ensures RowText(content) == Strip(Substitute(content, '\n', ' '))
  {
    ReplaceCharByChar(content, '\n', ' ');
  }

  /** A one-line content with no surrounding whitespace is written as it is. */
  lemma RowTextOfOneLine(content: string)
    requires '\n' !in content && IsStripped(content)
    ensures RowText(content) == content
  {
    RowTextIsFlattened(content);
    assert Substitute(content, '\n', ' ') == content;
    StrippedIsFixed(content);
  }

  /** `timedelta.total_seconds()` of a span given in microseconds. */
  function Seconds(us: int): real {
    us as real / 1_000_000.0
  }

  /** `duration / len(text) if len(text) > 0 else 0`: the time per
      character, which multiplied by the length gives the duration back. */
  function SymbolDuration(duration: real, length: nat): (r: real)
    ensures length == 0 ==> r == 0.0
    ensures length > 0 ==> r * (length as real) == duration
  {
    if length > 0 then duration / (length as real) else 0.0
  }

  /** The row's symbol duration times the length of its text is its
      duration, and it is 0 for an empty text. */
  predicate SpreadsDuration(row: Row) {
    && (row.text == [] ==> row.symbolDuration == 0.0)
    && (row.text != [] ==> row.symbolDuration * (|row.text| as real) == row.duration)
  }

  /** A row whose text is `text` and whose duration is `duration`: the
      symbol duration times the length of the text is the duration, and it is
      0 for an empty text. */
  function MakeRow(index: int, startTime: string, endTime: string, duration: real, text: string): (row: Row)
    ensures row.number == index && row.duration == duration && row.text == text
    ensures row.startTime == startTime && row.endTime == endTime
    ensures text == [] ==> row.symbolDuration == 0.0
    ensures text != [] ==> row.symbolDuration * (|text| as real) == duration
    ensures SpreadsDuration(row)
  {
    Row(index, startTime, endTime, duration, SymbolDuration(duration, |text|), text)
  }

  /** The row `srt_to_csv` writes for one subtitle: its number, both times
      printed by `format_timedelta`, its duration in seconds, its text on one
      line with no surrounding whitespace, and a symbol duration that times
      the text's length gives the duration back. */
  function ToRow(e: Entry): (row: Row)
    ensures row.number == e.index && row.duration == Seconds(e.end - e.start)
    ensures row.startTime == FormatTimedelta(e.start) && row.endTime == FormatTimedelta(e.end)
    ensures row.text == RowText(e.content) && '\n' !in row.text && IsStripped(row.text)
    ensures SpreadsDuration(row)
  {
    var duration := Seconds(e.end - e.start);
    var text := RowText(e.content);
    MakeRow(e.index, FormatTimedelta(e.start), FormatTimedelta(e.end), duration, text)
  }

  /** One row per subtitle, in the order of the subtitles. */
  function Rows(entries: seq<Entry>): (rows: seq<Row>)
    ensures |rows| == |entries|
    ensures forall k :: 0 <= k < |entries| ==> rows[k].number == entries[k].index && '\n' !in rows[k].text
  {
    seq(|entries|, k requires 0 <= k < |entries| => ToRow(entries[k]))
  }

  lemma RowsSnoc(entries: seq<Entry>, e: Entry)
    ensures Rows(entries + [e]) == Rows(entries) + [ToRow(e)]
  {
    var xs := entries + [e];
    assert forall k :: 0 <= k < |entries| ==> xs[k] == entries[k];
  }

  lemma RowsStep(entries: seq<Entry>, i: nat)
    requires i < |entries|
    ensures Rows(entries[..i + 1]) == Rows(entries[..i]) + [ToRow(entries[i])]
  {
    assert entries[..i + 1] == entries[..i] + [entries[i]];
    RowsSnoc(entries[..i], entries[i]);
  }

  /** The subtitles `srt_to_csv` writes out: those of `srt.parse` when it
      succeeds (given here, as the library is outside the model), else those of
      the fallback parser. */
  function Subtitles(srtText: string, primary: Option<seq<Entry>>): Result<seq<Entry>, ParseError> {
    match primary
    case Some(parsed) => Ok(parsed)
    case None => ParseFallback(srtText)
  }

  /** The loop of `srt_to_csv` that turns each subtitle into its row. */
  method RowsOf(subtitles: seq<Entry>) returns (rows: seq<Row>)
    ensures rows == Rows(subtitles)
  {
    rows := [];
    for i := 0 to |subtitles|
      invariant rows == Rows(subtitles[..i])
    {
      RowsStep(subtitles, i);
      rows := rows + [ToRow(subtitles[i])];
    }
    assert subtitles[..|subtitles|] == subtitles;
  }

  /** `srt_to_csv` without the files: the subtitles, then one row per
      subtitle in the same order; a timestamp the fallback parser cannot read
      stops it with that error. */
  method SrtToCsv(srtText: string, primary: Option<seq<Entry>>) returns (r: Result<seq<Row>, ParseError>)
    ensures Subtitles(srtText, primary).Err? ==> r == Err(Subtitles(srtText, primary).error)
    ensures Subtitles(srtText, primary).Ok? ==> r == Ok(Rows(Subtitles(srtText, primary).value))
  {
    var subtitles: seq<Entry>;
    match primary {
      case Some(parsed) =>
        subtitles := parsed;
      case None =>
        var fallback := FallbackParseSrt(srtText);
        if fallback.Err? {
          return Err(fallback.error);
        }
        subtitles := fallback.value;
    }
    var rows := RowsOf(subtitles);
    r := Ok(rows);
  }
}
