/** Worked blocks of the fallback parser, over classified lines: a subtitle
    of two text lines, a subtitle numbered 0, and a block without its
    timecode line before a well-formed one. */
module SubtitleCases {
  import opened Wrappers
  import opened Text
  import opened Timecode
  import opened SubtitleCsv

  const One: Stamp := "00:00:01,000"
  const TwoAndAHalf: Stamp := "00:00:02,500"

  lemma TwoDigitValue(a: char, b: char)
    requires IsDigit(a) && IsDigit(b)
    ensures DigitsValue([a, b]) == 10 * DigitValue(a) + DigitValue(b)
  {
    assert [a][..0] == [];
    assert DigitsValue([a]) == DigitValue(a);
    assert [a, b][..1] == [a];
  }

  lemma ThreeDigitValue(a: char, b: char, c: char)
    requires IsDigit(a) && IsDigit(b) && IsDigit(c)
    ensures DigitsValue([a, b, c]) == 100 * DigitValue(a) + 10 * DigitValue(b) + DigitValue(c)
  {
    assert [a, b, c][..2] == [a, b];
    TwoDigitValue(a, b);
  }

  /** `strptime` reads `00:00:01,000` as one second. */
  lemma OneSecond()
    ensures Strptime(One) == Some(1_000_000)
  {
    assert One[0..2] == ['0', '0'] && One[3..5] == ['0', '0'] && One[6..8] == ['0', '1'];
    assert One[9..] == ['0', '0', '0'];
    TwoDigitValue('0', '0');
    TwoDigitValue('0', '1');
    ThreeDigitValue('0', '0', '0');
    StrptimeOfTwelve(One);
  }

  /** `strptime` reads `00:00:02,500` as two and a half seconds. */
  lemma TwoAndAHalfSeconds()
    ensures Strptime(TwoAndAHalf) == Some(2_500_000)
  {
    assert TwoAndAHalf[0..2] == ['0', '0'] && TwoAndAHalf[3..5] == ['0', '0'] && TwoAndAHalf[6..8] == ['0', '2'];
    assert TwoAndAHalf[9..] == ['5', '0', '0'];
    TwoDigitValue('0', '0');
    TwoDigitValue('0', '2');
    ThreeDigitValue('5', '0', '0');
    StrptimeOfTwelve(TwoAndAHalf);
  }

  /** A block of one block's lines is parsed as that block. */
  lemma OneBlock(block: seq<LineKind>)
    requires BlankLine !in block
    ensures ParseBlocks(Blocks(block)) == Then(Ok([]), BlockEntry(block))
  {
    SingleBlock(block);
    assert [block][..0] == [];
  }

  /** What the parser holds after an index line, a timecode line and a text line. */
  lemma ThreeLineBlock(n: nat, s: Stamp, e: Stamp, t: string)
    ensures var b := [IndexLine(n), TimecodeLine(s, e), TextLine(t)];
            LastIndex(b) == Some(n) && LastStart(b) == Some(s) && LastEnd(b) == Some(e) && TextOf(b) == [t]
  {
    var b := [IndexLine(n), TimecodeLine(s, e), TextLine(t)];
    assert b[..2] == [IndexLine(n), TimecodeLine(s, e)];
    assert b[..2][..1] == [IndexLine(n)];
    assert b[..2][..1][..0] == [];
    assert LastIndex(b[..2][..1]) == Some(n) && TextOf(b[..2][..1]) == [];
    assert LastIndex(b[..2]) == Some(n) && TextOf(b[..2]) == [];
  }

  /** The same with a second text line. */
  lemma FourLineBlock(n: nat, s: Stamp, e: Stamp, t1: string, t2: string)
    ensures var b := [IndexLine(n), TimecodeLine(s, e), TextLine(t1), TextLine(t2)];
            LastIndex(b) == Some(n) && LastStart(b) == Some(s) && LastEnd(b) == Some(e) && TextOf(b) == [t1, t2]
  {
    var b := [IndexLine(n), TimecodeLine(s, e), TextLine(t1), TextLine(t2)];
    ThreeLineBlock(n, s, e, t1);
    assert b[..3] == [IndexLine(n), TimecodeLine(s, e), TextLine(t1)];
    assert [t1] + [t2] == [t1, t2];
  }

  lemma ThenOnEmpty(x: Entry)
    ensures Then(Ok([]), Ok(Some(x))) == Ok([x])
  {
    assert [] + [x] == [x];
  }

  lemma JoinHelloWorld()
    ensures Join(["Hello", "world"], " ") == "Hello world"
  {
    assert ["Hello", "world"][..1] == ["Hello"];
  }

  lemma HelloWorldEntry()
    ensures BlockEntry([IndexLine(1), TimecodeLine(One, TwoAndAHalf), TextLine("Hello"), TextLine("world")])
         == Ok(Some(Entry(1, 1_000_000, 2_500_000, "Hello world")))
  {
    FourLineBlock(1, One, TwoAndAHalf, "Hello", "world");
    OneSecond();
    TwoAndAHalfSeconds();
    EmitCompleteBlock(1, One, TwoAndAHalf, ["Hello", "world"], 1_000_000, 2_500_000);
    JoinHelloWorld();
  }

  /** `1`, a timecode line, `Hello`, `world`: one subtitle whose text is
      the two lines joined by a space. */
  lemma TwoTextLines()
    ensures ParseBlocks(Blocks([IndexLine(1), TimecodeLine(One, TwoAndAHalf), TextLine("Hello"), TextLine("world")]))
         == Ok([Entry(1, 1_000_000, 2_500_000, "Hello world")])
  {
    OneBlock([IndexLine(1), TimecodeLine(One, TwoAndAHalf), TextLine("Hello"), TextLine("world")]);
    HelloWorldEntry();
    ThenOnEmpty(Entry(1, 1_000_000, 2_500_000, "Hello world"));
  }

  /** The same block numbered 0 gives no subtitle: 0 counts as missing. */
  lemma IndexZeroDropped()
    ensures ParseBlocks(Blocks([IndexLine(0), TimecodeLine(One, TwoAndAHalf), TextLine("Hello")])) == Ok([])
  {
    var block := [IndexLine(0), TimecodeLine(One, TwoAndAHalf), TextLine("Hello")];
    OneBlock(block);
    ThreeLineBlock(0, One, TwoAndAHalf, "Hello");
  }

  lemma KeptEntry()
    ensures BlockEntry([IndexLine(2), TimecodeLine(One, TwoAndAHalf), TextLine("kept")])
         == Ok(Some(Entry(2, 1_000_000, 2_500_000, "kept")))
  {
    ThreeLineBlock(2, One, TwoAndAHalf, "kept");
    OneSecond();
    TwoAndAHalfSeconds();
    EmitCompleteBlock(2, One, TwoAndAHalf, ["kept"], 1_000_000, 2_500_000);
  }

  /** A block that lost its timecode line is dropped, and the well-formed
      block after it is still read. */
  lemma MissingTimecodeDropped()
    ensures ParseBlocks(Blocks([IndexLine(1), TextLine("lost"), BlankLine,
                                IndexLine(2), TimecodeLine(One, TwoAndAHalf), TextLine("kept")]))
         == Ok([Entry(2, 1_000_000, 2_500_000, "kept")])
  {
    var lost := [IndexLine(1), TextLine("lost")];
    var kept := [IndexLine(2), TimecodeLine(One, TwoAndAHalf), TextLine("kept")];
    LostThenKept(lost, kept);
    BlockWithoutTimecodeDropped(lost, kept);
    KeptBlock(kept);
  }

  lemma LostThenKept(lost: seq<LineKind>, kept: seq<LineKind>)
    requires lost == [IndexLine(1), TextLine("lost")]
    requires kept == [IndexLine(2), TimecodeLine(One, TwoAndAHalf), TextLine("kept")]
    ensures lost + [BlankLine] + kept
         == [IndexLine(1), TextLine("lost"), BlankLine, IndexLine(2), TimecodeLine(One, TwoAndAHalf), TextLine("kept")]
    ensures BlankLine !in lost && forall k :: k in lost ==> !k.TimecodeLine?
  {
  }

  lemma KeptBlock(kept: seq<LineKind>)
    requires kept == [IndexLine(2), TimecodeLine(One, TwoAndAHalf), TextLine("kept")]
    ensures ParseBlocks(Blocks(kept)) == Ok([Entry(2, 1_000_000, 2_500_000, "kept")])
  {
    assert BlankLine !in kept;
    OneBlock(kept);
    KeptEntry();
    ThenOnEmpty(Entry(2, 1_000_000, 2_500_000, "kept"));
  }
}
