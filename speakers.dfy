/** The speaker columns of `subtitle_csv.py`: the `[Name]: ` tag that names
    the speaker of a row, the scan that picks a speed from a speaker's table
    of symbol durations, and the fallback to the default speaker. */
module Speakers {
  import opened Wrappers
  import opened Text
  import opened SubtitleCsv

  // ---------------------------------------------------------------------------
  // The speaker tag: the first match of `\[(.*?)\]: `
  // ---------------------------------------------------------------------------

  const TagClose: string := "]: "

  /** A match of `\[(.*?)\]: ` that opens at `i` and whose `]: ` starts at
      `j`: `.` matches anything but a line break. */
  predicate TagAt(text: string, i: nat, j: nat) {
    i < j && j + 3 <= |text| && text[i] == '[' && text[j..j + 3] == TagClose
    && '\n' !in text[i + 1..j]
  }

  /** The lazy `.*?` of a match opened at `i`: the first `]: ` from `j` on,
      unless a line break comes before it. */
  function CloseFrom(text: string, i: nat, j: nat): (r: Option<nat>)
    requires i < j <= |text| && text[i] == '[' && '\n' !in text[i + 1..j]
    decreases |text| - j
    ensures r.Some? ==> TagAt(text, i, r.value)
    ensures r.Some? ==> forall k: nat :: j <= k < r.value ==> !TagAt(text, i, k)
    ensures r.None? ==> forall k: nat :: j <= k ==> !TagAt(text, i, k)
  {
    if j + 3 > |text| then None
    else if text[j..j + 3] == TagClose then Some(j)
    else if text[j] == '\n' then
      LineBreakEndsTag(text, i, j);
      None
    else
      assert text[i + 1..j + 1] == text[i + 1..j] + [text[j]];
      CloseFrom(text, i, j + 1)
  }

  /** No match opened at `i` reaches past a line break at `j`. */
  lemma LineBreakEndsTag(text: string, i: nat, j: nat)
    requires i < j < |text| && text[j] == '\n'
    ensures forall k: nat :: j < k ==> !TagAt(text, i, k)
  {
    forall k: nat | j < k
      ensures !TagAt(text, i, k)
    {
      if k <= |text| {
        assert text[i + 1..k][j - i - 1] == '\n';
      }
    }
  }

  /** The search of `re.search`: the leftmost position at which a match
      opens, and the shortest match there. */
  function TagFrom(text: string, i: nat): (r: Option<(nat, nat)>)
    decreases |text| - i
    ensures r.Some? ==> i <= r.value.0 && TagAt(text, r.value.0, r.value.1)
    ensures r.Some? ==> forall p: nat, q: nat :: i <= p < r.value.0 ==> !TagAt(text, p, q)
    ensures r.Some? ==> forall q: nat :: q < r.value.1 ==> !TagAt(text, r.value.0, q)
    ensures r.None? ==> forall p: nat, q: nat :: i <= p ==> !TagAt(text, p, q)
  {
    if i >= |text| then None
    else if text[i] == '[' && CloseFrom(text, i, i + 1).Some? then
      Some((i, CloseFrom(text, i, i + 1).value))
    else
      TagFrom(text, i + 1)
  }

  function FindTag(text: string): Option<(nat, nat)> {
    TagFrom(text, 0)
  }

  /** What `add_speaker_columns` takes from a row's text: the speaker named
      by the first tag, and the text without that tag. */
  datatype Annotation = Annotation(speaker: string, text: string)

  /** The speaker is the content of the first tag when that is non-empty,
      and the text is then the rest around the tag, stripped; an empty tag
      or no tag leaves the speaker empty and the text as it was. */
  function ExtractSpeaker(text: string): (r: Annotation)
    ensures r.speaker == [] ==> r.text == text
    ensures r.speaker == [] <==> FindTag(text).None? || FindTag(text).value.1 == FindTag(text).value.0 + 1
    ensures r.speaker != [] ==>
              var (i, j) := FindTag(text).value;
              r.speaker == text[i + 1..j] && r.text == Strip(text[..i] + text[j + 3..])
  {
    match FindTag(text)
    case None => Annotation([], text)
    case Some((i, j)) =>
      if j == i + 1 then Annotation([], text)
      else Annotation(text[i + 1..j], Strip(text[..i] + text[j + 3..]))
  }

  /** The tag `ExtractSpeaker` takes is a real match, no match opens
      earlier, and none that opens at the same place closes earlier. */
  lemma FirstTagIsLeftmostShortest(text: string)
    requires FindTag(text).Some?
    ensures var (i, j) := FindTag(text).value;
            TagAt(text, i, j)
            && (forall p: nat, q: nat :: TagAt(text, p, q) ==> i < p || (i == p && j <= q))
  {
  }

  /** A text with no tag in it keeps its text and gets no speaker. */
  lemma NoTagNoSpeaker(text: string)
    requires forall p: nat, q: nat :: !TagAt(text, p, q)
    ensures ExtractSpeaker(text) == Annotation([], text)
  {
  }

  /** The speaker never holds a line break. */
  lemma SpeakerIsOneLine(text: string)
    ensures '\n' !in ExtractSpeaker(text).speaker
  {
    if ExtractSpeaker(text).speaker != [] {
      var (i, j) := FindTag(text).value;
      assert TagAt(text, i, j);
    }
  }

  const Greeting: string := "[Anna]: Hello"

  /** `[Anna]: Hello` is spoken by `Anna` and says `Hello`. */
  lemma GreetingHasSpeaker()
    ensures ExtractSpeaker(Greeting) == Annotation("Anna", "Hello")
  {
    var t := Greeting;
    GreetingTag();
    assert ExtractSpeaker(t) == Annotation(t[1..5], Strip(t[..0] + t[8..]));
    assert t[1..5] == "Anna";
    assert t[..0] + t[8..] == "Hello";
    HelloIsStripped();
  }

  lemma HelloIsStripped()
    ensures Strip("Hello") == "Hello"
  {
    var h := "Hello";
    assert h[0] == 'H' && h[|h| - 1] == 'o';
    assert IsStripped(h);
    StrippedIsFixed(h);
  }

  lemma GreetingTag()
    ensures FindTag(Greeting) == Some((0, 5))
  {
    assert Greeting[5..8] == TagClose;
    assert CloseFrom(Greeting, 0, 5) == Some(5);
    assert Greeting[4..7][0] != TagClose[0];
    assert CloseFrom(Greeting, 0, 4) == Some(5);
    assert Greeting[3..6][0] != TagClose[0];
    assert CloseFrom(Greeting, 0, 3) == Some(5);
    assert Greeting[2..5][0] != TagClose[0];
    assert CloseFrom(Greeting, 0, 2) == Some(5);
    assert Greeting[1..4][0] != TagClose[0];
    assert CloseFrom(Greeting, 0, 1) == Some(5);
  }

  /** `[]: Hi` is a match with an empty speaker: nothing changes. */
  lemma EmptyTagKeepsText()
    ensures ExtractSpeaker("[]: Hi") == Annotation([], "[]: Hi")
  {
    var t := "[]: Hi";
    assert t[1..4] == TagClose;
    assert CloseFrom(t, 0, 1) == Some(1);
  }

  // ---------------------------------------------------------------------------
  // add_speaker_columns
  // ---------------------------------------------------------------------------

  /** A row of the CSV file with speakers: the columns of a row of
      `srt_to_csv`, then Speaker, then Text. */
  datatype SpeakerRow = SpeakerRow(number: int, startTime: string, endTime: string, duration: real,
                                   symbolDuration: real, speaker: string, text: string)

  /** One row of `add_speaker_columns`: the metric columns are copied, the
      speaker and text are those of `ExtractSpeaker`. */
  function Annotate(row: Row): (s: SpeakerRow)
    ensures s.number == row.number && s.startTime == row.startTime && s.endTime == row.endTime
    ensures s.duration == row.duration && s.symbolDuration == row.symbolDuration
    ensures Annotation(s.speaker, s.text) == ExtractSpeaker(row.text)
  {
    var a := ExtractSpeaker(row.text);
    SpeakerRow(row.number, row.startTime, row.endTime, row.duration, row.symbolDuration, a.speaker, a.text)
  }

  /** The loop of `add_speaker_columns`: every row, in order, with its
      speaker column. */
  method AddSpeakerColumns(rows: seq<Row>) returns (out: seq<SpeakerRow>)
    ensures |out| == |rows|
    ensures forall k :: 0 <= k < |rows| ==> out[k] == Annotate(rows[k])
  {
    out := [];
    for n := 0 to |rows|
      invariant |out| == n
      invariant forall k :: 0 <= k < n ==> out[k] == Annotate(rows[k])
    {
      var row := rows[n];
      var found := FindTag(row.text);
      var speaker: string := [];
      var text := row.text;
      match found {
        case None =>
        case Some((i, j)) =>
          if j != i + 1 {
            speaker := row.text[i + 1..j];
            text := Strip(row.text[..i] + row.text[j + 3..]);
          }
      }
      out := out + [SpeakerRow(row.number, row.startTime, row.endTime, row.duration, row.symbolDuration,
                               speaker, text)];
    }
  }

  // ---------------------------------------------------------------------------
  // find_closest_from_floor_value_index
  // ---------------------------------------------------------------------------

  /** The scan from `i` on: the first element strictly below `value`, or the
      last element when none is. */
  function FloorIndexFrom(value: real, values: seq<real>, i: nat): (r: nat)
    requires i < |values|
    decreases |values| - i
    ensures i <= r < |values|
    ensures forall k :: i <= k < r ==> values[k] >= value
    ensures values[r] < value || (r == |values| - 1 && values[r] >= value)
  {
    if values[i] < value || i == |values| - 1 then i else FloorIndexFrom(value, values, i + 1)
  }

  /** The index `find_closest_from_floor_value_index` returns. */
  function FloorIndex(value: real, values: seq<real>): (r: nat)
    requires |values| > 0
    ensures r < |values|
  {
    FloorIndexFrom(value, values, 0)
  }

  /** What the scan returns, said without the scan: the first index whose
      element is strictly below `value`, or the last index when no element
      is. */
  predicate FloorScanResult(value: real, values: seq<real>, index: nat) {
    index < |values|
    && (forall k :: 0 <= k < index ==> values[k] >= value)
    && (values[index] < value || (index == |values| - 1 && values[index] >= value))
  }

  lemma FloorIndexIsScanResult(value: real, values: seq<real>)
    requires |values| > 0
    ensures FloorScanResult(value, values, FloorIndex(value, values))
  {
  }

  /** Only one index fits that description. */
  lemma FloorScanResultUnique(value: real, values: seq<real>, a: nat, b: nat)
    requires FloorScanResult(value, values, a) && FloorScanResult(value, values, b)
    ensures a == b
  {
  }

  /** The scan: the first element, then each element in turn, stopping at
      the first that is strictly below `value`. */
  method FindClosestFromFloorValueIndex(value: real, values: seq<real>) returns (maxValue: real, index: nat)
    requires |values| > 0
    ensures index < |values| && maxValue == values[index]
    ensures FloorScanResult(value, values, index)
    ensures index == FloorIndex(value, values)
  {
    maxValue, index := values[0], 0;
    var i := 0;
    while i < |values|
      invariant 0 <= i <= |values|
      invariant forall k :: 0 <= k < i ==> values[k] >= value
      invariant index < |values| && maxValue == values[index]
      invariant i > 0 ==> index == i - 1
      invariant i == 0 ==> index == 0
    {
      if values[i] < value {
        maxValue, index := values[i], i;
        break;
      }
      maxValue, index := values[i], i;
      i := i + 1;
    }
    FloorIndexIsScanResult(value, values);
    FloorScanResultUnique(value, values, index, FloorIndex(value, values));
  }

  /** On a table that never increases (the symbol durations of speeds in
      ascending order), the scan finds the largest element strictly below
      `value`; when there is none, it gives the last, smallest, element. */
  lemma FloorOfNonIncreasing(value: real, values: seq<real>)
    requires |values| > 0
    requires forall a, b :: 0 <= a < b < |values| ==> values[a] >= values[b]
    ensures var i := FloorIndex(value, values);
            (values[i] < value ==> forall k :: 0 <= k < |values| && values[k] < value ==> values[k] <= values[i])
            && (values[i] >= value ==> forall k :: 0 <= k < |values| ==> values[k] >= value && values[i] <= values[k])
  {
    FloorIndexIsScanResult(value, values);
  }

  /** On an ascending table the scan is not the floor its documentation
      describes: among 1, 2, 3 the largest value not above 2.5 is 2, but the
      scan stops at 1, the first element below 2.5. */
  lemma AscendingTableIsNotFloored()
    ensures FloorIndex(2.5, [1.0, 2.0, 3.0]) == 0
    ensures [1.0, 2.0, 3.0][1] <= 2.5 && [1.0, 2.0, 3.0][1] > [1.0, 2.0, 3.0][0]
  {
  }

  // ---------------------------------------------------------------------------
  // add_speed_columns_with_speakers
  // ---------------------------------------------------------------------------

  /** The speed table of a voice, read from its `speeds.csv`. */
  datatype SpeedTable = SpeedTable(symbolDurations: seq<real>, speeds: seq<real>)

  /** A voice of the speakers dictionary; `table` is absent when the voice
      folder has no `speeds.csv`. */
  datatype Voice = Voice(table: Option<SpeedTable>)

  /** The speakers dictionary: the voices by name, and the value under
      `default_speaker_name`. The keys `default_speaker_name` and
      `speakers_names` hold no voice. */
  datatype Speakers = Speakers(voices: map<string, Voice>, defaultName: string)

  const DefaultKey: string := "default_speaker_name"
  const NamesKey: string := "speakers_names"

  /** The exceptions that stop `add_speed_columns_with_speakers`. */
  datatype SpeedError =
    | UnknownSpeaker(name: string)          // KeyError for the default speaker
    | NotAVoice(name: string)               // the value under a reserved key is no dictionary
    | NoSpeedTable(name: string)            // KeyError for 'symbol_durations'
    | EmptySpeedTable(name: string)         // IndexError for values[0]
    | SpeedIndexOutOfRange(name: string, index: nat)  // IndexError for speeds[index]

  /** `speakers[name]` used as a voice. */
  function Lookup(speakers: Speakers, name: string): (r: Result<Voice, SpeedError>)
    ensures r.Ok? <==> name != DefaultKey && name != NamesKey && name in speakers.voices
    ensures r.Ok? ==> r.value == speakers.voices[name]
    ensures r.Err? && name != DefaultKey && name != NamesKey ==> r.error == UnknownSpeaker(name)
  {
    if name == DefaultKey || name == NamesKey then Err(NotAVoice(name))
    else if name in speakers.voices then Ok(speakers.voices[name])
    else Err(UnknownSpeaker(name))
  }

  /** The `try`/`except KeyError` of the loop: a missing name falls back to
      the default speaker; any other failure stands. */
  function ResolveSpeaker(speakers: Speakers, name: string): (r: Result<(string, Voice), SpeedError>)
    ensures Lookup(speakers, name).Ok? ==> r == Ok((name, Lookup(speakers, name).value))
    ensures Lookup(speakers, name).Err? && Lookup(speakers, name).error.UnknownSpeaker? ==>
              r == (match Lookup(speakers, speakers.defaultName)
                    case Ok(v) => Ok((speakers.defaultName, v))
                    case Err(e) => Err(e))
    ensures r.Ok? ==> r.value.0 in speakers.voices && r.value.1 == speakers.voices[r.value.0]
  {
    match Lookup(speakers, name)
    case Ok(v) => Ok((name, v))
    case Err(UnknownSpeaker(_)) =>
      (match Lookup(speakers, speakers.defaultName)
       case Ok(v) => Ok((speakers.defaultName, v))
       case Err(e) => Err(e))
    case Err(e) => Err(e)
  }

  /** A row of the CSV file with speeds: the metric columns, then TTS
      Symbol Duration and TTS Speed Closest, then Speaker and Text. */
  datatype SpeedRow = SpeedRow(number: int, startTime: string, endTime: string, duration: real,
                               symbolDuration: real, ttsSymbolDuration: real, ttsSpeed: real,
                               speaker: string, text: string)

  /** One row of `add_speed_columns_with_speakers`: the speaker resolved,
      the table entry the floor scan picks for the row's symbol duration,
      and the speed at the same index. */
  function SpeedColumns(row: SpeakerRow, speakers: Speakers): (r: Result<SpeedRow, SpeedError>)
    ensures r.Ok? ==>
              ResolveSpeaker(speakers, row.speaker).Ok?
              && var (name, voice) := ResolveSpeaker(speakers, row.speaker).value;
              voice.table.Some? && |voice.table.value.symbolDurations| > 0
              && var table := voice.table.value;
              var i := FloorIndex(row.symbolDuration, table.symbolDurations);
              i < |table.speeds|
              && r.value.speaker == name
              && r.value.ttsSymbolDuration == table.symbolDurations[i]
              && r.value.ttsSpeed == table.speeds[i]
              && r.value.text == row.text && r.value.number == row.number
              && r.value.symbolDuration == row.symbolDuration
    ensures ResolveSpeaker(speakers, row.speaker).Err? ==> r == Err(ResolveSpeaker(speakers, row.speaker).error)
  {
    match ResolveSpeaker(speakers, row.speaker)
    case Err(e) => Err(e)
    case Ok((name, voice)) =>
      match voice.table
      case None => Err(NoSpeedTable(name))
      case Some(table) =>
        if |table.symbolDurations| == 0 then Err(EmptySpeedTable(name))
        else
          var i := FloorIndex(row.symbolDuration, table.symbolDurations);
          if i >= |table.speeds| then Err(SpeedIndexOutOfRange(name, i))
          else Ok(SpeedRow(row.number, row.startTime, row.endTime, row.duration, row.symbolDuration,
                           table.symbolDurations[i], table.speeds[i], name, row.text))
  }

  /** A speaker missing from the dictionary is read with the default
      speaker's table, and the row is then labelled with the default name. */
  lemma UnknownSpeakerUsesDefault(row: SpeakerRow, speakers: Speakers)
    requires row.speaker != DefaultKey && row.speaker != NamesKey && row.speaker !in speakers.voices
    requires SpeedColumns(row, speakers).Ok?
    ensures SpeedColumns(row, speakers).value.speaker == speakers.defaultName
    ensures speakers.defaultName in speakers.voices
  {
  }

  /** A known speaker keeps its own name and table. */
  lemma KnownSpeakerKept(row: SpeakerRow, speakers: Speakers)
    requires row.speaker != DefaultKey && row.speaker != NamesKey && row.speaker in speakers.voices
    requires SpeedColumns(row, speakers).Ok?
    ensures SpeedColumns(row, speakers).value.speaker == row.speaker
  {
  }

  /** The rows with speeds in order; the first row that fails stops the
      whole file with its error. */
  function SpeedRows(rows: seq<SpeakerRow>, speakers: Speakers): (r: Result<seq<SpeedRow>, SpeedError>)
    ensures r.Ok? ==> |r.value| == |rows|
  {
    if |rows| == 0 then Ok([])
    else
      match SpeedRows(rows[..|rows| - 1], speakers)
      case Err(e) => Err(e)
      case Ok(prefix) =>
        match SpeedColumns(rows[|rows| - 1], speakers)
        case Err(e) => Err(e)
        case Ok(last) => Ok(prefix + [last])
  }

  /** When the file goes through, each output row is its input row's speed
      columns; when it does not, the error is that of the first row that
      fails, and every row before it would have gone through. */
  lemma {:induction false} SpeedRowsPerRow(rows: seq<SpeakerRow>, speakers: Speakers)
    ensures SpeedRows(rows, speakers).Ok? <==> forall k :: 0 <= k < |rows| ==> SpeedColumns(rows[k], speakers).Ok?
    ensures SpeedRows(rows, speakers).Ok? ==>
              forall k :: 0 <= k < |rows| ==> SpeedRows(rows, speakers).value[k] == SpeedColumns(rows[k], speakers).value
    ensures SpeedRows(rows, speakers).Err? ==>
              exists f :: 0 <= f < |rows| && SpeedColumns(rows[f], speakers) == Err(SpeedRows(rows, speakers).error)
                          && forall k :: 0 <= k < f ==> SpeedColumns(rows[k], speakers).Ok?
    decreases |rows|
  {
    if |rows| > 0 {
      var init := rows[..|rows| - 1];
      SpeedRowsPerRow(init, speakers);
      assert forall k :: 0 <= k < |init| ==> init[k] == rows[k];
      if SpeedRows(init, speakers).Ok? && SpeedColumns(rows[|rows| - 1], speakers).Err? {
        var f := |rows| - 1;
        assert SpeedColumns(rows[f], speakers) == Err(SpeedRows(rows, speakers).error);
      }
    }
  }

  /** A failure in the first rows stops the whole file with that failure. */
  lemma {:induction false} SpeedRowsStopAtError(rows: seq<SpeakerRow>, n: nat, speakers: Speakers)
    requires n <= |rows| && SpeedRows(rows[..n], speakers).Err?
    ensures SpeedRows(rows, speakers) == SpeedRows(rows[..n], speakers)
    decreases |rows|
  {
    if n < |rows| {
      var init := rows[..|rows| - 1];
      assert init[..n] == rows[..n];
      SpeedRowsStopAtError(init, n, speakers);
    } else {
      assert rows[..n] == rows;
    }
  }

  /** The body of the loop of `add_speed_columns_with_speakers`: the
      speaker looked up, the default speaker when the name is missing, the
      floor scan over the symbol durations and the speed at its index. */
  method SpeedColumnsOf(row: SpeakerRow, speakers: Speakers) returns (r: Result<SpeedRow, SpeedError>)
    ensures r == SpeedColumns(row, speakers)
  {
    var symbolDuration := row.symbolDuration;
    var speakerName := row.speaker;
    var speaker: Voice;
    match Lookup(speakers, speakerName) {
      case Ok(v) =>
        speaker := v;
      case Err(UnknownSpeaker(_)) =>
        speakerName := speakers.defaultName;
        match Lookup(speakers, speakerName) {
          case Ok(v) =>
            speaker := v;
          case Err(e) =>
            return Err(e);
        }
      case Err(e) =>
        return Err(e);
    }
    assert ResolveSpeaker(speakers, row.speaker) == Ok((speakerName, speaker));
    if speaker.table.None? {
      return Err(NoSpeedTable(speakerName));
    }
    var table := speaker.table.value;
    if |table.symbolDurations| == 0 {
      return Err(EmptySpeedTable(speakerName));
    }
    var closestDuration, index := FindClosestFromFloorValueIndex(symbolDuration, table.symbolDurations);
    if index >= |table.speeds| {
      return Err(SpeedIndexOutOfRange(speakerName, index));
    }
    var closestSpeed := table.speeds[index];
    r := Ok(SpeedRow(row.number, row.startTime, row.endTime, row.duration, row.symbolDuration,
                     closestDuration, closestSpeed, speakerName, row.text));
  }

  /** The loop of `add_speed_columns_with_speakers`: the rows in order, until
      the first that fails. */
  method AddSpeedColumns(rows: seq<SpeakerRow>, speakers: Speakers) returns (r: Result<seq<SpeedRow>, SpeedError>)
    ensures r == SpeedRows(rows, speakers)
  {
    var out: seq<SpeedRow> := [];
    for n := 0 to |rows|
      invariant SpeedRows(rows[..n], speakers) == Ok(out)
    {
      var columns := SpeedColumnsOf(rows[n], speakers);
      assert rows[..n + 1][..n] == rows[..n];
      if columns.Err? {
        SpeedRowsStopAtError(rows, n + 1, speakers);
        return Err(columns.error);
      }
      out := out + [columns.value];
    }
    assert rows[..|rows|] == rows;
    r := Ok(out);
  }
}
