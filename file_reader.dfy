/** The two small decisions of `fileReader.ts` around the segmenter: which
    transforms `prepareFileStream` pipes the file through, and whether
    `streamFileLineByLineRx` emits a final empty line when its line reader
    closes. */
module FileReader {
  import opened LineSplit
  import opened LineSegmenter

  /** A transform of the pipe chain. The transforms themselves (gunzip and
      the charset decoder) are foreign; only their identity and order are
      modelled. */
  datatype Stage = Gunzip | Decode(encoding: string)

  /** `filename.match(/\.gz$/i)`: a dot, then `g` and `z` in either case, at
      the very end of the name; that is, the name ends in one of the four
      spellings of `.gz`. */
  function HasGzSuffix(filename: string): (matches: bool)
    ensures matches <==> |filename| >= 3 && filename[|filename| - 3..] in {".gz", ".gZ", ".Gz", ".GZ"}
  {
    var n := |filename|;
    if n < 3 then false else
      assert filename[n - 3..] == [filename[n - 3], filename[n - 2], filename[n - 1]];
      && filename[n - 3] == '.'
      && (filename[n - 2] == 'g' || filename[n - 2] == 'G')
      && (filename[n - 1] == 'z' || filename[n - 1] == 'Z')
  }

  function LowerAscii(c: char): char {
    if 'A' <= c <= 'Z' then (c as int + 32) as char else c
  }

  function Lower(s: string): string {
    seq(|s|, i requires 0 <= i < |s| => LowerAscii(s[i]))
  }

  /** The suffix test is case-insensitive: it holds exactly when the
      lower-cased name ends in `.gz`. */
  lemma GzSuffixIgnoresCase(filename: string)
    ensures HasGzSuffix(filename) <==> |filename| >= 3 && Lower(filename)[|filename| - 3..] == ".gz"
    ensures HasGzSuffix(filename) <==> HasGzSuffix(Lower(filename))
  {
    var n := |filename|;
    if n >= 3 {
      var l := Lower(filename);
      assert l[n - 3..] == [l[n - 3], l[n - 2], l[n - 1]];
    }
  }

  /** The pipes `prepareFileStream` builds: a gunzip stage first exactly
      when the name ends in `.gz` in any case, then the decoder, which is
      always present, always last and never repeated. */
  function PipeStages(filename: string, encoding: string): (stages: seq<Stage>)
    ensures |stages| >= 1 && stages[|stages| - 1] == Decode(encoding)
    ensures forall k | 0 <= k < |stages| - 1 :: stages[k] == Gunzip
    ensures Gunzip in stages <==> HasGzSuffix(filename)
    ensures |stages| <= 2
  {
    var pipes := if HasGzSuffix(filename) then [Gunzip] else [];
    pipes + [Decode(encoding)]
  }

  /** The initial value of `data`, kept when no chunk arrives. */
  const NoData := "."

  /** The `'data'` handler run over the chunks in order: each event
      overwrites `data`, so the last chunk wins, and with no event `data`
      keeps its value. */
  function AfterData(data: string, chunks: seq<string>): (last: string)
    ensures chunks == [] ==> last == data
    ensures chunks != [] ==> last == chunks[|chunks| - 1]
    decreases |chunks|
  {
    if chunks == [] then data else AfterData(chunks[0], chunks[1..])
  }

  /** The value of `data` once the stream has ended: the last chunk, or the
      sentinel when no chunk arrived. */
  function LastData(chunks: seq<string>): (data: string)
    ensures chunks == [] ==> data == NoData
    ensures chunks != [] ==> data == chunks[|chunks| - 1]
  {
    AfterData(NoData, chunks)
  }

  /** The regex `/(?:(?:\r?\n)|(?:\r))$/` matches at `p` and runs to the end. */
  predicate TerminatorAt(data: string, p: nat)
    requires p <= |data|
  {
    data[p..] == "\r\n" || data[p..] == "\n" || data[p..] == "\r"
  }

  /** True exactly when `data` ends in `'\n'` or `'\r'`. */
  predicate EndsWithLineBreak(data: string) {
    |data| > 0 && (data[|data| - 1] == '\n' || data[|data| - 1] == '\r')
  }

  /** `data.match(/(?:(?:\r?\n)|(?:\r))$/)` as the regex reads: some
      alternative matches from some position to the end of `data`. This
      agrees with the last-character test on every string. */
  function MatchesLineBreakRegex(data: string): (matches: bool)
    ensures matches <==> EndsWithLineBreak(data)
  {
    TerminatorAtEnd(data);
    exists p | 0 <= p <= |data| :: TerminatorAt(data, p)
  }

  /** The last character alone is a match, and every match ends the data
      with a line feed or a carriage return. */
  lemma TerminatorAtEnd(data: string)
    ensures EndsWithLineBreak(data) ==> TerminatorAt(data, |data| - 1)
    ensures forall p | 0 <= p <= |data| && TerminatorAt(data, p) :: EndsWithLineBreak(data)
  {
    var n := |data|;
    forall p | 0 <= p <= n && TerminatorAt(data, p) ensures EndsWithLineBreak(data) {
      assert data[p..][|data[p..]| - 1] == data[n - 1];
    }
  }

  /** `fnComplete`: whether `streamFileLineByLineRx` emits one more empty
      line after the line reader closes. With no data the sentinel `'.'`
      keeps that line back; otherwise the regex decides on the last chunk
      alone. */
  function EmitsFinalEmptyLine(chunks: seq<string>): (emits: bool)
    ensures chunks == [] ==> !emits
    ensures chunks != [] ==> (emits <==> EndsWithLineBreak(chunks[|chunks| - 1]))
  {
    MatchesLineBreakRegex(LastData(chunks))
  }

  /** The text of the chunks ends with the last character of the last
      chunk, when that chunk is not empty. */
  lemma ConcatEndsWithLastChunk(chunks: seq<string>)
    requires chunks != [] && chunks[|chunks| - 1] != ""
    ensures var text := Concat(chunks); var last := chunks[|chunks| - 1];
      |text| > 0 && text[|text| - 1] == last[|last| - 1]
  {
    var front := chunks[..|chunks| - 1];
    var last := chunks[|chunks| - 1];
    assert chunks == front + [last];
    ConcatAppend(front, [last]);
    assert Concat([last]) == last;
  }

  /** When the last chunk ends in a line feed, both entry points end with an
      empty line. */
  lemma EntryPointsAgreeOnLineFeed(chunks: seq<string>)
    requires chunks != [] && |chunks[|chunks| - 1]| > 0
    requires chunks[|chunks| - 1][|chunks[|chunks| - 1]| - 1] == '\n'
    ensures EmitsFinalEmptyLine(chunks)
    ensures Last(StringsToLines(chunks)) == ""
  {
    ConcatEndsWithLastChunk(chunks);
    LastLineEmpty(chunks);
  }

  /** The text ends in a `'\r'` that is neither the whole text nor
      preceded by a line feed. */
  predicate EndsInBareCR(text: string) {
    |text| > 0 && text[|text| - 1] == '\r' && text != "\r" && !(|text| >= 2 && text[|text| - 2] == '\n')
  }

  /** Exactly where the end predicate and the segmenter's last line
      disagree, for a non-empty last chunk: when the text ends in a bare
      `'\r'` as `EndsInBareCR` puts it. */
  lemma AgreeUnlessBareCR(chunks: seq<string>)
    requires chunks != [] && chunks[|chunks| - 1] != ""
    ensures (EmitsFinalEmptyLine(chunks) <==> Last(StringsToLines(chunks)) == "")
            <==> !EndsInBareCR(Concat(chunks))
  {
    PredicateOnLastChar(chunks);
    LastLineOnLastChars(chunks);
  }

  /** For a non-empty last chunk the end predicate tests the last character
      of the whole text. */
  lemma PredicateOnLastChar(chunks: seq<string>)
    requires chunks != [] && chunks[|chunks| - 1] != ""
    ensures var text := Concat(chunks);
      && |text| > 0
      && (EmitsFinalEmptyLine(chunks) <==> text[|text| - 1] == '\n' || text[|text| - 1] == '\r')
  {
    ConcatEndsWithLastChunk(chunks);
  }

  /** `LastLineEmpty` for a non-empty text, stated on its last two
      characters. */
  lemma LastLineOnLastChars(chunks: seq<string>)
    requires |Concat(chunks)| > 0
    ensures var text := Concat(chunks); var n := |text|;
      Last(StringsToLines(chunks)) == ""
      <==> text[n - 1] == '\n' || (text[n - 1] == '\r' && (n == 1 || text[n - 2] == '\n'))
  {
    LastLineEmpty(chunks);
    EndsOnLastChars(Concat(chunks), Last(StringsToLines(chunks)) == "");
  }

  /** The end condition of `LastLineEmpty`, restated on the last two
      characters of a non-empty text. */
  lemma EndsOnLastChars(text: string, empty: bool)
    requires |text| > 0
    requires empty <==> text == "" || text[|text| - 1] == '\n' || text == "\r"
                        || (|text| >= 2 && text[|text| - 2..] == "\n\r")
    ensures var n := |text|;
      empty <==> text[n - 1] == '\n' || (text[n - 1] == '\r' && (n == 1 || text[n - 2] == '\n'))
  {
    var n := |text|;
    if n >= 2 {
      assert text[n - 2..] == [text[n - 2], text[n - 1]];
    }
  }

  /** Where the two entry points part: unlike the splitter, the end
      predicate counts a bare `'\r'` as a terminator, and it sees only the
      last chunk, so an empty last chunk, should the stream ever deliver
      one, hides a final line feed. */
  lemma EntryPointsDiverge()
    ensures EmitsFinalEmptyLine(["a\r"]) && StringsToLines(["a\r"]) == ["a"]
    ensures !EmitsFinalEmptyLine(["a\n", ""]) && Last(StringsToLines(["a\n", ""])) == ""
  {
    LoneCarriageReturnAtEndExample();
    assert Concat(["a\n", ""]) == "a\n";
    LastLineEmpty(["a\n", ""]);
  }
}
