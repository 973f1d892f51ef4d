# Line segmentation of text file streams (cspell-lib `fileReader.ts`)

This project models the core of `src/file/fileReader.ts`. It covers three things:

- **The line segmenter `stringsToLinesRx`.** Text arrives in chunks that can be cut anywhere. The segmenter appends a synthetic `"\n"` chunk when the stream completes. A `scan` carries `{lines, remainder}` from chunk to chunk: each step splits the old remainder plus the new chunk on `/\r?\n/`. All pieces but the last are emitted as lines, and the last piece becomes the new remainder. An ordered `concatMap` flattens the lines.
- **Stage selection in `prepareFileStream`.** The name decides whether a gunzip stage comes before the charset decoder.
- **The end predicate of `streamFileLineByLineRx`.** It decides whether one more empty line is emitted after the line reader closes.

The model has three modules, all pure:

- `LineSplit` (`line_split.dfy`) models ECMAScript `split(/\r?\n/)` as a left-to-right recursion. A `'\n'` always ends a piece. A `'\r'` ends a piece only when a `'\n'` follows it, and then the two form one terminator.
- `LineSegmenter` (`segmenter.dfy`) models the accumulator, the scan step, the scan, the fold, the flatten and the whole operator. It also models how a failed source stream ends: `concat` never reaches the synthetic `"\n"`, so the pending remainder is not emitted.
- `FileReader` (`file_reader.dfy`) models the stage list and the end-of-data predicate, and compares that predicate with the segmenter.

The main results:

- The output for chunks `cs` is all but the last piece of `split(concat(cs) + "\n")`. It therefore depends only on the text and not on the chunking, even when a `"\r\n"` is cut between two chunks.
- There is one line more than the text has line feeds, so the output is never empty.
- No line contains a line feed.
- Between chunks, the emitted lines rejoined with the terminators that were cut out, then the remainder, then the chunks still to come, rebuild the text exactly.

The doc comment at `fileReader.ts:15` says the last value emitted is always an empty string. The code does not do that, and the model follows the code. The last line is empty exactly when the text is empty, ends in `'\n'`, or its text after the last line feed (the whole text when there is none) is exactly `'\r'` (`LastLineEmpty`, `LastLineNotAlwaysEmpty`).

The two entry points are meant to be equivalent. Judged by the end predicate alone, and for a non-empty last chunk, they part exactly when the text ends in a `'\r'` that is neither the whole text nor preceded by `'\n'`, as in `"a\r"` (`AgreeUnlessBareCR`). If the stream ever delivered an empty last chunk, they could part on that too (`EntryPointsDiverge`).

## Model

| member | source | states |
|---|---|---|
| `LineSplit.Split` | src/file/fileReader.ts:80 | `split(/\r?\n/)` yields exactly one piece more than the text has line feeds |
| `LineSplit.SplitPieces` | src/file/fileReader.ts:80 | no piece contains `'\n'`; text with no line feed is a single piece, the text itself |
| `LineSplit.SplitTail` | src/file/fileReader.ts:80-82 | the last piece (the new remainder) is the text after the last line feed: a suffix with no `'\n'` that is the whole text or follows a `'\n'` |
| `LineSplit.JoinSplit` | src/file/fileReader.ts:80 | putting the removed terminators (`"\n"` or `"\r\n"`) back between the pieces rebuilds the text exactly |
| `LineSplit.SplitWellFormed` | src/file/fileReader.ts:80 | the pieces and terminators `split` produces are well formed (no `'\n'` in a piece, each terminator `"\n"` or `"\r\n"`, no `'\r'` left before a bare `"\n"`), so with `JoinSplit` and `SplitJoin` splitting is a bijection |
| `LineSplit.SplitJoin` | src/file/fileReader.ts:80 | the converse: text built from pieces and terminators that split could have produced splits back into exactly those pieces and terminators |
| `LineSplit.SplitPiece` | src/file/fileReader.ts:80 | a piece without `'\n'`, then a terminator, then more text: the split gives that piece first, then the pieces of the rest (a `'\r'` just before a bare `"\n"` excluded) |
| `LineSplit.SplitAppend` | src/file/fileReader.ts:79-82 | splitting `a + b` keeps the complete pieces of `a` and then splits `a`'s last piece together with `b`, so a `"\r\n"` cut between `a` and `b` is still one terminator |
| `LineSplit.JoinLFSplit` | src/file/fileReader.ts:80 | joining the pieces with `"\n"` gives the text with every `"\r\n"` normalised to `"\n"` |
| `LineSegmenter.Step` | src/file/fileReader.ts:79-84 | the step's lines followed by its remainder are the pieces of old remainder + chunk; no line contains `'\n'`; the remainder is the text after the last line feed; restoring the terminators rebuilds old remainder + chunk |
| `LineSegmenter.Scan` | src/file/fileReader.ts:79-84 | `scan` emits one accumulator per chunk (what they hold is stated by `ScanSplits`) |
| `LineSegmenter.FoldIsLastScan` | src/file/fileReader.ts:79-84 | the remainder carried after all chunks is the one in the last accumulator `scan` emits |
| `LineSegmenter.FlattenLines` | src/file/fileReader.ts:85 | `concatMap(emit => emit.lines)` emits the first accumulator's lines first (full order: `FlattenAppend`, `ArrivalOrder`; contents: `FlattenKeepsStateLines`, `FlattenOnlyStateLines`, `ScanSplits`) |
| `LineSegmenter.FlattenKeepsStateLines` | src/file/fileReader.ts:85 | every line of every accumulator is emitted |
| `LineSegmenter.FlattenOnlyStateLines` | src/file/fileReader.ts:85 | every emitted line is a line of some accumulator |
| `LineSegmenter.FlattenAppend` | src/file/fileReader.ts:85 | flattening two runs of accumulators gives the first run's lines, then the second's |
| `LineSegmenter.ScanSplits` | src/file/fileReader.ts:79-85 | remainder invariant: the flattened lines so far plus the carried remainder are exactly the pieces of the seed remainder plus all text received |
| `LineSegmenter.StringsToLines` | src/file/fileReader.ts:77-86 | whole-stream equation: the output is all but the last piece of `split(concat(chunks) + "\n")`, one line more than the text has line feeds (never empty) |
| `LineSegmenter.LinesOfStream` | src/file/fileReader.ts:77-86 | the terminal event passes through; on completion the lines follow the whole-stream equation, and on failure they are only the complete lines of the text received, with no flushed remainder |
| `LineSegmenter.Reconstructs` | src/file/fileReader.ts:79-84 | between chunks, the emitted lines rejoined with the removed terminators, then the remainder, then the pending chunks, rebuild the whole text |
| `LineSegmenter.ChunkingInvariant` | src/file/fileReader.ts:78-85 | two chunkings of the same text produce the same lines |
| `LineSegmenter.ArrivalOrder` | src/file/fileReader.ts:85 | lines come out in chunk-arrival order: the lines for earlier chunks come first, and lines already emitted are a prefix of the final output |
| `LineSegmenter.LineCount` | src/file/fileReader.ts:78-85 | one line more than the text has line feeds, and no line contains `'\n'` |
| `LineSegmenter.FinalLine` | src/file/fileReader.ts:78-83 | the output is the complete lines of the text plus its text after the last line feed, minus one trailing `'\r'` that pairs with the synthetic `"\n"` |
| `LineSegmenter.FailureDropsRemainder` | src/file/fileReader.ts:78 | a failing stream emits the lines of the same stream completing, minus the last one: the pending remainder |
| `LineSegmenter.LoneCarriageReturn` | src/file/fileReader.ts:80 | text with no line feed is one line, keeping every `'\r'` except one at the very end |
| `LineSegmenter.LastLineEmpty` | src/file/fileReader.ts:78-83 | trailing-line rule: the last line is empty iff the text is empty, ends in `'\n'`, is `"\r"`, or ends in `"\n\r"` |
| `LineSegmenter.NormalisedRoundTrip` | src/file/fileReader.ts:80-85 | the lines joined with `"\n"`, plus the flushing `"\n"`, equal text + `"\n"` with `"\r\n"` normalised to `"\n"` |
| `LineSegmenter.TrailingNewlineExample` | src/file/fileReader.ts:78-85 | `"a\nb\n"` gives `["a","b",""]` |
| `LineSegmenter.NoTrailingNewlineExample` | src/file/fileReader.ts:78-85 | `"a\nb"` gives `["a","b"]` |
| `LineSegmenter.EmptyTextExample` | src/file/fileReader.ts:78-85 | `""` and a stream with no chunks both give `[""]` |
| `LineSegmenter.LoneCarriageReturnInsideExample` | src/file/fileReader.ts:78-80 | `"a\rb\n"` gives `["a\rb",""]` |
| `LineSegmenter.LoneCarriageReturnAtEndExample` | src/file/fileReader.ts:78-80 | `"a\r"` gives `["a"]` |
| `LineSegmenter.SplitTerminatorExample` | src/file/fileReader.ts:78-85 | chunks `["a\r","\nb"]` and `["a\r\nb"]` both give `["a","b"]` |
| `LineSegmenter.LastLineNotAlwaysEmpty` | src/file/fileReader.ts:15 | against the doc comment: `"a"` gives `["a"]`, whose last value is not empty |
| `FileReader.HasGzSuffix` | src/file/fileReader.ts:29 | `/\.gz$/i` matches iff the name ends in `.gz`, `.gZ`, `.Gz` or `.GZ` (see also `GzSuffixIgnoresCase`) |
| `FileReader.PipeStages` | src/file/fileReader.ts:28-32 | the decoder for the given encoding is last and appears exactly once; a gunzip stage comes before it exactly when the name matches `/\.gz$/i`; nothing else |
| `FileReader.GzSuffixIgnoresCase` | src/file/fileReader.ts:29 | the suffix test holds iff the lower-cased name ends in `.gz`, and lower-casing the name does not change it |
| `FileReader.AfterData` | src/file/fileReader.ts:66 | the handler `d => data = d` run over the chunks leaves the last chunk in `data`, or the old value when no chunk arrived |
| `FileReader.LastData` | src/file/fileReader.ts:54-66 | `data` at the end is the sentinel `'.'` when no chunk arrived and otherwise the last chunk |
| `FileReader.MatchesLineBreakRegex` | src/file/fileReader.ts:59 | the regex `/(?:(?:\r?\n)\|(?:\r))$/`, read as a match from some position to the end, matches iff the data ends in `'\n'` or `'\r'` |
| `FileReader.EmitsFinalEmptyLine` | src/file/fileReader.ts:56-61 | `fnComplete` emits the extra empty line never when no data arrived (the sentinel `'.'`), and otherwise iff the last chunk ends in `'\n'` or `'\r'` |
| `FileReader.EntryPointsAgreeOnLineFeed` | src/file/fileReader.ts:56-61 | when the last chunk ends in `'\n'`, both entry points end with an empty line |
| `FileReader.AgreeUnlessBareCR` | src/file/fileReader.ts:56-61 | for a non-empty last chunk, the end predicate and an empty final segmenter line agree iff the text does not end in a `'\r'` that is neither the whole text nor preceded by `'\n'` |
| `FileReader.EntryPointsDiverge` | src/file/fileReader.ts:56-61 | `"a\r"`: the end predicate fires but the segmenter gives `["a"]`; chunks `["a\n",""]`: the predicate does not fire but the segmenter's last line is empty |

## Left out

- File I/O is not modelled: `fs.createReadStream`, the `pipe`/`reduce` wiring of the stages and the `'error'` handlers (fileReader.ts:33-35). Stages are tags only.
- Gunzip (RFC 1952) and `iconv.decodeStream` are foreign transforms, modelled only as the tags `Gunzip` and `Decode(encoding)`. Equivalence of compressed and plain input is therefore not stated.
- `readline.createInterface` and its own line splitting (fileReader.ts:68-73) are foreign. For `streamFileLineByLineRx` only the end predicate and the `data` variable are modelled.
- `textFileStreamRx`, `lineReaderRx` and `streamToStringRx` are not modelled, nor the `Subject`/`merge` error side channel and the `'end'`/`'close'` wiring (fileReader.ts:19-21, 39-45, 53-55, 72-74). Only the terminal event of the segmenter's input stream is modelled (`LinesOfStream`).
- Laziness, timing, cancellation and resource teardown are not modelled. The model returns the whole list of lines; streaming is stated as the prefix property in `ArrivalOrder`.
- The `defaultEncoding` constant (fileReader.ts:12) is plain configuration and is not modelled.
- Strings are sequences of characters. Chunks are the already-decoded text chunks, so byte-level and surrogate-pair splitting are not modelled.
- LineSegmenter.Scan: its own contract states only one accumulator per chunk; what they hold is proved in `ScanSplits`.
