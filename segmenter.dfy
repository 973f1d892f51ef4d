/** `stringsToLinesRx`: text chunks cut at arbitrary points become logical
    lines. A synthetic `"\n"` chunk is appended at the end of the stream; a
    `scan` threads an accumulator of `{lines, remainder}` through the chunks,
    each step splitting the carried remainder plus the new chunk on
    `/\r?\n/`; an ordered flatten emits every step's lines. */
module LineSegmenter {
  import opened LineSplit

  /** The fold state: the lines completed by the latest step, and the text
      after the last terminator seen so far. */
  datatype Accumulator = Accumulator(lines: seq<string>, remainder: string)

  /** The seed of the scan: no lines, empty remainder. */
  const Seed := Accumulator([], "")

  /** The synthetic chunk appended when the stream completes. */
  const Flush := "\n"

  /** The text of a sequence of chunks. */
  function Concat(chunks: seq<string>): string
    decreases |chunks|
  {
    if chunks == [] then "" else chunks[0] + Concat(chunks[1..])
  }

  /** One `scan` step: the pieces of the carried remainder plus the new
      chunk are the completed lines followed by the new remainder; lines and
      remainder hold no line feed, the remainder is the text after the last
      line feed, and putting the terminators back rebuilds the input. */
  function Step(last: Accumulator, curr: string): (next: Accumulator)
    ensures next.lines + [next.remainder] == Split(last.remainder + curr)
    ensures forall k | 0 <= k < |next.lines| :: NoLineFeed(next.lines[k])
    ensures IsTail(last.remainder + curr, next.remainder)
    ensures Join(next.lines + [next.remainder], Terminators(last.remainder + curr))
            == last.remainder + curr
  {
    var combined := last.remainder + curr;
    var parts := Split(combined);
    SplitPieces(combined);
    SplitTail(combined);
    JoinSplit(combined);
    LastSplitOff(parts);
    Accumulator(AllButLast(parts), Last(parts))
  }

  /** The accumulators `scan` emits, one per chunk, in arrival order. */
  function Scan(acc: Accumulator, chunks: seq<string>): (states: seq<Accumulator>)
    ensures |states| == |chunks|
    decreases |chunks|
  {
    if chunks == [] then [] else
      var next := Step(acc, chunks[0]);
      [next] + Scan(next, chunks[1..])
  }

  /** The accumulator after every chunk has been folded in. */
  function Fold(acc: Accumulator, chunks: seq<string>): Accumulator
    decreases |chunks|
  {
    if chunks == [] then acc else Fold(Step(acc, chunks[0]), chunks[1..])
  }

  /** The flatten invents nothing: each line it emits is a line of some
      accumulator. */
  lemma {:induction false} FlattenOnlyStateLines(states: seq<Accumulator>, l: string)
    requires l in FlattenLines(states)
    ensures exists k | 0 <= k < |states| :: l in states[k].lines
    decreases |states|
  {
    if l !in states[0].lines {
      FlattenOnlyStateLines(states[1..], l);
      var k :| 0 <= k < |states[1..]| && l in states[1..][k].lines;
      assert states[1..][k] == states[k + 1];
    }
  }

  /** The fold's final state is the last accumulator the scan emits. */
  lemma {:induction false} FoldIsLastScan(acc: Accumulator, chunks: seq<string>)
    requires chunks != []
    ensures Fold(acc, chunks) == Scan(acc, chunks)[|chunks| - 1]
    decreases |chunks|
  {
    if |chunks| > 1 {
      FoldIsLastScan(Step(acc, chunks[0]), chunks[1..]);
    }
  }

  /** `concatMap(emit => emit.lines)`: each state's lines, state by state.
      The first state's lines come first; `FlattenAppend` gives the order
      in full, `FlattenKeepsStateLines` and `FlattenOnlyStateLines` the
      contents. */
  function FlattenLines(states: seq<Accumulator>): (lines: seq<string>)
    ensures states != [] ==> states[0].lines <= lines
    decreases |states|
  {
    if states == [] then [] else states[0].lines + FlattenLines(states[1..])
  }

  /** The flatten loses nothing: each line of each accumulator is emitted. */
  lemma {:induction false} FlattenKeepsStateLines(states: seq<Accumulator>, k: nat, l: string)
    requires k < |states| && l in states[k].lines
    ensures l in FlattenLines(states)
    decreases |states|
  {
    if k > 0 {
      assert states[1..][k - 1] == states[k];
      FlattenKeepsStateLines(states[1..], k - 1, l);
    }
  }

  /** The lines `stringsToLinesRx` emits for a stream that completes after
      `chunks`: all but the last piece of the whole text, plus the synthetic
      line feed, split on `/\r?\n/`. */
  function StringsToLines(chunks: seq<string>): (lines: seq<string>)
    ensures lines == AllButLast(Split(Concat(chunks) + Flush))
    ensures |lines| == CountLineFeeds(Concat(chunks)) + 1
  {
    ConcatAppend(chunks, [Flush]);
    assert Concat([Flush]) == Flush;
    assert "" + Concat(chunks + [Flush]) == Concat(chunks) + Flush;
    CountLineFeedsAppend(Concat(chunks), Flush);
    ScanSplits(Seed, chunks + [Flush]);
    FlattenLines(Scan(Seed, chunks + [Flush]))
  }

  /** How the source stream ended. */
  datatype Completion<E> = Completed | Failed(error: E)

  /** What the segmenter delivers: lines, then the same terminal event. */
  datatype Emission<E> = Emission(lines: seq<string>, end: Completion<E>)

  /** `stringsToLinesRx` on a stream that delivered `chunks` and then ended.
      `concat` subscribes to the synthetic `"\n"` only after a normal
      completion, so on a failure the pending remainder is never emitted. */
  function LinesOfStream<E>(chunks: seq<string>, end: Completion<E>): (out: Emission<E>)
    ensures out.end == end
    ensures end.Completed? ==> out.lines == AllButLast(Split(Concat(chunks) + Flush))
    ensures end.Failed? ==> out.lines == AllButLast(Split(Concat(chunks)))
  {
    match end
    case Completed => Emission(StringsToLines(chunks), end)
    case Failed(_) =>
      ScanSplits(Seed, chunks);
      assert "" + Concat(chunks) == Concat(chunks);
      LastSplitOff(Split(Concat(chunks)));
      Emission(FlattenLines(Scan(Seed, chunks)), end)
  }

  /** Drops one `'\r'` at the very end. */
  function DropTrailingCR(s: string): string {
    if |s| > 0 && s[|s| - 1] == '\r' then s[..|s| - 1] else s
  }

  lemma {:induction false} ConcatAppend(c1: seq<string>, c2: seq<string>)
    ensures Concat(c1 + c2) == Concat(c1) + Concat(c2)
    decreases |c1|
  {
    if c1 == [] {
      assert c1 + c2 == c2;
    } else {
      assert (c1 + c2)[1..] == c1[1..] + c2;
      ConcatAppend(c1[1..], c2);
    }
  }

  lemma {:induction false} CountLineFeedsAppend(a: string, b: string)
    ensures CountLineFeeds(a + b) == CountLineFeeds(a) + CountLineFeeds(b)
    decreases |a|
  {
    if a == [] {
      assert a + b == b;
    } else {
      assert (a + b)[1..] == a[1..] + b;
      CountLineFeedsAppend(a[1..], b);
    }
  }

  /** The remainder invariant: the lines emitted so far, followed by the
      carried remainder, are exactly the pieces of the seed's remainder plus
      all the text received. */
  lemma {:induction false} ScanSplits(acc: Accumulator, chunks: seq<string>)
    requires NoLineFeed(acc.remainder)
    ensures FlattenLines(Scan(acc, chunks)) + [Fold(acc, chunks).remainder]
            == Split(acc.remainder + Concat(chunks))
    decreases |chunks|
  {
    if chunks == [] {
      NoLineFeedCount(acc.remainder);
      SplitPieces(acc.remainder);
      assert acc.remainder + Concat(chunks) == acc.remainder;
    } else {
      var next := Step(acc, chunks[0]);
      ScanSplits(next, chunks[1..]);
      ScanSplitsStep(acc, chunks);
    }
  }

  /** The inductive step of `ScanSplits`. */
  lemma ScanSplitsStep(acc: Accumulator, chunks: seq<string>)
    requires chunks != []
    requires var next := Step(acc, chunks[0]);
      FlattenLines(Scan(next, chunks[1..])) + [Fold(next, chunks[1..]).remainder]
      == Split(next.remainder + Concat(chunks[1..]))
    ensures FlattenLines(Scan(acc, chunks)) + [Fold(acc, chunks).remainder]
            == Split(acc.remainder + Concat(chunks))
  {
    var next := Step(acc, chunks[0]);
    var rest := chunks[1..];
    var combined := acc.remainder + chunks[0];
    ScanUnfold(acc, chunks);
    AppendAssoc(next.lines, FlattenLines(Scan(next, rest)), [Fold(next, rest).remainder]);
    AppendAssoc(acc.remainder, chunks[0], Concat(rest));
    SplitAppend(combined, Concat(rest));
  }

  lemma ScanUnfold(acc: Accumulator, chunks: seq<string>)
    requires chunks != []
    ensures var next := Step(acc, chunks[0]);
      && FlattenLines(Scan(acc, chunks)) == next.lines + FlattenLines(Scan(next, chunks[1..]))
      && Fold(acc, chunks) == Fold(next, chunks[1..])
  {
    assert Scan(acc, chunks)[1..] == Scan(Step(acc, chunks[0]), chunks[1..]);
  }

  /** Between chunks, the lines emitted so far rejoined with the
      terminators that were cut out, then the remainder, then the chunks not
      yet received, rebuild the whole text exactly. */
  lemma Reconstructs(received: seq<string>, pending: seq<string>)
    ensures |FlattenLines(Scan(Seed, received))| == CountLineFeeds(Concat(received))
    ensures Join(FlattenLines(Scan(Seed, received)) + [Fold(Seed, received).remainder],
                 Terminators(Concat(received)))
            + Concat(pending)
            == Concat(received + pending)
  {
    ScanSplits(Seed, received);
    assert "" + Concat(received) == Concat(received);
    JoinSplit(Concat(received));
    ConcatAppend(received, pending);
  }

  /** The output depends only on the text, not on where it was cut into
      chunks (a `"\r\n"` cut in two included). */
  lemma ChunkingInvariant(c1: seq<string>, c2: seq<string>)
    requires Concat(c1) == Concat(c2)
    ensures StringsToLines(c1) == StringsToLines(c2)
  {
  }

  lemma {:induction false} ScanAppend(acc: Accumulator, c1: seq<string>, c2: seq<string>)
    ensures Scan(acc, c1 + c2) == Scan(acc, c1) + Scan(Fold(acc, c1), c2)
    decreases |c1|
  {
    if c1 == [] {
      assert c1 + c2 == c2;
    } else {
      assert (c1 + c2)[1..] == c1[1..] + c2;
      ScanAppend(Step(acc, c1[0]), c1[1..], c2);
    }
  }

  lemma {:induction false} FlattenAppend(s1: seq<Accumulator>, s2: seq<Accumulator>)
    ensures FlattenLines(s1 + s2) == FlattenLines(s1) + FlattenLines(s2)
    decreases |s1|
  {
    if s1 == [] {
      assert s1 + s2 == s2;
    } else {
      assert (s1 + s2)[1..] == s1[1..] + s2;
      FlattenAppend(s1[1..], s2);
    }
  }

  /** Lines come out in chunk-arrival order: the lines emitted for the
      chunks received first are followed by those of the later chunks, and
      what has been emitted is never taken back. */
  lemma ArrivalOrder(c1: seq<string>, c2: seq<string>)
    ensures FlattenLines(Scan(Seed, c1 + c2))
            == FlattenLines(Scan(Seed, c1)) + FlattenLines(Scan(Fold(Seed, c1), c2))
    ensures FlattenLines(Scan(Seed, c1)) <= StringsToLines(c1 + c2)
  {
    ScanFlattenAppend(Seed, c1, c2);
    EmittedIsPrefix(c1, c2);
  }

  /** The lines emitted for the first chunks are a prefix of the output. */
  lemma EmittedIsPrefix(c1: seq<string>, c2: seq<string>)
    ensures FlattenLines(Scan(Seed, c1)) <= StringsToLines(c1 + c2)
  {
    assert c1 + c2 + [Flush] == c1 + (c2 + [Flush]);
    ScanFlattenAppend(Seed, c1, c2 + [Flush]);
    var rest := FlattenLines(Scan(Fold(Seed, c1), c2 + [Flush]));
    assert StringsToLines(c1 + c2) == FlattenLines(Scan(Seed, c1 + c2 + [Flush]));
    assert StringsToLines(c1 + c2) == FlattenLines(Scan(Seed, c1)) + rest;
  }

  /** The lines of a scan over `c1 + c2` are those over `c1`, then those
      over `c2` continued from where `c1` left off. */
  lemma ScanFlattenAppend(acc: Accumulator, c1: seq<string>, c2: seq<string>)
    ensures FlattenLines(Scan(acc, c1 + c2))
            == FlattenLines(Scan(acc, c1)) + FlattenLines(Scan(Fold(acc, c1), c2))
  {
    ScanAppend(acc, c1, c2);
    FlattenAppend(Scan(acc, c1), Scan(Fold(acc, c1), c2));
  }

  /** No emitted line holds a line feed, and there is one more line than
      the text has line feeds, so the output is never empty and a lone
      `'\r'` never adds a line. */
  lemma LineCount(chunks: seq<string>)
    ensures |StringsToLines(chunks)| == CountLineFeeds(Concat(chunks)) + 1
    ensures forall k | 0 <= k < |StringsToLines(chunks)| :: NoLineFeed(StringsToLines(chunks)[k])
  {
    var text := Concat(chunks);
    CountLineFeedsAppend(text, Flush);
    SplitPieces(text + Flush);
  }

  /** The last line is the text after the last line feed of the real text,
      less one trailing `'\r'` (which pairs with the synthetic `"\n"`); the
      lines before it are the complete lines of the real text. */
  lemma FinalLine(chunks: seq<string>)
    ensures StringsToLines(chunks)
            == AllButLast(Split(Concat(chunks))) + [DropTrailingCR(Last(Split(Concat(chunks))))]
  {
    var text := Concat(chunks);
    var front := AllButLast(Split(text));
    var last := DropTrailingCR(Last(Split(text)));
    SplitFlushed(text);
    assert AllButLast(front + [last, ""]) == front + [last];
  }

  /** The pieces of the text plus the synthetic `"\n"`: the complete lines,
      the tail less a trailing `'\r'`, and an empty piece. */
  lemma SplitFlushed(text: string)
    ensures Split(text + Flush)
            == AllButLast(Split(text)) + [DropTrailingCR(Last(Split(text))), ""]
  {
    var tail := Last(Split(text));
    SplitAppend(text, Flush);
    SplitTail(text);
    FlushTail(tail);
  }

  /** The synthetic `"\n"` terminates the last remainder, taking a trailing
      `'\r'` with it. */
  lemma FlushTail(tail: string)
    requires NoLineFeed(tail)
    ensures Split(tail + Flush) == [DropTrailingCR(tail), ""]
  {
    if |tail| > 0 && tail[|tail| - 1] == '\r' {
      var p := tail[..|tail| - 1];
      assert NoLineFeed(p) by {
        forall i | 0 <= i < |p| ensures p[i] != '\n' { assert p[i] == tail[i]; }
      }
      assert tail + Flush == p + "\r\n" + "";
      SplitPiece(p, "\r\n", "");
    } else {
      assert tail + Flush == tail + "\n" + "";
      SplitPiece(tail, "\n", "");
    }
  }

  /** A failure loses exactly the pending remainder: the lines of a stream
      that fails are those of the same stream completing, minus its last. */
  lemma FailureDropsRemainder<E>(chunks: seq<string>, e: E)
    ensures LinesOfStream<E>(chunks, Completed).lines
            == LinesOfStream(chunks, Failed(e)).lines + [DropTrailingCR(Fold(Seed, chunks).remainder)]
  {
    ScanSplits(Seed, chunks);
    assert "" + Concat(chunks) == Concat(chunks);
    FinalLine(chunks);
    var pieces := Split(Concat(chunks));
    assert FlattenLines(Scan(Seed, chunks)) == AllButLast(pieces);
  }

  /** Text without a line feed is one line: every `'\r'` in it is kept,
      except one at the very end, which pairs with the synthetic `"\n"`. */
  lemma LoneCarriageReturn(chunks: seq<string>)
    requires NoLineFeed(Concat(chunks))
    ensures StringsToLines(chunks) == [DropTrailingCR(Concat(chunks))]
  {
    FinalLine(chunks);
    NoLineFeedCount(Concat(chunks));
    SplitPieces(Concat(chunks));
  }

  lemma TailIsEmpty(s: string, t: string)
    requires IsTail(s, t)
    ensures t == "" <==> s == "" || s[|s| - 1] == '\n'
  {
    if t != "" && s != [] {
      assert t[|t| - 1] == s[|s| - 1];
    }
  }

  lemma TailIsCR(s: string, t: string)
    requires IsTail(s, t)
    ensures t == "\r" <==> s == "\r" || (|s| >= 2 && s[|s| - 2..] == "\n\r")
  {
    var n := |s|;
    if n >= 2 && s[n - 2..] == "\n\r" {
      assert s[n - 2] == s[n - 2..][0] && s[n - 1] == s[n - 2..][1];
      TailIsEmpty(s, t);
      assert forall i | 0 <= i < |t| :: t[i] == s[n - |t| + i];
      assert |t| == 1;
      assert t == s[n - 1..];
    }
    if t == "\r" && s != "\r" {
      assert |t| < n;
      assert s[n - 1] == t[0] && s[n - 2] == '\n';
      assert s[n - 2..] == [s[n - 2], s[n - 1]];
    }
  }

  /** The trailing-empty-line rule: the last line emitted is empty exactly
      when the text is empty or ends in a line feed, or its text after the
      last line feed is a single `'\r'`. A text ending in any other
      character ends with a non-empty line. */
  lemma LastLineEmpty(chunks: seq<string>)
    ensures var text := Concat(chunks);
      Last(StringsToLines(chunks)) == ""
      <==> text == "" || text[|text| - 1] == '\n' || text == "\r" || (|text| >= 2 && text[|text| - 2..] == "\n\r")
  {
    var text := Concat(chunks);
    LastLine(chunks);
    SplitTail(text);
    TailLineEmpty(text, Last(Split(text)));
  }

  /** The last line is the text after the last line feed, less one
      trailing `'\r'`. */
  lemma LastLine(chunks: seq<string>)
    ensures Last(StringsToLines(chunks)) == DropTrailingCR(Last(Split(Concat(chunks))))
  {
    FinalLine(chunks);
  }

  /** The tail of `s`, less one trailing `'\r'`, is empty exactly when `s`
      is empty or ends in a line feed, or its tail is a single `'\r'`. */
  lemma TailLineEmpty(s: string, t: string)
    requires IsTail(s, t)
    ensures DropTrailingCR(t) == ""
            <==> s == "" || s[|s| - 1] == '\n' || s == "\r" || (|s| >= 2 && s[|s| - 2..] == "\n\r")
  {
    TailIsEmpty(s, t);
    TailIsCR(s, t);
    if |t| > 0 && t[|t| - 1] == '\r' {
      assert DropTrailingCR(t) == t[..|t| - 1];
      assert |t| == 1 ==> t == [t[0]];
    }
  }

  /** `lines.join("\n")` followed by the synthetic line feed is the text
      plus that line feed with every `"\r\n"` normalised to `"\n"`. */
  lemma NormalisedRoundTrip(chunks: seq<string>)
    ensures JoinLF(StringsToLines(chunks)) + "\n" == NormalizeTerminators(Concat(chunks) + Flush)
  {
    var text := Concat(chunks) + Flush;
    var out := StringsToLines(chunks);
    assert text[|text| - 1] == '\n';
    SplitTail(text);
    TailIsEmpty(text, Last(Split(text)));
    LastSplitOff(Split(text));
    JoinLFSplit(text);
    JoinLFSnoc(out, "");
  }

  /** The output for a text given as well-formed pieces and terminators,
      the last terminator being the synthetic line feed. */
  lemma LinesFromPieces(chunks: seq<string>, pieces: seq<string>, ts: seq<string>)
    requires WellFormed(pieces, ts)
    requires Concat(chunks) + Flush == Join(pieces, ts)
    ensures StringsToLines(chunks) == AllButLast(pieces)
  {
    SplitJoin(pieces, ts);
  }

  /** Trailing-line rule: a text ending in a line feed yields a final empty
      line. */
  lemma TrailingNewlineExample()
    ensures StringsToLines(["a\nb\n"]) == ["a", "b", ""]
  {
    LinesFromPieces(["a\nb\n"], ["a", "b", "", ""], ["\n", "\n", "\n"]);
  }

  /** Trailing-line rule: a text not ending in a line feed yields no extra
      empty line. */
  lemma NoTrailingNewlineExample()
    ensures StringsToLines(["a\nb"]) == ["a", "b"]
  {
    LinesFromPieces(["a\nb"], ["a", "b", ""], ["\n", "\n"]);
  }

  /** Trailing-line rule: the empty text, and a stream with no chunks at
      all, yield one empty line. */
  lemma EmptyTextExample()
    ensures StringsToLines([""]) == [""]
    ensures StringsToLines([]) == [""]
  {
    LinesFromPieces([""], ["", ""], ["\n"]);
    LinesFromPieces([], ["", ""], ["\n"]);
  }

  /** A lone `'\r'` inside the text is kept in its line. */
  lemma LoneCarriageReturnInsideExample()
    ensures StringsToLines(["a\rb\n"]) == ["a\rb", ""]
  {
    assert Concat(["a\rb\n"]) == "a\rb" + "\n" + "";
    SplitPiece("a\rb", "\n", "");
    FinalLine(["a\rb\n"]);
  }

  /** A `'\r'` at the very end of the stream pairs with the synthetic
      `"\n"` and is dropped. */
  lemma LoneCarriageReturnAtEndExample()
    ensures StringsToLines(["a\r"]) == ["a"]
  {
    assert Concat(["a\r"]) == "a\r";
    LoneCarriageReturn(["a\r"]);
  }

  /** A `"\r\n"` cut between two chunks is still one terminator. */
  lemma SplitTerminatorExample()
    ensures StringsToLines(["a\r", "\nb"]) == StringsToLines(["a\r\nb"]) == ["a", "b"]
  {
    assert Concat(["a\r", "\nb"]) == Concat(["a\r\nb"]);
    LinesFromPieces(["a\r\nb"], ["a", "b", ""], ["\r\n", "\n"]);
  }

  /** The last value emitted is not always an empty string: a text that
      does not end in a line feed ends with its own last line. */
  lemma LastLineNotAlwaysEmpty()
    ensures StringsToLines(["a"]) == ["a"]
    ensures Last(StringsToLines(["a"])) != ""
  {
    assert Concat(["a"]) == "a";
    LoneCarriageReturn(["a"]);
  }
}
