/** ECMAScript `String.prototype.split` with the pattern `/\r?\n/`, the
    splitter the line segmenter applies to each combined chunk.

    The pattern never matches the empty string, so the split scans from left
    to right and cuts at the leftmost match: a `'\n'`, or a `'\r'` that is
    immediately followed by a `'\n'` (the optional `\r` is taken greedily).
    A `'\r'` that is not followed by `'\n'` is ordinary text. */
module LineSplit {

  /** True when `s` holds no line feed. */
  predicate NoLineFeed(s: string) {
    forall i | 0 <= i < |s| :: s[i] != '\n'
  }

  /** The number of line feeds in `s`. */
  function CountLineFeeds(s: string): nat {
    if s == [] then 0 else (if s[0] == '\n' then 1 else 0) + CountLineFeeds(s[1..])
  }

  lemma {:induction false} NoLineFeedCount(s: string)
    ensures NoLineFeed(s) <==> CountLineFeeds(s) == 0
  {
    if s != [] {
      NoLineFeedCount(s[1..]);
      assert NoLineFeed(s) <==> s[0] != '\n' && NoLineFeed(s[1..]) by {
        if s[0] != '\n' && NoLineFeed(s[1..]) {
          forall i | 0 <= i < |s| ensures s[i] != '\n' {
            if i > 0 { assert s[i] == s[1..][i - 1]; }
          }
        }
      }
    }
  }

  /** `t` is the text after the last line feed of `s`: a suffix of `s` with
      no line feed that is either all of `s` or preceded by a line feed. */
  predicate IsTail(s: string, t: string) {
    && |t| <= |s|
    && t == s[|s| - |t|..]
    && NoLineFeed(t)
    && (|t| < |s| ==> s[|s| - |t| - 1] == '\n')
  }

  function Last(pieces: seq<string>): string
    requires |pieces| >= 1
  {
    pieces[|pieces| - 1]
  }

  /** `AllButLast(pieces)` is `pieces.slice(0, -1)`. */
  function AllButLast(pieces: seq<string>): seq<string>
    requires |pieces| >= 1
  {
    pieces[..|pieces| - 1]
  }

  /** The pieces of `s.split(/\r?\n/)`: one more piece than `s` has line
      feeds (see `SplitPieces` and `SplitTail` for what the pieces hold). */
  function Split(s: string): (pieces: seq<string>)
    ensures |pieces| == CountLineFeeds(s) + 1
    decreases |s|
  {
    if s == [] then [""]
    else if s[0] == '\n' then [""] + Split(s[1..])
    else if |s| >= 2 && s[0] == '\r' && s[1] == '\n' then
      assert s[1..][1..] == s[2..];
      [""] + Split(s[2..])
    else
      PrependChar(s[0], Split(s[1..]))
  }

  /** Glues `c` to the front of the first piece. */
  function PrependChar(c: char, pieces: seq<string>): seq<string>
    requires |pieces| >= 1
  {
    [[c] + pieces[0]] + pieces[1..]
  }

  /** Gluing a character to the first piece leaves a later last piece
      alone. */
  lemma LastPrependChar(c: char, pieces: seq<string>)
    requires |pieces| >= 2
    ensures Last(PrependChar(c, pieces)) == Last(pieces)
  {
    assert PrependChar(c, pieces)[|pieces| - 1] == pieces[1..][|pieces| - 2];
  }

  /** No piece holds a line feed, and text without a terminator is one
      piece, the text itself. */
  lemma {:induction false} SplitPieces(s: string)
    ensures forall k | 0 <= k < |Split(s)| :: NoLineFeed(Split(s)[k])
    ensures |Split(s)| == 1 ==> Split(s)[0] == s
    decreases |s|
  {
    if s == [] {
    } else if s[0] == '\n' {
      SplitPieces(s[1..]);
      assert Split(s)[1..] == Split(s[1..]);
    } else if |s| >= 2 && s[0] == '\r' && s[1] == '\n' {
      SplitPieces(s[2..]);
      assert Split(s)[1..] == Split(s[2..]);
    } else {
      SplitPieces(s[1..]);
      var rest := Split(s[1..]);
      var first := [s[0]] + rest[0];
      assert NoLineFeed(first) by {
        forall i | 0 <= i < |first| ensures first[i] != '\n' {
          if i > 0 { assert first[i] == rest[0][i - 1]; }
        }
      }
      assert Split(s)[1..] == rest[1..];
      if |rest| == 1 { assert first == s; }
    }
  }

  /** The last piece, the new remainder of the segmenter, is the text after
      the last line feed. */
  lemma {:induction false} SplitTail(s: string)
    ensures IsTail(s, Last(Split(s)))
    decreases |s|
  {
    if s == [] {
    } else if s[0] == '\n' || (|s| >= 2 && s[0] == '\r' && s[1] == '\n') {
      var n := if s[0] == '\n' then 1 else 2;
      SplitTail(s[n..]);
      SplitTailTerminator(s, n);
    } else {
      SplitTail(s[1..]);
      SplitTailChar(s);
    }
  }

  /** The inductive step of `SplitTail` when `s` starts with a terminator
      of length `n`: the last piece is that of the text after it. */
  lemma SplitTailTerminator(s: string, n: nat)
    requires 1 <= n <= 2 && n <= |s|
    requires n == 1 ==> s[0] == '\n'
    requires n == 2 ==> s[0] == '\r' && s[1] == '\n'
    requires IsTail(s[n..], Last(Split(s[n..])))
    ensures IsTail(s, Last(Split(s)))
  {
    SplitLeadingTerminator(s, n);
    assert Last(Split(s)) == Last(Split(s[n..]));
    TailOfLonger(s, n, Last(Split(s[n..])));
  }

  /** The inductive step of `SplitTail` when `s` starts with a character
      that begins no terminator. */
  lemma SplitTailChar(s: string)
    requires |s| >= 1 && s[0] != '\n' && !(|s| >= 2 && s[0] == '\r' && s[1] == '\n')
    requires IsTail(s[1..], Last(Split(s[1..])))
    ensures IsTail(s, Last(Split(s)))
  {
    var rest := Split(s[1..]);
    assert Split(s) == PrependChar(s[0], rest);
    if |rest| == 1 {
      SplitPieces(s);
      assert Last(Split(s)) == s;
    } else {
      LastPrependChar(s[0], rest);
      NoLineFeedCount(s[1..]);
      assert Last(rest) != s[1..];
      TailOfLonger(s, 1, Last(rest));
    }
  }

  /** The tail of a suffix that is preceded by a line feed, or is shorter
      than that suffix, is the tail of the whole text. */
  lemma TailOfLonger(s: string, n: nat, t: string)
    requires n <= |s|
    requires IsTail(s[n..], t)
    requires |t| < |s| - n || (n > 0 && s[n - 1] == '\n')
    ensures IsTail(s, t)
  {
    assert s[n..][|s| - n - |t|..] == s[|s| - |t|..];
    if |t| < |s| - n {
      assert s[|s| - |t| - 1] == s[n..][|s| - n - |t| - 1];
    }
  }

  /** The terminators `split` cut out of `s`, in order: each is `"\n"` or
      `"\r\n"`. `Split` drops them; `Join` puts them back. */
  function Terminators(s: string): (ts: seq<string>)
    ensures |ts| == CountLineFeeds(s)
    ensures forall k | 0 <= k < |ts| :: ts[k] == "\n" || ts[k] == "\r\n"
    decreases |s|
  {
    if s == [] then []
    else if s[0] == '\n' then ["\n"] + Terminators(s[1..])
    else if |s| >= 2 && s[0] == '\r' && s[1] == '\n' then
      assert s[1..][1..] == s[2..];
      ["\r\n"] + Terminators(s[2..])
    else Terminators(s[1..])
  }

  /** Interleaves pieces with the terminators between them. */
  function Join(pieces: seq<string>, ts: seq<string>): string
    requires |pieces| == |ts| + 1
    decreases |ts|
  {
    if ts == [] then pieces[0] else pieces[0] + ts[0] + Join(pieces[1..], ts[1..])
  }

  /** `lines.join("\n")`. */
  function JoinLF(lines: seq<string>): string
    requires |lines| >= 1
    decreases |lines|
  {
    if |lines| == 1 then lines[0] else lines[0] + "\n" + JoinLF(lines[1..])
  }

  /** `s` with every `"\r\n"` replaced by `"\n"`, scanning left to right. */
  function NormalizeTerminators(s: string): string
    decreases |s|
  {
    if s == [] then []
    else if |s| >= 2 && s[0] == '\r' && s[1] == '\n' then "\n" + NormalizeTerminators(s[2..])
    else [s[0]] + NormalizeTerminators(s[1..])
  }

  /** Pieces and terminators that `split` could have produced: no piece
      holds a line feed, each terminator is `"\n"` or `"\r\n"`, and a piece
      followed by a bare `"\n"` does not end in `'\r'` (the regex would have
      taken that `'\r'` into the terminator). */
  predicate WellFormed(pieces: seq<string>, ts: seq<string>) {
    && |pieces| == |ts| + 1
    && (forall k | 0 <= k < |pieces| :: NoLineFeed(pieces[k]))
    && (forall k | 0 <= k < |ts| :: ts[k] == "\n" || ts[k] == "\r\n")
    && (forall k | 0 <= k < |ts| ::
          ts[k] == "\n" && |pieces[k]| > 0 ==> pieces[k][|pieces[k]| - 1] != '\r')
  }

  /** Rejoining the pieces with the terminators `split` removed gives back
      the original text exactly. */
  lemma {:induction false} JoinSplit(s: string)
    ensures Join(Split(s), Terminators(s)) == s
    decreases |s|
  {
    if s == [] {
    } else if s[0] == '\n' || (|s| >= 2 && s[0] == '\r' && s[1] == '\n') {
      var n := if s[0] == '\n' then 1 else 2;
      JoinSplit(s[n..]);
      JoinSplitTerminator(s, n);
    } else {
      JoinSplit(s[1..]);
      JoinSplitChar(s);
    }
  }

  /** The inductive step of `JoinSplit` when `s` starts with a terminator
      of length `n`: an empty piece, that terminator, then the rest. */
  lemma JoinSplitTerminator(s: string, n: nat)
    requires 1 <= n <= 2 && n <= |s|
    requires n == 1 ==> s[0] == '\n'
    requires n == 2 ==> s[0] == '\r' && s[1] == '\n'
    requires Join(Split(s[n..]), Terminators(s[n..])) == s[n..]
    ensures Join(Split(s), Terminators(s)) == s
  {
    var t := if n == 1 then "\n" else "\r\n";
    SplitLeadingTerminator(s, n);
    assert n == 2 ==> s[1..][1..] == s[2..];
    assert Terminators(s) == [t] + Terminators(s[n..]);
    assert Split(s)[1..] == Split(s[n..]);
    assert s == "" + t + s[n..];
  }

  /** The inductive step of `JoinSplit` when `s` starts with a character
      that begins no terminator: it is glued to the first piece. */
  lemma JoinSplitChar(s: string)
    requires |s| >= 1 && s[0] != '\n' && !(|s| >= 2 && s[0] == '\r' && s[1] == '\n')
    requires Join(Split(s[1..]), Terminators(s[1..])) == s[1..]
    ensures Join(Split(s), Terminators(s)) == s
  {
    assert Split(s) == PrependChar(s[0], Split(s[1..]));
    assert Terminators(s) == Terminators(s[1..]);
    JoinPrependChar(s[0], Split(s[1..]), Terminators(s[1..]));
    assert s == [s[0]] + s[1..];
  }

  lemma {:induction false} JoinPrependChar(c: char, pieces: seq<string>, ts: seq<string>)
    requires |pieces| == |ts| + 1
    ensures Join(PrependChar(c, pieces), ts) == [c] + Join(pieces, ts)
  {
    if ts != [] {
      assert PrependChar(c, pieces)[1..] == pieces[1..];
    }
  }

  /** Concatenation is associative; stated once so that proofs over long
      concatenations need not rediscover it. */
  lemma AppendAssoc<T>(a: seq<T>, b: seq<T>, c: seq<T>)
    ensures a + (b + c) == (a + b) + c
  {
  }

  lemma LastSplitOff(pieces: seq<string>)
    requires |pieces| >= 1
    ensures AllButLast(pieces) + [Last(pieces)] == pieces
    ensures forall front, last :: front + [last] == pieces ==> front == AllButLast(pieces) && last == Last(pieces)
  {
    forall front, last | front + [last] == pieces
      ensures front == AllButLast(pieces) && last == Last(pieces)
    {
      assert |front| == |pieces| - 1;
      assert front == (front + [last])[..|front|];
    }
  }

  /** Splitting a piece, a terminator and further text yields the piece
      followed by the pieces of the further text. */
  lemma {:induction false} SplitPiece(p: string, t: string, rest: string)
    requires NoLineFeed(p)
    requires t == "\n" || t == "\r\n"
    requires t == "\n" && |p| > 0 ==> p[|p| - 1] != '\r'
    ensures Split(p + t + rest) == [p] + Split(rest)
    ensures Terminators(p + t + rest) == [t] + Terminators(rest)
    decreases |p|
  {
    var s := p + t + rest;
    if p == [] {
      if t == "\n" {
        assert s[1..] == rest;
      } else {
        assert s[2..] == rest;
      }
    } else {
      assert s[0] == p[0] != '\n';
      assert !(|s| >= 2 && s[0] == '\r' && s[1] == '\n') by {
        if |p| == 1 { assert s[1] == t[0]; }
        else { assert s[1] == p[1] != '\n'; }
      }
      assert s[1..] == p[1..] + t + rest;
      SplitPiece(p[1..], t, rest);
      assert [p[0]] + p[1..] == p;
    }
  }

  /** Text built from well-formed pieces and terminators splits back into
      exactly those pieces and terminators. */
  lemma {:induction false} SplitJoin(pieces: seq<string>, ts: seq<string>)
    requires WellFormed(pieces, ts)
    ensures Split(Join(pieces, ts)) == pieces
    ensures Terminators(Join(pieces, ts)) == ts
    decreases |ts|
  {
    if ts == [] {
      NoLineFeedCount(pieces[0]);
      SplitPieces(pieces[0]);
    } else {
      assert WellFormed(pieces[1..], ts[1..]) by {
        forall k | 0 <= k < |ts| - 1
          ensures ts[1..][k] == "\n" && |pieces[1..][k]| > 0 ==> pieces[1..][k][|pieces[1..][k]| - 1] != '\r'
        {
          assert ts[1..][k] == ts[k + 1] && pieces[1..][k] == pieces[k + 1];
        }
      }
      SplitJoin(pieces[1..], ts[1..]);
      SplitPiece(pieces[0], ts[0], Join(pieces[1..], ts[1..]));
      assert [pieces[0]] + pieces[1..] == pieces;
      assert [ts[0]] + ts[1..] == ts;
    }
  }

  /** The pieces and terminators `split` produces are well formed, so
      together with `JoinSplit` and `SplitJoin` splitting is a bijection
      between texts and well-formed decompositions. */
  lemma {:induction false} SplitWellFormed(s: string)
    ensures WellFormed(Split(s), Terminators(s))
    decreases |s|
  {
    if s == [] {
    } else if s[0] == '\n' {
      SplitWellFormed(s[1..]);
      ConsEmptyWellFormed(Split(s[1..]), Terminators(s[1..]), "\n");
    } else if |s| >= 2 && s[0] == '\r' && s[1] == '\n' {
      SplitWellFormed(s[2..]);
      assert s[1..][1..] == s[2..];
      ConsEmptyWellFormed(Split(s[2..]), Terminators(s[2..]), "\r\n");
    } else {
      SplitWellFormed(s[1..]);
      JoinSplit(s[1..]);
      PrependWellFormed(s[0], Split(s[1..]), Terminators(s[1..]), s[1..]);
    }
  }

  /** A leading terminator adds an empty piece in front. */
  lemma ConsEmptyWellFormed(pieces: seq<string>, ts: seq<string>, t: string)
    requires WellFormed(pieces, ts)
    requires t == "\n" || t == "\r\n"
    ensures WellFormed([""] + pieces, [t] + ts)
  {
    var ps, ts' := [""] + pieces, [t] + ts;
    forall k | 1 <= k < |ps| ensures ps[k] == pieces[k - 1] { }
    forall k | 1 <= k < |ts'| ensures ts'[k] == ts[k - 1] { }
  }

  /** A character that starts no terminator joins the first piece; a
      `'\r'` can do so only when the text after it does not start with a
      line feed. */
  lemma PrependWellFormed(c: char, pieces: seq<string>, ts: seq<string>, rest: string)
    requires WellFormed(pieces, ts)
    requires Join(pieces, ts) == rest
    requires c != '\n'
    requires c == '\r' ==> rest == "" || rest[0] != '\n'
    ensures WellFormed(PrependChar(c, pieces), ts)
  {
    var ps := PrependChar(c, pieces);
    var first := [c] + pieces[0];
    assert NoLineFeed(first) by {
      forall i | 0 <= i < |first| ensures first[i] != '\n' {
        if i > 0 { assert first[i] == pieces[0][i - 1]; }
      }
    }
    if ts != [] && ts[0] == "\n" {
      if pieces[0] == "" {
        assert rest == "" + "\n" + Join(pieces[1..], ts[1..]);
      } else {
        assert first[|first| - 1] == pieces[0][|pieces[0]| - 1];
      }
    }
    forall k | 1 <= k < |ps| ensures ps[k] == pieces[k] { }
  }

  /** Splitting `a + b` is splitting `a`, keeping its complete pieces, and
      splitting its tail together with `b`: a `"\r\n"` cut between `a` and
      `b` is still one terminator. */
  lemma {:induction false} SplitAppend(a: string, b: string)
    ensures Split(a + b) == AllButLast(Split(a)) + Split(Last(Split(a)) + b)
    decreases |a|
  {
    if a == [] {
      assert a + b == b;
    } else if a[0] == '\n' || (|a| >= 2 && a[0] == '\r' && a[1] == '\n') {
      var n := if a[0] == '\n' then 1 else 2;
      SplitAppend(a[n..], b);
      SplitAppendTerminator(a, b, n);
    } else if |Split(a[1..])| == 1 {
      SplitPieces(a);
    } else {
      SplitAppend(a[1..], b);
      SplitAppendChar(a, b);
    }
  }

  /** A text that starts with a terminator of length `n` splits into an
      empty first piece and the pieces of what follows. */
  lemma SplitLeadingTerminator(s: string, n: nat)
    requires 1 <= n <= 2 && n <= |s|
    requires n == 1 ==> s[0] == '\n'
    requires n == 2 ==> s[0] == '\r' && s[1] == '\n'
    ensures Split(s) == [""] + Split(s[n..])
  {
  }

  /** The inductive step of `SplitAppend` when `a` starts with a terminator
      of length `n`. */
  lemma SplitAppendTerminator(a: string, b: string, n: nat)
    requires 1 <= n <= 2 && n <= |a|
    requires n == 1 ==> a[0] == '\n'
    requires n == 2 ==> a[0] == '\r' && a[1] == '\n'
    requires Split(a[n..] + b) == AllButLast(Split(a[n..])) + Split(Last(Split(a[n..])) + b)
    ensures Split(a + b) == AllButLast(Split(a)) + Split(Last(Split(a)) + b)
  {
    assert (a + b)[n..] == a[n..] + b;
    SplitLeadingTerminator(a + b, n);
    SplitLeadingTerminator(a, n);
    ConsPiece(Split(a + b), Split(a), Split(a[n..]), Split(Last(Split(a[n..])) + b));
  }

  /** With an empty piece put in front of both sides, a split that keeps
      all but the last piece and continues with `tail` is still one. */
  lemma ConsPiece(whole: seq<string>, front: seq<string>, pieces: seq<string>, tail: seq<string>)
    requires |pieces| >= 1
    requires front == [""] + pieces
    requires whole == [""] + (AllButLast(pieces) + tail)
    ensures |front| >= 1 && Last(front) == Last(pieces)
    ensures whole == AllButLast(front) + tail
  {
    assert AllButLast(front) == [""] + AllButLast(pieces);
  }

  /** The inductive step of `SplitAppend` when `a` starts with a character
      that begins no terminator and its rest holds a line feed. */
  lemma SplitAppendChar(a: string, b: string)
    requires |a| >= 1 && a[0] != '\n' && !(|a| >= 2 && a[0] == '\r' && a[1] == '\n')
    requires |Split(a[1..])| > 1
    requires Split(a[1..] + b) == AllButLast(Split(a[1..])) + Split(Last(Split(a[1..])) + b)
    ensures Split(a + b) == AllButLast(Split(a)) + Split(Last(Split(a)) + b)
  {
    var s := a + b;
    var rest := Split(a[1..]);
    var tail := Split(Last(rest) + b);
    assert s[0] == a[0] && s[1..] == a[1..] + b;
    assert |a| >= 2 && s[1] == a[1];
    assert Split(s) == PrependChar(a[0], AllButLast(rest) + tail);
    assert Split(a) == PrependChar(a[0], rest);
    PrependCharAppend(a[0], AllButLast(rest), tail);
    AllButLastPrependChar(a[0], rest);
    LastPrependChar(a[0], rest);
  }

  lemma PrependCharAppend(c: char, pieces: seq<string>, more: seq<string>)
    requires |pieces| >= 1
    ensures PrependChar(c, pieces + more) == PrependChar(c, pieces) + more
  {
    assert (pieces + more)[1..] == pieces[1..] + more;
  }

  lemma AllButLastPrependChar(c: char, pieces: seq<string>)
    requires |pieces| >= 2
    ensures AllButLast(PrependChar(c, pieces)) == PrependChar(c, AllButLast(pieces))
  {
    assert AllButLast(pieces)[1..] == pieces[1..][..|pieces| - 2];
  }

  /** Rejoining the pieces with `"\n"` gives the text with every `"\r\n"`
      terminator normalised to `"\n"`. */
  lemma {:induction false} JoinLFSplit(s: string)
    ensures JoinLF(Split(s)) == NormalizeTerminators(s)
    decreases |s|
  {
    if s == [] {
    } else if s[0] == '\n' {
      JoinLFSplit(s[1..]);
      assert Split(s)[1..] == Split(s[1..]);
      assert NormalizeTerminators(s) == [s[0]] + NormalizeTerminators(s[1..]);
    } else if |s| >= 2 && s[0] == '\r' && s[1] == '\n' {
      JoinLFSplit(s[2..]);
      assert Split(s)[1..] == Split(s[2..]);
    } else {
      JoinLFSplit(s[1..]);
      var rest := Split(s[1..]);
      assert NormalizeTerminators(s) == [s[0]] + JoinLF(rest);
      if |rest| > 1 {
        assert PrependChar(s[0], rest)[1..] == rest[1..];
      }
    }
  }

  /** Appending one more line to a `"\n"`-joined list. */
  lemma {:induction false} JoinLFSnoc(lines: seq<string>, line: string)
    requires |lines| >= 1
    ensures JoinLF(lines + [line]) == JoinLF(lines) + "\n" + line
    decreases |lines|
  {
    if |lines| > 1 {
      assert (lines + [line])[1..] == lines[1..] + [line];
      JoinLFSnoc(lines[1..], line);
    }
  }
}
