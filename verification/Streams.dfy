/** Byte streams cut into lines. */
module Streams {
  newtype byte = x: int | 0 <= x < 256

  type Bytes = seq<byte>

  const NEWLINE: byte := 10
  const RETURN: byte := 13

  /** bytes.IndexByte(s, '\n'), with |s| for "not found". */
  method FindNewline(s: Bytes) returns (i: nat)
    ensures i <= |s| && NEWLINE !in s[..i] && (i < |s| ==> s[i] == NEWLINE)
  {
    i := 0;
    while i < |s| && s[i] != NEWLINE
      invariant i <= |s| && NEWLINE !in s[..i]
    {
      i := i + 1;
    }
  }

  // ---------------------------------------------------------------- reading a stream byte by byte

  /** The non-empty lines seen so far, and what has been read of the current one. */
  datatype Cut = Cut(lines: seq<Bytes>, rest: Bytes)

  function NewLine(line: Bytes): seq<Bytes> { if line == [] then [] else [line] }

  function Feed(c: Cut, b: byte): Cut {
    if b == NEWLINE then Cut(c.lines + NewLine(c.rest), []) else Cut(c.lines, c.rest + [b])
  }

  function FeedAll(c: Cut, s: Bytes): Cut {
    if s == [] then c else Feed(FeedAll(c, s[..|s| - 1]), s[|s| - 1])
  }

  lemma FeedSnoc(c: Cut, s: Bytes, b: byte)
    ensures FeedAll(c, s + [b]) == Feed(FeedAll(c, s), b)
  {
    assert (s + [b])[..|s|] == s;
  }

  /** Where the stream is cut makes no difference. */
  lemma {:induction false} FeedConcat(c: Cut, a: Bytes, b: Bytes)
    ensures FeedAll(c, a + b) == FeedAll(FeedAll(c, a), b)
    decreases |b|
  {
    if b == [] {
      assert a + b == a;
    } else {
      var init, last := b[..|b| - 1], b[|b| - 1];
      FeedConcat(c, a, init);
      FeedSnoc(c, a + init, last);
      assert a + b == (a + init) + [last];
    }
  }

  lemma {:induction false} FeedPart(c: Cut, s: Bytes)
    requires NEWLINE !in s
    ensures FeedAll(c, s) == Cut(c.lines, c.rest + s)
  {
    if s == [] {
      assert c.rest + s == c.rest;
    } else {
      var init, last := s[..|s| - 1], s[|s| - 1];
      FeedPart(c, init);
      assert s == init + [last];
      Reassociate(c.rest, init, [last]);
    }
  }

  lemma FeedLine(lines: seq<Bytes>, line: Bytes, tail: Bytes)
    requires NEWLINE !in line
    ensures FeedAll(Cut(lines, []), line + [NEWLINE] + tail) == FeedAll(Cut(lines + NewLine(line), []), tail)
  {
    FeedPart(Cut(lines, []), line);
    assert [] + line == line;
    FeedSnoc(Cut(lines, []), line, NEWLINE);
    FeedConcat(Cut(lines, []), line + [NEWLINE], tail);
  }

  lemma Reassociate(a: Bytes, b: Bytes, c: Bytes)
    ensures a + (b + c) == (a + b) + c
  {
  }

  // ---------------------------------------------------------------- what the lines of a stream are

  const START := Cut([], [])

  function Unlines(lines: seq<Bytes>): Bytes {
    if lines == [] then [] else Unlines(lines[..|lines| - 1]) + (lines[|lines| - 1] + [NEWLINE])
  }

  ghost predicate NoNewlines(lines: seq<Bytes>) { forall k :: 0 <= k < |lines| ==> NEWLINE !in lines[k] }

  function NonEmpty(lines: seq<Bytes>): seq<Bytes> {
    if lines == [] then [] else NonEmpty(lines[..|lines| - 1]) + NewLine(lines[|lines| - 1])
  }

  lemma UnlinesSnoc(lines: seq<Bytes>, line: Bytes)
    ensures Unlines(lines + [line]) == Unlines(lines) + (line + [NEWLINE])
    ensures NonEmpty(lines + [line]) == NonEmpty(lines) + NewLine(line)
  {
    assert (lines + [line])[..|lines|] == lines;
  }

  lemma {:induction false} WholeLines(lines: seq<Bytes>)
    requires NoNewlines(lines)
    ensures FeedAll(START, Unlines(lines)) == Cut(NonEmpty(lines), [])
  {
    if lines == [] {
    } else {
      var init, last := lines[..|lines| - 1], lines[|lines| - 1];
      WholeLines(init);
      FeedConcat(START, Unlines(init), last + [NEWLINE]);
      FeedLine(NonEmpty(init), last, []);
      assert last + [NEWLINE] + [] == last + [NEWLINE];
    }
  }

  /** Newline-free lines, each ended by a newline, and a newline-free rest: reading them yields the
      lines that are not empty, and the rest. */
  lemma ReadsLines(lines: seq<Bytes>, rest: Bytes)
    requires NoNewlines(lines) && NEWLINE !in rest
    ensures FeedAll(START, Unlines(lines) + rest) == Cut(NonEmpty(lines), rest)
  {
    WholeLines(lines);
    FeedConcat(START, Unlines(lines), rest);
    FeedPart(Cut(NonEmpty(lines), []), rest);
    assert [] + rest == rest;
  }

  /** The lines that count are those with something in them, as often as they come. */
  lemma {:induction false} NonEmptyCount(lines: seq<Bytes>, line: Bytes)
    ensures multiset(NonEmpty(lines))[line] == if line == [] then 0 else multiset(lines)[line]
  {
    if lines != [] {
      var init, last := lines[..|lines| - 1], lines[|lines| - 1];
      NonEmptyCount(init, line);
      assert lines == init + [last];
    }
  }

  /** Reading only ever adds lines, none of them empty and none with a newline in it. */
  lemma {:induction false} LinesAdded(c: Cut, s: Bytes)
    requires 10 !in c.rest
    ensures var d := FeedAll(c, s); 10 !in d.rest && c.lines <= d.lines
    ensures forall k :: |c.lines| <= k < |FeedAll(c, s).lines| ==> FeedAll(c, s).lines[k] != [] && 10 !in FeedAll(c, s).lines[k]
  {
    if s != [] { LinesAdded(c, s[..|s| - 1]); }
  }

  /** Every stream is made up like that. */
  lemma {:induction false} MadeOfLines(s: Bytes) returns (lines: seq<Bytes>, rest: Bytes)
    ensures NoNewlines(lines) && NEWLINE !in rest && s == Unlines(lines) + rest
  {
    if s == [] {
      lines, rest := [], [];
    } else {
      var init, last := s[..|s| - 1], s[|s| - 1];
      lines, rest := MadeOfLines(init);
      assert s == init + [last];
      if last == NEWLINE {
        Reassociate(Unlines(lines), rest, [NEWLINE]);
        UnlinesSnoc(lines, rest);
        lines, rest := lines + [rest], [];
        assert Unlines(lines) + [] == Unlines(lines);
      } else {
        Reassociate(Unlines(lines), rest, [last]);
        rest := rest + [last];
      }
    }
  }

  /** The whole stream that a sequence of writes makes up. */
  function Joined(chunks: seq<Bytes>): Bytes {
    if chunks == [] then [] else Joined(chunks[..|chunks| - 1]) + chunks[|chunks| - 1]
  }

  lemma JoinedSnoc(chunks: seq<Bytes>, i: nat)
    requires i < |chunks|
    ensures Joined(chunks[..i + 1]) == Joined(chunks[..i]) + chunks[i]
  {
    assert chunks[..i + 1][..i] == chunks[..i];
  }
}
