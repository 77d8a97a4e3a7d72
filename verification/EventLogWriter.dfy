/** internal/core/eventlog_writer.go: a writer that calls back once per line. */
module EventLogWriter {
  import opened Streams

  /** bytes.TrimRight(s, "\r\n"). */
  function TrimLineEnd(s: Bytes): Bytes {
    if s != [] && (s[|s| - 1] == NEWLINE || s[|s| - 1] == RETURN) then TrimLineEnd(s[..|s| - 1]) else s
  }

  /** What is trimmed off is newlines and returns, and none of them is left at the end. */
  lemma {:induction false} TrimmedEnd(s: Bytes)
    ensures TrimLineEnd(s) <= s && forall k :: |TrimLineEnd(s)| <= k < |s| ==> s[k] == 10 || s[k] == 13
    ensures TrimLineEnd(s) != [] ==> TrimLineEnd(s)[|TrimLineEnd(s)| - 1] != 10 && TrimLineEnd(s)[|TrimLineEnd(s)| - 1] != 13
  {
    if s != [] && (s[|s| - 1] == NEWLINE || s[|s| - 1] == RETURN) { TrimmedEnd(s[..|s| - 1]); }
  }

  /** What has been called back once the writer is flushed: the rest is trimmed at its end. */
  function Flushed(c: Cut): seq<Bytes> { c.lines + NewLine(TrimLineEnd(c.rest)) }

  class LineWriter {
    const hasCallback: bool
    var buf: Bytes
    /** The lines called back so far. */
    var lines: seq<Bytes>

    ghost predicate Valid()
      reads this
    {
      NEWLINE !in buf
    }

    constructor (hasCallback: bool)
      ensures Valid() && this.hasCallback == hasCallback && buf == [] && lines == []
    {
      this.hasCallback, buf, lines := hasCallback, [], [];
    }

    method Write(p: Bytes) returns (n: nat)
      requires Valid()
      modifies this
      ensures Valid() && n == |p|
      ensures Cut(lines, buf) == if hasCallback then FeedAll(Cut(old(lines), old(buf)), p) else Cut(old(lines), old(buf))
      ensures old(lines) <= lines && forall k :: |old(lines)| <= k < |lines| ==> lines[k] != [] && 10 !in lines[k]
    {
      if !hasCallback { return |p|; }
      Continue(lines, buf, p);
      LinesAdded(Cut(lines, buf), p);
      ghost var c := FeedAll(Cut(lines, buf), p);
      buf := buf + p;
      while true
        invariant FeedAll(Cut(lines, []), buf) == c
        decreases |buf|
      {
        var i := FindNewline(buf);
        if i == |buf| { break; }
        var line := buf[..i];
        assert buf == line + [NEWLINE] + buf[i + 1..];
        FeedLine(lines, line, buf[i + 1..]);
        assert lines + NewLine(line) == if line == [] then lines else lines + [line];
        buf := buf[i + 1..];
        if line != [] { lines := lines + [line]; }
      }
      assert buf[..|buf|] == buf;
      FeedPart(Cut(lines, []), buf);
      return |p|;
    }

    method Flush()
      requires Valid()
      modifies this
      ensures Valid()
      ensures hasCallback ==> buf == [] && lines == Flushed(Cut(old(lines), old(buf)))
      ensures !hasCallback ==> buf == old(buf) && lines == old(lines)
    {
      if !hasCallback || |buf| == 0 { return; }
      var line := TrimLineEnd(buf);
      buf := [];
      if line != [] { lines := lines + [line]; }
    }

    /** However a stream is cut into writes, the callbacks are the same as for the whole stream. */
    method WriteAll(chunks: seq<Bytes>)
      requires Valid() && hasCallback
      modifies this
      ensures Valid() && buf == []
      ensures lines == Flushed(FeedAll(Cut(old(lines), old(buf)), Joined(chunks)))
    {
      for k := 0 to |chunks|
        invariant Valid() && Cut(lines, buf) == FeedAll(Cut(old(lines), old(buf)), Joined(chunks[..k]))
      {
        var _ := Write(chunks[k]);
        JoinedSnoc(chunks, k);
        FeedConcat(Cut(old(lines), old(buf)), Joined(chunks[..k]), chunks[k]);
      }
      assert chunks[..|chunks|] == chunks;
      Flush();
    }
  }

  /** Appending to the buffer and reading on are the same thing. */
  lemma Continue(lines: seq<Bytes>, buf: Bytes, p: Bytes)
    requires NEWLINE !in buf
    ensures FeedAll(Cut(lines, []), buf + p) == FeedAll(Cut(lines, buf), p)
  {
    FeedConcat(Cut(lines, []), buf, p);
    FeedPart(Cut(lines, []), buf);
    assert [] + buf == buf;
  }

  /** The callbacks for a whole stream: its non-empty lines, then the rest without trailing returns. */
  lemma CallbacksAreLines(lines: seq<Bytes>, rest: Bytes)
    requires NoNewlines(lines) && NEWLINE !in rest
    ensures Flushed(FeedAll(START, Unlines(lines) + rest)) == NonEmpty(lines) + if TrimLineEnd(rest) == [] then [] else [TrimLineEnd(rest)]
  {
    ReadsLines(lines, rest);
  }
}
