/** internal/plugins/remote_command/remote_command.go: a writer that puts a prefix at each line start.

    What must come out is said byte by byte (`Prefixed`); the writer works piece by piece, a piece
    being what lies between two newlines.  Every write to the destination may fail; the destination
    modelled here takes a given number of bytes and then fails.  Besides what comes out, the proof
    follows the byte count that is returned with an error, which is the number of bytes that went
    out in all cases but one. */
module PrefixWriter {
  import opened Streams

  /** The output for `b`, byte by byte. */
  function Prefixed(prefix: Bytes, atStart: bool, b: Bytes): Bytes
    decreases |b|
  {
    if b == [] then []
    else (if atStart then prefix else []) + [b[0]] + Prefixed(prefix, b[0] == NEWLINE, b[1..])
  }

  /** Whether the stream stands at a line start after `b`. */
  function StartAfter(atStart: bool, b: Bytes): bool { if b == [] then atStart else b[|b| - 1] == NEWLINE }

  lemma {:induction false} PrefixedConcat(prefix: Bytes, atStart: bool, a: Bytes, b: Bytes)
    ensures Prefixed(prefix, atStart, a + b) == Prefixed(prefix, atStart, a) + Prefixed(prefix, StartAfter(atStart, a), b)
    decreases |a|
  {
    if a == [] {
      assert a + b == b;
    } else {
      var first := (if atStart then prefix else []) + [a[0]];
      PrefixedConcat(prefix, a[0] == NEWLINE, a[1..], b);
      assert (a + b)[1..] == a[1..] + b;
      Reassociate(first, Prefixed(prefix, a[0] == NEWLINE, a[1..]), Prefixed(prefix, StartAfter(atStart, a), b));
    }
  }

  /** A piece without a newline, except perhaps at its end, goes out as it is after its prefix. */
  lemma {:induction false} PrefixedPiece(prefix: Bytes, atStart: bool, a: Bytes)
    requires a != [] && NEWLINE !in a[..|a| - 1]
    ensures Prefixed(prefix, atStart, a) == (if atStart then prefix else []) + a
  {
    if |a| == 1 {
      assert a == [a[0]] && Prefixed(prefix, a[0] == NEWLINE, a[1..]) == [];
    } else {
      assert a[0] in a[..|a| - 1];
      assert a[1..][..|a| - 2] == a[..|a| - 1][1..];
      PrefixedPiece(prefix, false, a[1..]);
      assert a == [a[0]] + a[1..];
    }
  }

  /** How much goes out up to and including the w-th byte of such a piece. */
  lemma PieceLength(prefix: Bytes, atStart: bool, sent: Bytes, piece: Bytes, w: nat)
    requires w < |piece| && NEWLINE !in piece[..|piece| - 1]
    ensures |Prefixed(prefix, atStart, sent + piece[..w + 1])| ==
      |Prefixed(prefix, atStart, sent)| + (if StartAfter(atStart, sent) then |prefix| else 0) + w + 1
  {
    PrefixedConcat(prefix, atStart, sent, piece[..w + 1]);
    assert piece[..w + 1][..w] == piece[..|piece| - 1][..w];
    PrefixedPiece(prefix, StartAfter(atStart, sent), piece[..w + 1]);
  }

  /** The destination; it takes `room` more bytes and then fails. */
  class Sink {
    var content: Bytes
    var room: nat

    constructor (room: nat)
      ensures content == [] && this.room == room
    {
      content, this.room := [], room;
    }

    method Write(b: Bytes) returns (written: nat, ok: bool)
      modifies this
      ensures ok == (|b| <= old(room)) && written == if ok then |b| else old(room)
      ensures content == old(content) + b[..written] && room == old(room) - written
    {
      ok := |b| <= room;
      written := if ok then |b| else room;
      content, room := content + b[..written], room - written;
    }
  }

  /** Exactly n bytes of `b` go out, with their prefixes, when there is room for `room` bytes. */
  ghost predicate Counted(prefix: Bytes, atStart: bool, b: Bytes, room: nat, n: nat) {
    n < |b| && |Prefixed(prefix, atStart, b[..n])| <= room < |Prefixed(prefix, atStart, b[..n + 1])|
  }

  lemma PieceOut(prefix: Bytes, start: bool, sent: Bytes, piece: Bytes, rest: Bytes)
    requires piece != [] && NEWLINE !in piece[..|piece| - 1]
    ensures var head := Head(prefix, StartAfter(start, sent));
      && Prefixed(prefix, start, sent + piece) == Prefixed(prefix, start, sent) + (head + piece)
      && Prefixed(prefix, start, sent + piece) <= Prefixed(prefix, start, sent + (piece + rest))
    ensures StartAfter(start, sent + piece) == (piece[|piece| - 1] == NEWLINE)
  {
    PrefixedConcat(prefix, start, sent, piece);
    PrefixedPiece(prefix, StartAfter(start, sent), piece);
    PrefixedConcat(prefix, start, sent + piece, rest);
    Reassociate(sent, piece, rest);
  }

  lemma PieceOf(b0: Bytes, sent: Bytes, b: Bytes, i: nat, piece: Bytes)
    requires b0 == sent + b && b != [] && i <= |b| && NEWLINE !in b[..i] && (i < |b| ==> b[i] == NEWLINE)
    requires piece == if i < |b| then b[..i + 1] else b
    ensures piece != [] && NEWLINE !in piece[..|piece| - 1] && (piece[|piece| - 1] == NEWLINE <==> i < |b|)
    ensures sent + piece <= b0 && (i == |b| ==> sent + piece == b0 && Unterminated(b0))
    ensures i < |b| ==> b0 == (sent + piece) + b[i + 1..] && |sent + piece| == |sent| + i + 1
  {
    if i < |b| {
      assert piece[..|piece| - 1] == b[..i];
      assert b == piece + b[i + 1..];
    } else {
      assert b[..i] == b && b[|b| - 1] in b;
    }
  }

  ghost predicate Unterminated(b: Bytes) { b != [] && b[|b| - 1] != NEWLINE }

  lemma Cut(done: Bytes, more: Bytes, whole: Bytes, r: nat)
    requires done + more <= whole && r <= |more|
    ensures done + more[..r] == whole[..|done| + r]
  {
  }

  /** `b` has gone out whole: it fitted into the room there was. */
  ghost predicate Sent(prefix: Bytes, start: bool, b: Bytes, base: Bytes, room: nat, content: Bytes, left: nat) {
    content == base + Prefixed(prefix, start, b) && |Prefixed(prefix, start, b)| + left == room
  }

  /** `b` did not fit, and the destination took as much of its output as it could. */
  ghost predicate CutOff(prefix: Bytes, start: bool, b: Bytes, base: Bytes, room: nat, content: Bytes, left: nat) {
    room < |Prefixed(prefix, start, b)| && content == base + Prefixed(prefix, start, b)[..room] && left == 0
  }

  function Head(prefix: Bytes, atStart: bool): Bytes { if atStart then prefix else [] }

  lemma PieceSent(prefix: Bytes, start: bool, sent: Bytes, piece: Bytes, base: Bytes, room: nat, left: nat, content: Bytes, left': nat)
    requires piece != [] && NEWLINE !in piece[..|piece| - 1]
    requires |Prefixed(prefix, start, sent)| + left == room
    requires content == (base + Prefixed(prefix, start, sent)) + (Head(prefix, StartAfter(start, sent)) + piece)
    requires left' == left - |Head(prefix, StartAfter(start, sent)) + piece|
    ensures Sent(prefix, start, sent + piece, base, room, content, left')
    ensures StartAfter(start, sent + piece) == (piece[|piece| - 1] == NEWLINE)
  {
    PieceOut(prefix, start, sent, piece, []);
    Reassociate(base, Prefixed(prefix, start, sent), Head(prefix, StartAfter(start, sent)) + piece);
  }

  // ---------------------------------------------------------------- the count that comes with an error

  /** Where the last piece begins: behind the last newline. */
  ghost function LastStart(b: Bytes): nat {
    if b == [] || b[|b| - 1] == NEWLINE then |b| else LastStart(b[..|b| - 1])
  }

  lemma {:induction false} LastStartBound(b: Bytes, m: nat)
    requires m <= |b| && (m == 0 || b[m - 1] == NEWLINE)
    ensures m <= LastStart(b) <= |b|
  {
    if b != [] && b[|b| - 1] != NEWLINE { LastStartBound(b[..|b| - 1], m); }
  }

  lemma {:induction false} LastStartIs(a: Bytes, c: Bytes)
    requires AtPieceStart(a) && NEWLINE !in c
    ensures LastStart(a + c) == |a|
    decreases |c|
  {
    if c == [] {
      assert a + c == a;
    } else {
      LastStartIs(a, c[..|c| - 1]);
      assert (a + c)[..|a + c| - 1] == a + c[..|c| - 1];
      assert c[|c| - 1] in c;
    }
  }

  ghost predicate AtPieceStart(sent: Bytes) { sent == [] || sent[|sent| - 1] == NEWLINE }

  /** What comes before goes out, and the prefix of the next piece too. */
  ghost predicate Begins(prefix: Bytes, start: bool, before: Bytes, room: nat) {
    |Prefixed(prefix, start, before)| + |Head(prefix, StartAfter(start, before))| <= room
  }

  /** A last piece without newline begins, its prefix included, within the room there is. */
  ghost predicate OverCounts(prefix: Bytes, start: bool, b: Bytes, room: nat) {
    Unterminated(b) && LastStart(b) <= |b| && Begins(prefix, start, b[..LastStart(b)], room)
  }

  ghost predicate Reported(prefix: Bytes, start: bool, b: Bytes, room: nat, n: nat) {
    if OverCounts(prefix, start, b, room) then n == |b| else Counted(prefix, start, b, room, n)
  }

  lemma PrefixedGrows(prefix: Bytes, start: bool, b: Bytes, k: nat, l: nat)
    requires k <= l <= |b|
    ensures |Prefixed(prefix, start, b[..k])| <= |Prefixed(prefix, start, b[..l])|
  {
    assert b[..l] == b[..k] + b[k..l];
    PrefixedConcat(prefix, start, b[..k], b[k..l]);
  }

  /** The number of bytes that go out is unique. */
  lemma CountedUnique(prefix: Bytes, start: bool, b: Bytes, room: nat, n: nat, m: nat)
    requires Counted(prefix, start, b, room, n) && Counted(prefix, start, b, room, m)
    ensures n == m
  {
    if n < m { PrefixedGrows(prefix, start, b, n + 1, m); }
    if m < n { PrefixedGrows(prefix, start, b, m + 1, n); }
  }

  /** With an error the count is the number of bytes that went out exactly when the failure is not in
      an unterminated last piece. */
  lemma CountRightIff(prefix: Bytes, start: bool, b: Bytes, room: nat, n: nat)
    requires Reported(prefix, start, b, room, n)
    ensures Counted(prefix, start, b, room, n) <==> !OverCounts(prefix, start, b, room)
  {
  }

  /** "a", newline, "b" with a one-byte prefix and room for four bytes: the "b" does not go out, and
      three bytes are reported. */
  lemma WrongCount()
    ensures OverCounts([1], true, [97, 10, 98], 4)
    ensures Reported([1], true, [97, 10, 98], 4, 3)
    ensures Counted([1], true, [97, 10, 98], 4, 2)
  {
    var b: Bytes := [97, NEWLINE, 98];
    LastStartIs([97, NEWLINE], [98]);
    assert b == [97, NEWLINE] + [98] && b[..2] == [97, NEWLINE] && b[..3] == b;
    PrefixedPiece([1], true, [97, NEWLINE]);
    PrefixedPiece([1], true, [98]);
    PrefixedConcat([1], true, [97, NEWLINE], [98]);
  }

  /** A failure in the last piece, which has no newline. */
  lemma OverCountsLast(prefix: Bytes, start: bool, sent: Bytes, piece: Bytes, room: nat)
    requires AtPieceStart(sent) && piece != [] && NEWLINE !in piece
    ensures OverCounts(prefix, start, sent + piece, room) <==> Begins(prefix, start, sent, room)
  {
    LastStartIs(sent, piece);
    assert (sent + piece)[..|sent|] == sent;
    assert piece[|piece| - 1] in piece;
  }

  /** A failure before the end of a piece that has one: the last piece never begins. */
  lemma OverCountsEarlier(prefix: Bytes, start: bool, b0: Bytes, m: nat, room: nat)
    requires 0 < m <= |b0| && b0[m - 1] == NEWLINE && room < |Prefixed(prefix, start, b0[..m])|
    ensures !OverCounts(prefix, start, b0, room)
  {
    LastStartBound(b0, m);
    PrefixedGrows(prefix, start, b0, m, LastStart(b0));
  }

  /** What a piece that does not fit leaves in the destination. */
  lemma FailedOut(prefix: Bytes, start: bool, b0: Bytes, sent: Bytes, piece: Bytes, left: nat, base: Bytes, room: nat)
    requires sent + piece <= b0 && piece != [] && NEWLINE !in piece[..|piece| - 1]
    requires |Prefixed(prefix, start, sent)| + left == room && left < |Head(prefix, StartAfter(start, sent)) + piece|
    ensures CutOff(prefix, start, b0, base, room,
                   (base + Prefixed(prefix, start, sent)) + (Head(prefix, StartAfter(start, sent)) + piece)[..left], 0)
  {
    var out, done := Head(prefix, StartAfter(start, sent)) + piece, Prefixed(prefix, start, sent);
    var rest := b0[|sent + piece|..];
    assert b0 == sent + (piece + rest);
    PieceOut(prefix, start, sent, piece, rest);
    Cut(done, out, Prefixed(prefix, start, b0), left);
    Reassociate(base, done, out[..left]);
  }

  /** The state in which a write that does not fit leaves the destination, and the count. */
  lemma Failed(prefix: Bytes, start: bool, b0: Bytes, sent: Bytes, piece: Bytes, left: nat, written: nat, prefixed: bool,
               base: Bytes, room: nat, content: Bytes, n: nat)
    requires n == |sent| + written && sent + piece <= b0 && piece != [] && NEWLINE !in piece[..|piece| - 1]
    requires |Prefixed(prefix, start, sent)| + left == room
    requires var head := Head(prefix, StartAfter(start, sent));
      && left < |head + piece| && prefixed == (|head| <= left) && written == (if prefixed then left - |head| else 0)
      && content == (base + Prefixed(prefix, start, sent)) + (head + piece)[..left]
    ensures CutOff(prefix, start, b0, base, room, content, 0)
    ensures Counted(prefix, start, b0, room, n)
  {
    FailedOut(prefix, start, b0, sent, piece, left, base, room);
    WrittenCounted(prefix, start, b0, sent, piece, room, left, written);
  }

  lemma WrittenCounted(prefix: Bytes, start: bool, b0: Bytes, sent: Bytes, piece: Bytes, room: nat, left: nat, written: nat)
    requires sent + piece <= b0 && written < |piece| && NEWLINE !in piece[..|piece| - 1]
    requires |Prefixed(prefix, start, sent)| + left == room
    requires var head := |Head(prefix, StartAfter(start, sent))|; if head <= left then written == left - head else written == 0
    ensures Counted(prefix, start, b0, room, |sent| + written)
  {
    assert b0[..|sent| + written + 1] == sent + piece[..written + 1];
    assert b0[..|sent| + written] == sent + piece[..written];
    PieceLength(prefix, start, sent, piece, written);
    if written == 0 {
      assert sent + piece[..0] == sent;
    } else {
      PieceLength(prefix, start, sent, piece, written - 1);
    }
  }

  lemma FailedEarlier(prefix: Bytes, start: bool, b0: Bytes, sent: Bytes, piece: Bytes, left: nat, room: nat)
    requires sent + piece <= b0 && piece != [] && NEWLINE !in piece[..|piece| - 1] && piece[|piece| - 1] == NEWLINE
    requires |Prefixed(prefix, start, sent)| + left == room && left < |Head(prefix, StartAfter(start, sent)) + piece|
    ensures !OverCounts(prefix, start, b0, room)
  {
    var m := |sent + piece|;
    PieceOut(prefix, start, sent, piece, []);
    assert b0[..m] == sent + piece;
    assert b0[m - 1] == piece[|piece| - 1];
    OverCountsEarlier(prefix, start, b0, m, room);
  }

  lemma NoNewlineIn(piece: Bytes)
    requires piece != [] && NEWLINE !in piece[..|piece| - 1] && piece[|piece| - 1] != NEWLINE
    ensures NEWLINE !in piece
  {
    assert piece == piece[..|piece| - 1] + [piece[|piece| - 1]];
  }

  /** What is reported for it. */
  lemma FailedReport(prefix: Bytes, start: bool, b0: Bytes, sent: Bytes, piece: Bytes, left: nat, prefixed: bool,
                     room: nat, n: nat, last: bool)
    requires sent + piece <= b0 && piece != [] && NEWLINE !in piece[..|piece| - 1]
    requires AtPieceStart(sent) && (last ==> sent + piece == b0) && (piece[|piece| - 1] == NEWLINE <==> !last)
    requires |Prefixed(prefix, start, sent)| + left == room && left < |Head(prefix, StartAfter(start, sent)) + piece|
    requires prefixed == (|Head(prefix, StartAfter(start, sent))| <= left) && Counted(prefix, start, b0, room, n)
    ensures Reported(prefix, start, b0, room, if last && prefixed then |b0| else n)
  {
    if last {
      NoNewlineIn(piece);
      OverCountsLast(prefix, start, sent, piece, room);
    } else {
      FailedEarlier(prefix, start, b0, sent, piece, left, room);
    }
  }

  class PrefixWriter {
    const prefix: Bytes
    const dst: Sink
    var atLineStart: bool

    constructor (prefix: Bytes, dst: Sink)
      ensures this.prefix == prefix && this.dst == dst && atLineStart
    {
      this.prefix, this.dst, atLineStart := prefix, dst, true;
    }

    /** Lines 35-51: the prefix when it is due, then the piece; each write may fail. */
    method WritePiece(piece: Bytes) returns (prefixed: bool, written: nat, ok: bool)
      modifies this, dst
      ensures var out := Head(prefix, old(atLineStart)) + piece;
        && (ok <==> |out| <= old(dst.room)) && (prefixed <==> |Head(prefix, old(atLineStart))| <= old(dst.room))
        && (ok ==> dst.content == old(dst.content) + out && dst.room == old(dst.room) - |out|)
        && (!ok ==> dst.content == old(dst.content) + out[..old(dst.room)] && dst.room == 0)
      ensures written == if ok then |piece| else if prefixed then old(dst.room) - |Head(prefix, old(atLineStart))| else 0
      ensures atLineStart == (old(atLineStart) && !prefixed)
    {
      prefixed, written := true, 0;
      ghost var out := Head(prefix, atLineStart) + piece;
      if atLineStart {
        var part;
        part, prefixed := dst.Write(prefix);
        assert prefix[..part] == out[..part];
        if !prefixed { return prefixed, 0, false; }
        atLineStart := false;
      }
      written, ok := dst.Write(piece);
      assert Head(prefix, old(atLineStart)) + piece[..written] == out[..|Head(prefix, old(atLineStart))| + written];
    }

    /** One round of the loop: the count so far goes up by the piece; on an error it is the one to return. */
    method SendPiece(piece: Bytes, last: bool, n: nat, total: nat,
                     ghost b0: Bytes, ghost sent: Bytes, ghost start: bool, ghost base: Bytes, ghost room: nat)
      returns (fits: bool, count: nat)
      requires sent + piece <= b0 && piece != [] && NEWLINE !in piece[..|piece| - 1] && n == |sent| && total == |b0|
      requires AtPieceStart(sent) && (last ==> sent + piece == b0) && (piece[|piece| - 1] == NEWLINE <==> !last)
      requires Sent(prefix, start, sent, base, room, dst.content, dst.room) && atLineStart == StartAfter(start, sent)
      modifies this, dst
      ensures fits ==> Sent(prefix, start, sent + piece, base, room, dst.content, dst.room)
      ensures fits ==> count == |sent + piece| && !atLineStart && StartAfter(start, sent + piece) == !last
      ensures !fits ==> CutOff(prefix, start, b0, base, room, dst.content, dst.room) && Reported(prefix, start, b0, room, count)
    {
      ghost var left := dst.room;
      var prefixed, written;
      prefixed, written, fits := WritePiece(piece);
      count := n + written;
      if fits {
        PieceSent(prefix, start, sent, piece, base, room, left, dst.content, dst.room);
      } else {
        Failed(prefix, start, b0, sent, piece, left, written, prefixed, base, room, dst.content, count);
        FailedReport(prefix, start, b0, sent, piece, left, prefixed, room, count, last);
        count := if last && prefixed then total else count;
      }
    }

    /** Everything goes out exactly when it fits; otherwise the destination is left with as much of
        it as it takes. The count returned with an error is then the number of bytes of `b0` that went
        out, except that a failure in an unterminated last piece, behind its prefix, reports them all. */
    method Write(b0: Bytes) returns (n: nat, ok: bool)
      modifies this, dst
      ensures ok ==> Sent(prefix, old(atLineStart), b0, old(dst.content), old(dst.room), dst.content, dst.room)
      ensures ok ==> n == |b0| && atLineStart == StartAfter(old(atLineStart), b0)
      ensures !ok ==> CutOff(prefix, old(atLineStart), b0, old(dst.content), old(dst.room), dst.content, dst.room)
      ensures !ok ==> Reported(prefix, old(atLineStart), b0, old(dst.room), n)
    {
      var b := b0;
      n := 0;
      ghost var sent: Bytes := [];
      ghost var start, room, base := atLineStart, dst.room, dst.content;
      while |b| > 0
        invariant b0 == sent + b && n == |sent| && atLineStart == StartAfter(start, sent)
        invariant AtPieceStart(sent)
        invariant Sent(prefix, start, sent, base, room, dst.content, dst.room)
        decreases |b|
      {
        var i := FindNewline(b);
        var piece := if i < |b| then b[..i + 1] else b;
        PieceOf(b0, sent, b, i, piece);
        var fits;
        fits, n := SendPiece(piece, i == |b|, n, |b0|, b0, sent, start, base, room);
        if !fits || i == |b| { return n, fits; }
        sent := sent + piece;
        b := b[i + 1..];
        atLineStart := true;
      }
      assert sent == b0;
      return n, true;
    }

    /** However the stream is cut into writes, the output is the same. */
    method WriteAll(chunks: seq<Bytes>) returns (ok: bool)
      requires atLineStart
      modifies this, dst
      ensures ok <==> |Prefixed(prefix, true, Joined(chunks))| <= old(dst.room)
      ensures ok ==> dst.content == old(dst.content) + Prefixed(prefix, true, Joined(chunks))
    {
      for k := 0 to |chunks|
        invariant atLineStart == StartAfter(true, Joined(chunks[..k]))
        invariant dst.content == old(dst.content) + Prefixed(prefix, true, Joined(chunks[..k]))
        invariant |Prefixed(prefix, true, Joined(chunks[..k]))| + dst.room == old(dst.room)
      {
        JoinedSnoc(chunks, k);
        PrefixedConcat(prefix, true, Joined(chunks[..k]), chunks[k]);
        var n;
        n, ok := Write(chunks[k]);
        if !ok {
          Longer(prefix, chunks, k + 1);
          return;
        }
      }
      assert chunks[..|chunks|] == chunks;
      return true;
    }
  }

  lemma {:induction false} Longer(prefix: Bytes, chunks: seq<Bytes>, k: nat)
    requires k <= |chunks|
    ensures |Prefixed(prefix, true, Joined(chunks[..k]))| <= |Prefixed(prefix, true, Joined(chunks))|
    decreases |chunks| - k
  {
    if k == |chunks| {
      assert chunks[..k] == chunks;
    } else {
      JoinedSnoc(chunks, k);
      PrefixedConcat(prefix, true, Joined(chunks[..k]), chunks[k]);
      Longer(prefix, chunks, k + 1);
    }
  }
}
