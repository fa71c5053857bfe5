/** `RevLines`: the lines of a file from the last to the first, read backwards in chunks. */
module RevLines {
  import opened Bytes

  const LF: byte := 10
  const CR: byte := 13

  // ---------------------------------------------------------------------
  // The meaning

  /** The position of the last line feed before `p`, or -1. */
  function LastLf(s: seq<byte>, p: nat): (q: int)
    requires p <= |s|
    ensures -1 <= q < p
  {
    if p == 0 then -1 else if s[p - 1] == LF then p - 1 else LastLf(s, p - 1)
  }

  /** `q` is the position of the last line feed before `p`. */
  predicate IsLastLf(s: seq<byte>, p: nat, q: int) {
    -1 <= q < p <= |s| && (q >= 0 ==> s[q] == LF) && forall i :: q < i < p ==> s[i] != LF
  }

  lemma {:induction false} LastLfMeans(s: seq<byte>, p: nat, q: int)
    requires p <= |s|
    ensures IsLastLf(s, p, q) <==> q == LastLf(s, p)
  {
    if p > 0 && s[p - 1] != LF {
      LastLfMeans(s, p - 1, q);
    }
  }

  /** The segments between the line feeds before `p`, first to last. */
  function Split(s: seq<byte>, p: nat): (segments: seq<seq<byte>>)
    requires p <= |s|
    ensures segments != []
  {
    var q := LastLf(s, p);
    if q == -1 then [s[..p]] else Split(s, q) + [s[q + 1..p]]
  }

  function Reverse<T>(s: seq<T>): (r: seq<T>)
    ensures |r| == |s|
  {
    if s == [] then [] else [s[|s| - 1]] + Reverse(s[..|s| - 1])
  }

  /** Putting the segments back together with line feeds. */
  function Join(segments: seq<seq<byte>>): seq<byte> {
    if segments == [] then []
    else if |segments| == 1 then segments[0]
    else Join(segments[..|segments| - 1]) + [LF] + segments[|segments| - 1]
  }

  lemma JoinOneMore(front: seq<seq<byte>>, last: seq<byte>)
    requires front != []
    ensures Join(front + [last]) == Join(front) + [LF] + last
  {
    assert (front + [last])[..|front|] == front;
  }

  /** The segments between the line feeds, joined by line feeds, are the text again. */
  lemma {:induction false} SplitJoin(s: seq<byte>, p: nat)
    requires p <= |s|
    ensures Join(Split(s, p)) == s[..p]
  {
    var q := LastLf(s, p);
    if q >= 0 {
      SplitJoin(s, q);
      LastLfMeans(s, p, q);
      JoinOneMore(Split(s, q), s[q + 1..p]);
      hide Join, IsLastLf;
      CutAt(s, q, p);
    }
  }

  /** No segment has a line feed: together with `SplitJoin`, `Split` cuts at every line feed and nowhere else. */
  lemma {:induction false} SegmentsHaveNoLf(s: seq<byte>, p: nat, i: nat, j: nat)
    requires p <= |s| && i < |Split(s, p)| && j < |Split(s, p)[i]|
    ensures Split(s, p)[i][j] != LF
  {
    var q := LastLf(s, p);
    LastLfMeans(s, p, q);
    hide LastLf;
    if q == -1 {
      assert Split(s, p) == [s[..p]] && i == 0;
    } else if i < |Split(s, q)| {
      SegmentsHaveNoLf(s, q, i, j);
    }
  }

  lemma CutAt(s: seq<byte>, q: nat, p: nat)
    requires q < p <= |s| && s[q] == LF
    ensures s[..p] == s[..q] + [LF] + s[q + 1..p]
  {
    Adjoin(s, 0, q, q + 1);
    Adjoin(s, 0, q + 1, p);
  }

  /** What the reader yields before `p`: the segments from last to first, an empty first one left out. */
  function Expected(s: seq<byte>, p: nat): seq<seq<byte>>
    requires p <= |s|
  {
    DropEmptyEnd(Reverse(Split(s, p)))
  }

  function DropEmptyEnd(segments: seq<seq<byte>>): seq<seq<byte>>
    requires segments != []
  {
    if segments[|segments| - 1] == [] then segments[..|segments| - 1] else segments
  }

  // ---------------------------------------------------------------------
  // The reader

  datatype Line = Line(bytes: seq<byte>, position: nat)

  datatype Next = Got(line: Line) | NotUtf8 | End | IoError

  /** Where the chunk begins that holds `q` when chunks of `cap` bytes are cut off backwards from `p`. */
  function ChunkStart(p: nat, q: nat, cap: nat): (start: nat)
    requires q < p && cap > 0
    ensures start <= q
    decreases p
  {
    if p - Min(cap, p) <= q then p - Min(cap, p) else ChunkStart(p - Min(cap, p), q, cap)
  }

  /** Chunks are counted from `p` backwards, the last one perhaps shorter. */
  lemma {:induction false} ChunkStartIs(p: nat, q: nat, cap: nat, n: nat)
    requires q < p && cap > 0 && n * cap < p - q <= (n + 1) * cap
    ensures ChunkStart(p, q, cap) == if (n + 1) * cap >= p then 0 else p - (n + 1) * cap
    decreases p
  {
    assert (n + 1) * cap == n * cap + cap;
    if n == 0 {
      assert n * cap == 0;
    } else {
      assert n * cap == (n - 1) * cap + cap;
      assert (n - 1) * cap >= 0;
      ChunkStartIs(p - Min(cap, p), q, cap, n - 1);
    }
  }

  /** The carriage return before the line feed at `q` is taken off, but not at the front of a chunk. */
  predicate StripsCr(s: seq<byte>, p: nat, q: nat, cap: nat)
    requires q < p <= |s| && cap > 0
  {
    q - ChunkStart(p, q, cap) > 1 && s[q - 1] == CR
  }

  /** The line that ends at `p`. */
  function LineBefore(s: seq<byte>, p: nat): seq<byte>
    requires p <= |s|
  {
    s[LastLf(s, p) + 1..p]
  }

  /** Where the next line ends once the line behind the line feed at `q` is returned. */
  function NextEnd(s: seq<byte>, p: nat, cap: nat): (next: nat)
    requires p <= |s| && cap > 0
    ensures p > 0 ==> next < p
  {
    var q := LastLf(s, p);
    if q == -1 then 0 else if StripsCr(s, p, q, cap) then q - 1 else q
  }

  /** Of the line that ends at `p`, the bytes from `at` on are collected, and `at` is where a chunk begins. */
  ghost predicate Gathered(s: seq<byte>, p: nat, at: nat, cap: nat, collected: seq<byte>)
    requires p <= |s| && cap > 0
  {
    && at <= p && Reverse(collected) == s[at..p]
    && var q := LastLf(s, p);
       q < at && (q >= 0 ==> ChunkStart(at, q, cap) == ChunkStart(p, q, cap))
  }

  /** `chunk` is the stretch of the file from `start` to `end`. */
  predicate IsChunk(s: seq<byte>, start: nat, end: nat, chunk: seq<byte>) {
    start <= end <= |s| && chunk == s[start..end]
  }

  /** The bytes of the chunk behind its last line feed at `idx` are collected as well. */
  predicate Scanned(chunk: seq<byte>, idx: int, collected: seq<byte>, result: seq<byte>) {
    IsLastLf(chunk, |chunk|, idx) && Reverse(result) == chunk[idx + 1..] + Reverse(collected)
  }

  /** The same while the scan has not yet come to a line feed. */
  ghost predicate Scanning(buf: seq<byte>, idx: int, collected: seq<byte>, result: seq<byte>) {
    && -1 <= idx < |buf| && (forall i :: idx < i < |buf| ==> buf[i] != LF)
    && Reverse(result) == buf[idx + 1..] + Reverse(collected)
  }

  lemma ScanStarts(buf: seq<byte>, collected: seq<byte>)
    ensures Scanning(buf, |buf| - 1, collected, collected)
  {
    assert buf[|buf|..] + Reverse(collected) == Reverse(collected);
  }

  lemma ScanGoesOn(buf: seq<byte>, idx: nat, collected: seq<byte>, result: seq<byte>)
    requires Scanning(buf, idx, collected, result) && buf[idx] != LF
    ensures Scanning(buf, idx - 1, collected, result + [buf[idx]])
  {
    ReverseOneMore(result, buf[idx]);
    hide Reverse;
    assert buf[idx..] == [buf[idx]] + buf[idx + 1..];
    assert [buf[idx]] + (buf[idx + 1..] + Reverse(collected)) == buf[idx..] + Reverse(collected);
  }

  lemma ScanStops(buf: seq<byte>, idx: int, collected: seq<byte>, result: seq<byte>)
    requires Scanning(buf, idx, collected, result) && (idx >= 0 ==> buf[idx] == LF)
    ensures Scanned(buf, idx, collected, result)
  {
    hide Reverse;
  }

  class RevLines {
    const file: seq<byte>
    var cursor: nat      // the seek position of the underlying reader
    var readerPos: nat
    const bufSize: nat
    const utf8: seq<byte> -> bool

    /** Begins at the end of the file or at a given position, which may lie behind it. */
    constructor (cap: nat, pos: Option<nat>, file: seq<byte>, utf8: seq<byte> -> bool)
      ensures this.file == file && bufSize == cap && this.utf8 == utf8
      ensures readerPos == cursor == match pos case Some(p) => p case None => |file|
    {
      this.file, bufSize, this.utf8 := file, cap, utf8;
      var size := match pos case Some(p) => p case None => |file|;
      cursor, readerPos := size, size;
    }

    ghost predicate Valid()
      reads this
    {
      cursor == readerPos <= |file| && bufSize > 0
    }

    method ReadToBuffer(size: nat) returns (buf: Option<seq<byte>>)
      requires size <= readerPos == cursor
      modifies this`cursor, this`readerPos
      ensures buf.Some? <==> size == 0 || old(readerPos) <= |file|
      ensures buf.Some? ==> readerPos == cursor == old(readerPos) - size
      ensures buf.Some? ==> |buf.value| == size
      ensures buf.Some? && size > 0 ==> IsChunk(file, readerPos, old(readerPos), buf.value)
    {
      cursor := cursor - size;
      if size == 0 {
        return Some([]);
      }
      if cursor + size > |file| {
        return None;
      }
      var read := file[cursor..cursor + size];
      cursor := cursor + size;
      cursor := cursor - size;
      readerPos := readerPos - size;
      buf := Some(read);
    }

    /** Goes through a chunk from its end, collecting bytes up to a line feed. */
    static method ScanChunk(buf: seq<byte>, collected: seq<byte>) returns (idx: int, result: seq<byte>)
      ensures -1 <= idx < |buf| && Scanned(buf, idx, collected, result)
    {
      hide Scanning, Scanned;
      result, idx := collected, |buf| - 1;
      ScanStarts(buf, collected);
      while idx >= 0 && buf[idx] != LF
        invariant -1 <= idx < |buf| && Scanning(buf, idx, collected, result)
      {
        ScanGoesOn(buf, idx, collected, result);
        result := result + [buf[idx]];
        idx := idx - 1;
      }
      ScanStops(buf, idx, collected, result);
    }

    ghost predicate Collecting(p: nat, collected: seq<byte>)
      reads this
    {
      && cursor == readerPos <= p && bufSize > 0
      && if p > |file| then readerPos == p else Gathered(file, p, readerPos, bufSize, collected)
    }

    lemma NothingCollected()
      requires cursor == readerPos && bufSize > 0
      ensures Collecting(readerPos, [])
    {
      ReverseNothing();
    }

    lemma AllCollected(p: nat, collected: seq<byte>)
      requires Collecting(p, collected) && readerPos == 0
      ensures |collected| == p && Valid()
      ensures p > 0 ==> Finished(p, collected)
    {
    }

    /** The chunk that `ReadToBuffer` has just stepped over, of which the scan has reached `idx`. */
    ghost predicate Taken(p: nat, end: nat, chunk: seq<byte>, idx: int, collected: seq<byte>, result: seq<byte>)
      reads this
    {
      && cursor == readerPos && bufSize > 0 && 0 < end <= p <= |file|
      && readerPos == end - Min(bufSize, end)
      && IsChunk(file, readerPos, end, chunk) && Scanned(chunk, idx, collected, result)
      && Gathered(file, p, end, bufSize, collected)
    }

    /** Goes to where the line before ends. */
    method StepForward(ghost p: nat, ghost end: nat, chunk: seq<byte>, idx: nat, ghost collected: seq<byte>,
                       result: seq<byte>)
      requires idx < |chunk| && Taken(p, end, chunk, idx, collected, result)
      modifies this`cursor, this`readerPos
      ensures Finished(p, result)
    {
      FoundLf(file, p, readerPos, end, bufSize, chunk, idx, collected, result);
      hide Scanned, LineBefore, NextEnd, Gathered, OffsetOf;
      var offset := OffsetOf(chunk, idx);
      StaysInFile(file, readerPos, end, chunk, offset);
      cursor := cursor + offset;
      readerPos := readerPos + offset;
    }

    lemma StaysInFile(s: seq<byte>, start: nat, end: nat, chunk: seq<byte>, offset: nat)
      requires IsChunk(s, start, end, chunk) && offset < |chunk|
      ensures start + offset < |s|
    {
    }

    lemma StillCollecting(p: nat, end: nat, chunk: seq<byte>, collected: seq<byte>, result: seq<byte>)
      requires Taken(p, end, chunk, -1, collected, result)
      ensures Collecting(p, result)
    {
      NoLfFound(file, p, readerPos, end, bufSize, chunk, collected, result);
    }

    /** One more chunk, up to the line feed before the line if it is there. */
    method TakeChunk(ghost p: nat, collected: seq<byte>) returns (failed: bool, found: bool, result: seq<byte>)
      requires Collecting(p, collected) && readerPos > 0
      modifies this`cursor, this`readerPos
      ensures failed <==> p > |file|
      ensures !failed && found ==> Finished(p, result)
      ensures !failed && !found ==> Collecting(p, result) && readerPos < old(readerPos)
    {
      hide IsChunk, Scanned, RevLines.Finished, Gathered;
      ghost var end := readerPos;
      var size := Min(bufSize, readerPos);
      var buf := ReadToBuffer(size);
      if buf.None? {
        return true, false, collected;
      }
      var chunk := buf.value;
      var idx;
      idx, result := ScanChunk(chunk, collected);
      assert Taken(p, end, chunk, idx, collected, result);
      hide RevLines.Taken, RevLines.Collecting;
      failed, found := false, idx >= 0;
      if found {
        StepForward(p, end, chunk, idx, collected, result);
      } else {
        StillCollecting(p, end, chunk, collected, result);
      }
    }

    /** The line that ends at `p` is collected and the reader stands where the one before it ends. */
    ghost predicate Finished(p: nat, collected: seq<byte>)
      reads this
    {
      && Valid() && 0 < p <= |file| && readerPos == NextEnd(file, p, bufSize)
      && Reverse(collected) == LineBefore(file, p)
    }

    /**
      The line that ends where the reader stands, and the position where the one before it
      ends. A line that is not text is an error, and the reader goes past it all the same.
     */
    method NextLine() returns (r: Next)
      requires cursor == readerPos && bufSize > 0
      modifies this`cursor, this`readerPos
      ensures old(readerPos) > |file| ==> r == IoError
      ensures old(readerPos) == 0 ==> r == End && readerPos == 0
      ensures 0 < old(readerPos) <= |file| ==>
        var line := LineBefore(file, old(readerPos));
        && readerPos == NextEnd(file, old(readerPos), bufSize)
        && (utf8(line) ==> r == Got(Line(line, readerPos)))
        && (!utf8(line) ==> r == NotUtf8)
      ensures old(readerPos) <= |file| ==> Valid()
    {
      var result: seq<byte> := [];
      ghost var p := readerPos;
      NothingCollected();
      hide Reverse, Gathered, ChunkStart, LastLf, LineBefore, NextEnd, RevLines.Collecting;
      var found := false;
      while !found
        invariant if found then Finished(p, result) else Collecting(p, result)
        decreases !found, readerPos
      {
        if readerPos < 1 {
          AllCollected(p, result);
          if |result| > 0 {
            break;
          }
          return End;
        }
        var failed;
        failed, found, result := TakeChunk(p, result);
        if failed {
          return IoError;
        }
      }
      var line := Reverse(result);
      r := if utf8(line) then Got(Line(line, readerPos)) else NotUtf8;
    }
  }

  /** Where the next line ends in the chunk: before the line feed, and before a carriage return in front of it. */
  function OffsetOf(chunk: seq<byte>, idx: nat): (offset: nat)
    requires idx < |chunk|
    ensures offset <= idx
  {
    if idx > 1 && chunk[idx - 1] == CR then idx - 1 else idx
  }

  /** A chunk with a line feed completes the line. */
  lemma FoundLf(s: seq<byte>, p: nat, start: nat, end: nat, cap: nat, chunk: seq<byte>, idx: nat,
                collected: seq<byte>, result: seq<byte>)
    requires p <= |s| && cap > 0 && end > 0 && Gathered(s, p, end, cap, collected)
    requires start == end - Min(cap, end) && IsChunk(s, start, end, chunk) && Scanned(chunk, idx, collected, result)
    ensures Reverse(result) == LineBefore(s, p)
    ensures NextEnd(s, p, cap) == start + OffsetOf(chunk, idx)
  {
    ChunkLf(s, start, end, p, idx);
    ChunkStep(end, LastLf(s, p), cap, start);
    hide Reverse, LastLf, IsLastLf, ChunkStart;
    Extend(s, start, end, p, start + idx, chunk, idx, result, collected);
  }

  /** One without is collected whole. */
  lemma NoLfFound(s: seq<byte>, p: nat, start: nat, end: nat, cap: nat, chunk: seq<byte>,
                  collected: seq<byte>, result: seq<byte>)
    requires p <= |s| && cap > 0 && end > 0 && Gathered(s, p, end, cap, collected)
    requires start == end - Min(cap, end) && IsChunk(s, start, end, chunk) && Scanned(chunk, -1, collected, result)
    ensures Gathered(s, p, start, cap, result)
  {
    ChunkLf(s, start, end, p, -1);
    var q := LastLf(s, p);
    if q >= 0 { ChunkStep(end, q, cap, start); }
    hide Reverse, LastLf, IsLastLf, ChunkStart;
    Extend(s, start, end, p, q, chunk, -1, result, collected);
  }

  lemma ReverseNothing()
    ensures Reverse<byte>([]) == []
  {
  }

  lemma ChunkStep(p: nat, q: nat, cap: nat, start: nat)
    requires q < p && cap > 0 && start == p - Min(cap, p)
    ensures start <= q ==> ChunkStart(p, q, cap) == start
    ensures q < start ==> ChunkStart(p, q, cap) == ChunkStart(start, q, cap)
  {
  }

  /** The last line feed of a chunk is that of the whole, if the chunk holds it. */
  lemma ChunkLf(s: seq<byte>, start: nat, end: nat, p: nat, idx: int)
    requires start < end <= p <= |s| && LastLf(s, p) < end
    requires IsLastLf(s[start..end], end - start, idx)
    ensures if idx >= 0 then LastLf(s, p) == start + idx else LastLf(s, p) < start
  {
    var q := LastLf(s, p);
    LastLfMeans(s, p, q);
    assert forall i :: start <= i < end ==> s[i] == s[start..end][i - start];
  }

  /** The bytes taken from a chunk go in front of those collected before. */
  lemma Extend(s: seq<byte>, start: nat, end: nat, p: nat, q: int, chunk: seq<byte>, idx: int,
               result: seq<byte>, collected: seq<byte>)
    requires start <= end <= p <= |s| && -1 <= idx < end - start && chunk == s[start..end]
    requires Reverse(result) == chunk[idx + 1..] + Reverse(collected)
    requires Reverse(collected) == s[end..p]
    requires if idx >= 0 then q == start + idx else q < start
    ensures idx >= 0 ==> Reverse(result) == s[q + 1..p]
    ensures idx == -1 ==> Reverse(result) == s[start..p]
  {
    SubSlice(s, start, end, idx + 1, end - start);
    Adjoin(s, start + idx + 1, end, p);
  }

  // ---------------------------------------------------------------------
  // All the lines of a file

  /** What repeated calls of `NextLine` yield from position `p` on. */
  function Lines(s: seq<byte>, p: nat, cap: nat): seq<Line>
    requires p <= |s| && cap > 0
    decreases p
  {
    if p == 0 then [] else [Line(LineBefore(s, p), NextEnd(s, p, cap))] + Lines(s, NextEnd(s, p, cap), cap)
  }

  /** Each line in its turn; one that is not text is an error in its place. */
  method Collect(reader: RevLines) returns (lines: seq<Next>)
    requires reader.Valid()
    modifies reader
    ensures var all := Lines(reader.file, old(reader.readerPos), reader.bufSize);
      && |lines| == |all|
      && forall k :: 0 <= k < |all| ==>
           && (reader.utf8(all[k].bytes) ==> lines[k] == Got(all[k]))
           && (!reader.utf8(all[k].bytes) ==> lines[k] == NotUtf8)
    ensures reader.readerPos == 0
  {
    hide LineBefore, NextEnd, ChunkStart, LastLf;
    lines := [];
    ghost var all := Lines(reader.file, reader.readerPos, reader.bufSize);
    while true
      invariant reader.Valid()
      invariant |lines| <= |all| && all[|lines|..] == Lines(reader.file, reader.readerPos, reader.bufSize)
      invariant forall k :: 0 <= k < |lines| ==>
        && (reader.utf8(all[k].bytes) ==> lines[k] == Got(all[k]))
        && (!reader.utf8(all[k].bytes) ==> lines[k] == NotUtf8)
      decreases reader.readerPos
    {
      ghost var at := reader.readerPos;
      var next := reader.NextLine();
      if next.End? {
        break;
      }
      OneMore(reader.file, at, reader.bufSize, all, |lines|);
      lines := lines + [next];
    }
  }

  /** The line that is next in the sequence, and what is behind it. */
  lemma OneMore(s: seq<byte>, p: nat, cap: nat, all: seq<Line>, n: nat)
    requires 0 < p <= |s| && cap > 0 && n <= |all| && all[n..] == Lines(s, p, cap)
    ensures n < |all| && all[n] == Line(LineBefore(s, p), NextEnd(s, p, cap))
    ensures all[n + 1..] == Lines(s, NextEnd(s, p, cap), cap)
  {
    assert all[n] == all[n..][0];
    assert all[n + 1..] == all[n..][1..] == Lines(s, p, cap)[1..];
    assert Lines(s, p, cap)[1..] == Lines(s, NextEnd(s, p, cap), cap);
  }

  /** Starting again from a position returned with a line yields exactly the lines after it. */
  lemma {:induction false} Restart(s: seq<byte>, p: nat, cap: nat, i: nat)
    requires p <= |s| && cap > 0 && i < |Lines(s, p, cap)|
    ensures Lines(s, p, cap)[i].position <= |s|
    ensures Lines(s, Lines(s, p, cap)[i].position, cap) == Lines(s, p, cap)[i + 1..]
    decreases p
  {
    hide LineBefore, NextEnd, LastLf;
    var next := NextEnd(s, p, cap);
    var rest := Lines(s, next, cap);
    Behind(Line(LineBefore(s, p), next), rest, i);
    if i > 0 {
      Restart(s, next, cap, i - 1);
    }
  }

  lemma Behind<T>(first: T, rest: seq<T>, i: nat)
    requires i <= |rest|
    ensures ([first] + rest)[i + 1..] == rest[i..]
  {
  }

  function Texts(lines: seq<Line>): seq<seq<byte>> {
    if lines == [] then [] else [lines[0].bytes] + Texts(lines[1..])
  }

  lemma TextsOf(s: seq<byte>, p: nat, cap: nat)
    requires 0 < p <= |s| && cap > 0
    ensures Texts(Lines(s, p, cap)) == [LineBefore(s, p)] + Texts(Lines(s, NextEnd(s, p, cap), cap))
  {
    var rest := Lines(s, NextEnd(s, p, cap), cap);
    assert Lines(s, p, cap)[1..] == rest;
  }

  lemma ReverseOneMore<T>(s: seq<T>, x: T)
    ensures Reverse(s + [x]) == [x] + Reverse(s)
  {
    assert (s + [x])[..|s|] == s;
  }

  /** `Expected`, line by line from the end. */
  lemma ExpectedOf(s: seq<byte>, p: nat)
    requires p <= |s|
    ensures p == 0 ==> Expected(s, p) == []
    ensures p > 0 ==>
      Expected(s, p) == [LineBefore(s, p)] + (if LastLf(s, p) == -1 then [] else Expected(s, LastLf(s, p)))
  {
    var q := LastLf(s, p);
    if q == -1 {
      ExpectedAtFront(s, p);
    } else {
      ReverseOneMore(Split(s, q), LineBefore(s, p));
      hide LineBefore, Reverse, DropEmptyEnd;
      DropLater(LineBefore(s, p), Reverse(Split(s, q)));
    }
  }

  lemma ExpectedAtFront(s: seq<byte>, p: nat)
    requires p <= |s| && LastLf(s, p) == -1
    ensures Expected(s, p) == if p == 0 then [] else [LineBefore(s, p)]
  {
    var only := LineBefore(s, p);
    assert |only| == p && Split(s, p) == [only];
    hide LineBefore, LastLf, Split, Reverse, DropEmptyEnd;
    OnlySegment(only);
  }

  lemma OnlySegment(x: seq<byte>)
    ensures DropEmptyEnd(Reverse([x])) == if x == [] then [] else [x]
  {
    assert [x][..0] == [];
    assert Reverse([x]) == [x] + Reverse([]);
    assert [x] + [] == [x];
  }

  lemma DropLater(first: seq<byte>, rest: seq<seq<byte>>)
    requires rest != []
    ensures DropEmptyEnd([first] + rest) == [first] + DropEmptyEnd(rest)
  {
    assert ([first] + rest)[..|rest|] == [first] + rest[..|rest| - 1];
  }

  /** No carriage return stands before a line feed, but perhaps at the very front. */
  predicate NoCrLf(s: seq<byte>, p: nat)
    requires p <= |s|
  {
    forall q :: 2 <= q < p && s[q] == LF ==> s[q - 1] != CR
  }

  /**
    With this chunk size no carriage return is taken off: each one before a line feed is
    at the front of the chunk that holds them, chunks being counted from line to line.
   */
  predicate Clean(s: seq<byte>, p: nat, cap: nat)
    requires p <= |s| && cap > 0
    decreases p
  {
    var q := LastLf(s, p);
    q == -1 || (!StripsCr(s, p, q, cap) && Clean(s, q, cap))
  }

  /** For each chunk size: the lines are the LF-separated ones, in reverse, if and only if none is taken off. */
  lemma {:induction false} LinesAreExpected(s: seq<byte>, p: nat, cap: nat)
    requires p <= |s| && cap > 0
    ensures Texts(Lines(s, p, cap)) == Expected(s, p) <==> Clean(s, p, cap)
    decreases p
  {
    ExpectedOf(s, p);
    hide LineBefore, Expected, LastLf, StripsCr;
    var q := LastLf(s, p);
    if p > 0 {
      TextsOf(s, p, cap);
      hide Lines, Texts;
      if q >= 0 {
        if StripsCr(s, p, q, cap) {
          StripsMeans(s, p, q, cap);
          StrippedDiffers(s, q, cap);
        } else {
          LinesAreExpected(s, q, cap);
        }
        SameHead(LineBefore(s, p), Texts(Lines(s, NextEnd(s, p, cap), cap)), Expected(s, q));
      } else {
        NoLinesLeft(s, cap);
      }
    }
  }

  lemma StripsMeans(s: seq<byte>, p: nat, q: nat, cap: nat)
    requires q < p <= |s| && cap > 0 && StripsCr(s, p, q, cap)
    ensures q >= 2 && s[q - 1] == CR
  {
  }

  lemma NoLinesLeft(s: seq<byte>, cap: nat)
    requires cap > 0
    ensures Texts(Lines(s, 0, cap)) == []
  {
  }

  lemma {:induction false} CleanWithoutCrLf(s: seq<byte>, p: nat, cap: nat)
    requires p <= |s| && cap > 0 && NoCrLf(s, p)
    ensures Clean(s, p, cap)
    decreases p
  {
    LastLfMeans(s, p, LastLf(s, p));
    hide LastLf;
    if LastLf(s, p) >= 0 {
      CleanWithoutCrLf(s, LastLf(s, p), cap);
    }
  }

  lemma {:induction false} BigChunkNotClean(s: seq<byte>, p: nat, cap: nat)
    requires p <= |s| && cap >= p && cap > 0 && !NoCrLf(s, p)
    ensures !Clean(s, p, cap)
    decreases p
  {
    hide LastLf;
    SomeLf(s, p);
    var q := LastLf(s, p);
    assert ChunkStart(p, q, cap) == 0;
    if s[q - 1] != CR {
      BigChunkNotClean(s, q, cap);
    }
  }

  /** Without CRLF every chunk size yields the same lines: the LF-separated ones, in reverse. */
  lemma ChunkSizeDoesNotMatter(s: seq<byte>, p: nat, cap: nat)
    requires p <= |s| && cap > 0 && NoCrLf(s, p)
    ensures Texts(Lines(s, p, cap)) == Expected(s, p)
  {
    CleanWithoutCrLf(s, p, cap);
    LinesAreExpected(s, p, cap);
  }

  /** With a CRLF a chunk that holds the whole file takes the carriage return off. */
  lemma BigChunkStrips(s: seq<byte>, p: nat, cap: nat)
    requires p <= |s| && cap >= p && cap > 0 && !NoCrLf(s, p)
    ensures Texts(Lines(s, p, cap)) != Expected(s, p)
  {
    BigChunkNotClean(s, p, cap);
    LinesAreExpected(s, p, cap);
  }

  /** There is a line feed past the first two bytes, and the CRLF is at the last one or before. */
  lemma SomeLf(s: seq<byte>, p: nat)
    requires p <= |s| && !NoCrLf(s, p)
    ensures 2 <= LastLf(s, p) < p && (s[LastLf(s, p) - 1] != CR ==> !NoCrLf(s, LastLf(s, p)))
  {
    LastLfMeans(s, p, LastLf(s, p));
    hide LastLf;
  }

  /** Without its carriage return the line is another. */
  lemma StrippedDiffers(s: seq<byte>, q: nat, cap: nat)
    requires 2 <= q <= |s| && cap > 0 && s[q - 1] == CR
    ensures Texts(Lines(s, q - 1, cap)) != Expected(s, q)
  {
    TextsOf(s, q - 1, cap);
    ExpectedOf(s, q);
    Shorter(s, q);
    hide LineBefore, Lines, Texts, Expected;
    assert Texts(Lines(s, q - 1, cap))[0] != Expected(s, q)[0];
  }

  lemma SameHead(head: seq<byte>, a: seq<seq<byte>>, b: seq<seq<byte>>)
    ensures [head] + a == [head] + b <==> a == b
  {
    assert ([head] + a)[1..] == a && ([head] + b)[1..] == b;
  }

  lemma Shorter(s: seq<byte>, q: nat)
    requires 2 <= q <= |s| && s[q - 1] == CR
    ensures |LineBefore(s, q)| == |LineBefore(s, q - 1)| + 1
  {
  }

  /** Chunk-size independence, exactly: it holds if and only if the file has no CRLF (past its first byte). */
  lemma ChunkSizeIndependence(s: seq<byte>)
    ensures NoCrLf(s, |s|) <==> forall cap: nat :: cap > 0 ==> Texts(Lines(s, |s|, cap)) == Expected(s, |s|)
  {
    if NoCrLf(s, |s|) {
      forall cap: nat | cap > 0 ensures Texts(Lines(s, |s|, cap)) == Expected(s, |s|) {
        ChunkSizeDoesNotMatter(s, |s|, cap);
      }
    } else {
      BigChunkStrips(s, |s|, |s| + 1);
    }
  }
}
