/**
  What the receiving caller can conclude from what it hears: when a read of no
  bytes is the end of the stream, and what has been delivered by then.
 */
module Endings {
  import opened Bytes
  import opened Frames
  import opened Transports
  import opened Readers
  import opened LockStep
  import opened WireTheorems

  predicate NoEmpty(fs: seq<Frame>) { forall f <- fs :: f.data != [] }

  /**
    A read of no bytes, where there was room for some, is answered if and only if
    the frame that it has completed is empty or the transport has ended before the
    next segment.
   */
  lemma ZeroByteRead(ch: Channel, start: Cursor, fs: seq<Frame>, k: nat, r: Reader, taken: seq<byte>,
                     delivered: seq<byte>, bytes: seq<byte>, ended: bool, room: nat,
                     result: Poll<seq<byte>>, after: Reader)
    requires AllDrawable(ch, fs) && InStep(ch, start, fs, k, r, taken, delivered) && Settled(ch, r) && Holding(r)
    requires taken + bytes <= Encode(ch, start, fs)
    requires ReadStep(ch, r, bytes, ended, room, result, after) && room > 0 && result.Done?
    ensures Feed(ch, r, bytes).Fed?
    ensures var fed := Feed(ch, r, bytes).reader;
      && (fed.state.Ready? ==> k < |fs| && (result.value == [] <==> fs[k].data == []))
      && (!fed.state.Ready? ==> result.value == [] && ended && after == fed && after.buffer == [])
  {
    hide Feed, Encode, ReadStep, AllDrawable, InStep, EncodeFrame;
    EmptyHanded(ch, r, bytes, ended, room, result, after);
    FeedInStep(ch, start, fs, k, r, taken, delivered, bytes);
    var fed := Feed(ch, r, bytes).reader;
    if fed.state.Ready? { ReadyHolds(ch, start, fs, k, fed, taken + bytes, delivered); }
  }

  /** Decoded data is the sender's. */
  lemma ReadyHolds(ch: Channel, start: Cursor, fs: seq<Frame>, k: nat, r: Reader, taken: seq<byte>,
                   delivered: seq<byte>)
    requires InStep(ch, start, fs, k, r, taken, delivered) && r.state.Ready? && k < |fs|
    ensures r.buffer == fs[k].data
  {
  }

  /** An empty write on an open transport: its frame, read with any room, answers no bytes and nothing else. */
  lemma EmptyWriteReadsAsEnd(ch: Channel, start: Cursor, room: nat, result: Poll<seq<byte>>, after: Reader)
    ensures var empty := Frame([], []);
      && Drawable(ch, empty)
      && (ReadStep(ch, Reader(Header, [], start), EncodeFrame(ch, start, empty), false, room, result, after)
          <==> result == Done([]) && after == Reader(Header, [], AfterFrame(ch, start, empty)))
  {
    var empty, r := Frame([], []), Reader(Header, [], start);
    var wire := EncodeFrame(ch, start, empty);
    assert [] + wire == wire;
    FeedInside(ch, start, empty, r, [], wire);
    FeedSettles(ch, r, wire);
    PartlyTaken(ch, start, empty, Feed(ch, r, wire).reader, wire);
    hide Feed, EncodeFrame;
  }

  // ---------------------------------------------------------------------
  // Runs on a cut wire

  lemma HeardAtOnce(ch: Channel, start: Cursor, fs: seq<Frame>, k: nat, r: Reader, taken: seq<byte>,
                    delivered: seq<byte>, c: Call)
    requires AllDrawable(ch, fs) && NoEmpty(fs)
    requires InStep(ch, start, fs, k, r, taken, delivered) && Settled(ch, r) && Holding(r)
    requires taken + c.bytes <= Encode(ch, start, fs)
    requires ReadStep(ch, r, c.bytes, c.ended, c.room, c.result, c.after) && TellsEnd(c)
    ensures c.ended
  {
    hide InStep, AllDrawable, NoEmpty, Encode, Settled, Feed, ReadStep;
    if Ends(c.result) {
      var _ := ReadKeepsStep(ch, start, fs, k, r, taken, delivered, c.bytes, c.ended, c.room, c.result, c.after);
    } else {
      ZeroByteRead(ch, start, fs, k, r, taken, delivered, c.bytes, c.ended, c.room, c.result, c.after);
      NotEmptyAt(fs, k);
    }
  }

  /** Without empty frames, who hears of an end hears of the transport's. */
  lemma {:induction false} HeardOnlyAtEnd(ch: Channel, start: Cursor, fs: seq<Frame>, k: nat, r: Reader,
                                          taken: seq<byte>, delivered: seq<byte>, calls: seq<Call>, wire: seq<byte>)
    requires AllDrawable(ch, fs) && NoEmpty(fs)
    requires InStep(ch, start, fs, k, r, taken, delivered) && Settled(ch, r) && Holding(r)
    requires taken + wire <= Encode(ch, start, fs) && Run(ch, r, calls, wire)
    requires calls != [] && TellsEnd(calls[|calls| - 1])
    ensures calls[|calls| - 1].ended
    decreases |calls|
  {
    var c, rest := calls[0], wire[|calls[0].bytes|..];
    hide Run, InStep, AllDrawable, NoEmpty, Encode, Settled, Feed, Holding, ReadStep, TellsEnd, Output, Ends;
    FirstOfRun(ch, r, calls, wire);
    TakenOn(taken, c.bytes, wire, Encode(ch, start, fs));
    if |calls| == 1 {
      HeardAtOnce(ch, start, fs, k, r, taken, delivered, c);
    } else {
      var next := ReadKeepsStep(ch, start, fs, k, r, taken, delivered, c.bytes, c.ended, c.room, c.result, c.after);
      StepHolds(ch, r, c.bytes, c.ended, c.room, c.result, c.after);
      HeardOnlyAtEnd(ch, start, fs, next, c.after, taken + c.bytes, delivered + Output(c.result), calls[1..], rest);
    }
  }

  lemma FirstOfRun(ch: Channel, r: Reader, calls: seq<Call>, wire: seq<byte>)
    requires Run(ch, r, calls, wire) && calls != []
    ensures Settled(ch, r) && calls[0].bytes <= wire
    ensures var c := calls[0]; ReadStep(ch, r, c.bytes, c.ended, c.room, c.result, c.after)
    ensures |calls| > 1 ==> !Ends(calls[0].result) && Run(ch, calls[0].after, calls[1..], wire[|calls[0].bytes|..])
    ensures |calls| > 1 ==> |calls[1..]| == |calls| - 1 && calls[1..][|calls| - 2] == calls[|calls| - 1]
  {
  }

  lemma TakenOn(taken: seq<byte>, bytes: seq<byte>, wire: seq<byte>, whole: seq<byte>)
    requires bytes <= wire && taken + wire <= whole
    ensures taken + bytes <= whole && (taken + bytes) + wire[|bytes|..] <= whole
  {
    assert (taken + bytes) + wire[|bytes|..] == taken + wire;
    assert taken + bytes == (taken + wire)[..|taken| + |bytes|];
  }

  lemma NotEmptyAt(fs: seq<Frame>, k: nat)
    requires NoEmpty(fs)
    ensures k < |fs| ==> fs[k].data != []
  {
  }

  /**
    Truncation, as the receiver sees it: a wire of non-empty frames, cut anywhere and
    read in any way until the caller hears of an end, has delivered exactly the
    payloads of the complete frames; the caller hears of a clean end if and only if
    the cut lies on a segment boundary, and of an unexpected one otherwise.
   */
  lemma CutIsHeard(ch: Channel, cur: Cursor, fs: seq<Frame>, cut: nat, calls: seq<Call>) returns (i: nat, offset: nat)
    requires AllDrawable(ch, fs) && NoEmpty(fs) && cut < |Encode(ch, cur, fs)|
    requires Run(ch, Reader(Header, [], cur), calls, Encode(ch, cur, fs)[..cut])
    requires calls != [] && TellsEnd(calls[|calls| - 1])
    ensures i < |fs| && cut == |Encode(ch, cur, fs[..i])| + offset
    ensures offset < |EncodeFrame(ch, After(ch, cur, fs[..i]), fs[i])|
    ensures Delivered(calls) == Payload(fs[..i])
    ensures var result := calls[|calls| - 1].result;
      && (result == Done([]) <==> SegmentBoundary(ch, After(ch, cur, fs[..i]), fs[i], offset))
      && (result == Broken(Eof) <==> !SegmentBoundary(ch, After(ch, cur, fs[..i]), fs[i], offset))
  {
    var wire := Encode(ch, cur, fs)[..cut];
    i, offset := TruncationOfNonEmptyFrames(ch, cur, fs, cut);
    FrontIsHeard(ch, cur, fs, wire, calls);
    assert TellsEnd(calls[|calls| - 1]);
  }

  /** Any front of the wire: what is delivered and heard at the end is what the decoder gives on it. */
  lemma FrontIsHeard(ch: Channel, cur: Cursor, fs: seq<Frame>, wire: seq<byte>, calls: seq<Call>)
    requires AllDrawable(ch, fs) && NoEmpty(fs) && wire <= Encode(ch, cur, fs)
    requires Run(ch, Reader(Header, [], cur), calls, wire)
    requires calls != [] && TellsEnd(calls[|calls| - 1])
    ensures Decode(ch, cur, wire) == Decoded(Delivered(calls), EndingOf(calls[|calls| - 1].result))
  {
    AtStart(ch, cur, fs);
    assert [] + wire == wire;
    HeardOnlyAtEnd(ch, cur, fs, 0, Reader(Header, [], cur), [], [], calls, wire);
    EndIsDecoded(ch, cur, calls, wire);
  }

  /** A reader at the front of a wire is in step with whatever frames made it. */
  lemma AtStart(ch: Channel, start: Cursor, fs: seq<Frame>)
    ensures InStep(ch, start, fs, 0, Reader(Header, [], start), [], [])
  {
    StartsInStep(ch, start);
    GrowKeepsStep(ch, start, [], fs, 0, Reader(Header, [], start), [], []);
    assert [] + fs == fs;
  }

  // ---------------------------------------------------------------------
  // Both ends

  /**
    What sender, receiver and network have shown so far: whether an empty write was
    taken, a read with room was answered with no bytes, the stream has failed, and
    whether nothing is left to read and nothing will arrive.
   */
  datatype Seen = Seen(emptyWrite: bool, emptyRead: bool, failed: bool, exhausted: bool)

  /** The receiver in step, with `last` its state or, if it has failed, the one it failed in. */
  predicate Received(ch: Channel, start: Cursor, fs: seq<Frame>, k: nat, last: Reader,
                     taken: seq<byte>, delivered: seq<byte>, seen: Seen)
  {
    && InStep(ch, start, fs, k, last, taken, delivered) && Settled(ch, last) && Holding(last)
    && (!seen.emptyWrite ==> NoEmpty(fs))
    && (seen.failed ==>
          seen.exhausted && !last.state.Ready? && (last.buffer != [] || ExpectsNoData(last.state)))
    && (seen.emptyRead && !seen.emptyWrite ==> seen.exhausted && !last.state.Ready? && last.buffer == [])
  }

  lemma ReceivesNothingYet(ch: Channel, start: Cursor, fs: seq<Frame>, emptyWrite: bool, exhausted: bool)
    requires !emptyWrite ==> NoEmpty(fs)
    ensures Received(ch, start, fs, 0, Reader(Header, [], start), [], [], Seen(emptyWrite, false, false, exhausted))
  {
    AtStart(ch, start, fs);
  }

  /** Frames written later change nothing of what was received. */
  lemma GrowReceived(ch: Channel, start: Cursor, fs: seq<Frame>, more: seq<Frame>, k: nat, last: Reader,
                     taken: seq<byte>, delivered: seq<byte>, seen: Seen, emptyWrite: bool)
    requires Received(ch, start, fs, k, last, taken, delivered, seen)
    requires !emptyWrite ==> !seen.emptyWrite && NoEmpty(more)
    ensures Received(ch, start, fs + more, k, last, taken, delivered, seen.(emptyWrite := emptyWrite))
  {
    GrowKeepsStep(ch, start, fs, more, k, last, taken, delivered);
  }

  /** Every poll keeps all of this. */
  lemma ReadReceives(ch: Channel, start: Cursor, fs: seq<Frame>, k: nat, last: Reader, taken: seq<byte>,
                     delivered: seq<byte>, seen: Seen, bytes: seq<byte>, exhausted: bool, room: nat,
                     result: Poll<seq<byte>>, after: Reader) returns (next: nat, now: Reader)
    requires AllDrawable(ch, fs) && Received(ch, start, fs, k, last, taken, delivered, seen) && !seen.failed
    requires taken + bytes <= Encode(ch, start, fs)
    requires ReadStep(ch, last, bytes, exhausted, room, result, after)
    requires seen.exhausted ==> bytes == [] && exhausted
    ensures !Ends(result) ==> now == after
    ensures Received(ch, start, fs, next, now, taken + bytes, delivered + Output(result),
                     Seen(seen.emptyWrite, seen.emptyRead || (room > 0 && result == Done([])), Ends(result), exhausted))
  {
    next := ReadKeepsStep(ch, start, fs, k, last, taken, delivered, bytes, exhausted, room, result, after);
    FeedSettles(ch, last, bytes);
    hide InStep, Encode, AllDrawable, Feed;
    if seen.emptyRead && !seen.emptyWrite { NothingFed(ch, last); }
    if Ends(result) {
      now := Feed(ch, last, bytes).reader;
      assert delivered + [] == delivered;
    } else {
      now := after;
      StepHolds(ch, last, bytes, exhausted, room, result, after);
      if room > 0 && result == Done([]) {
        ZeroByteRead(ch, start, fs, k, last, taken, delivered, bytes, exhausted, room, result, after);
        if !seen.emptyWrite { NotEmptyAt(fs, k); }
      }
    }
  }

  /**
    When the caller has heard of an end, `k` frames have come whole and `offset` bytes of
    the next; it has got exactly the payload of these, and it has heard of a failure
    if and only if the offset is not where the next frame's wire can be cut unnoticed.
   */
  predicate EndTold(ch: Channel, start: Cursor, fs: seq<Frame>, k: nat, offset: int, delivered: seq<byte>,
                    failed: bool) {
    && k <= |fs| && delivered == Payload(fs[..k])
    && if k == |fs| then offset == 0 && !failed
       else
         var cur := After(ch, start, fs[..k]);
         && 0 <= offset < |EncodeFrame(ch, cur, fs[k])|
         && (failed <==> CutEnding(ch, cur, fs[k], offset) != CleanEnd)
  }

  /** In the decoder's terms: what was delivered and heard is what it makes of the wire that came. */
  lemma ToldIsDecoded(ch: Channel, start: Cursor, fs: seq<Frame>, k: nat, offset: int, delivered: seq<byte>,
                      failed: bool, wire: seq<byte>)
    requires AllDrawable(ch, fs) && EndTold(ch, start, fs, k, offset, delivered, failed)
    requires wire <= Encode(ch, start, fs) && |wire| == |Encode(ch, start, fs[..k])| + offset
    ensures Decode(ch, start, wire).payload == delivered
    ensures failed <==> Decode(ch, start, wire).ending != CleanEnd
  {
    if k == |fs| {
      assert fs[..k] == fs && wire == Encode(ch, start, fs);
      RoundTrip(ch, start, fs);
    } else {
      FrontOfWire(ch, start, fs, k, offset, wire);
      hide Decode, EncodeFrame, CutEnding, Drawable;
      assert fs[k] in fs;
      Truncation(ch, start, fs[..k], fs[k], offset);
    }
  }

  lemma FrontOfWire(ch: Channel, start: Cursor, fs: seq<Frame>, k: nat, offset: nat, wire: seq<byte>)
    requires k < |fs| && offset < |EncodeFrame(ch, After(ch, start, fs[..k]), fs[k])|
    requires wire <= Encode(ch, start, fs) && |wire| == |Encode(ch, start, fs[..k])| + offset
    ensures wire == Encode(ch, start, fs[..k]) + EncodeFrame(ch, After(ch, start, fs[..k]), fs[k])[..offset]
  {
    assert fs == fs[..k] + fs[k..];
    EncodeAppend(ch, start, fs[..k], fs[k..]);
    var cur := After(ch, start, fs[..k]);
    assert Encode(ch, cur, fs[k..])
        == EncodeFrame(ch, cur, fs[k]) + Encode(ch, AfterFrame(ch, cur, fs[k]), fs[k..][1..]);
    hide Encode, After, EncodeFrame, AfterFrame;
  }

  lemma EndIsTold(ch: Channel, start: Cursor, fs: seq<Frame>, k: nat, last: Reader, taken: seq<byte>,
                  delivered: seq<byte>, seen: Seen)
    requires Received(ch, start, fs, k, last, taken, delivered, seen)
    requires seen.failed || (seen.emptyRead && !seen.emptyWrite)
    ensures k <= |fs| && EndTold(ch, start, fs, k, |taken| - |Encode(ch, start, fs[..k])|, delivered, seen.failed)
  {
    assert Payload(fs[..k]) + [] == Payload(fs[..k]);
    if k < |fs| {
      var wire, cur := Encode(ch, start, fs[..k]), After(ch, start, fs[..k]);
      StoppedInside(ch, cur, fs[k], last, taken[|wire|..]);
      if !seen.emptyWrite { NotEmptyAt(fs, k); }
    }
  }

  /** Where the reader stands within a frame tells whether the frame was cut on a segment boundary. */
  lemma StoppedInside(ch: Channel, cur: Cursor, f: Frame, r: Reader, eaten: seq<byte>)
    requires Inside(ch, cur, f, r, eaten) && Settled(ch, r) && !r.state.Ready?
    ensures |eaten| < |EncodeFrame(ch, cur, f)|
    ensures SegmentBoundary(ch, cur, f, |eaten|) <==> r.buffer == []
    ensures ExpectsNoData(r.state) && r.buffer == [] ==> OnlyTagLost(ch, cur, f, |eaten|)
  {
    PartlyTaken(ch, cur, f, r, eaten);
    InsideNeeds(ch, cur, f, r, eaten);
  }
}
