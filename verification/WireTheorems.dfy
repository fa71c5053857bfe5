/** What the decoder makes of an encoded wire, whole or cut anywhere. */
module WireTheorems {
  import opened Bytes
  import opened Frames

  /** A drawn padding fits the two bytes that announce it. */
  lemma DrawnPaddingFits(ch: Channel, f: Frame)
    requires Drawable(ch, f)
    ensures |f.padding| <= U16_MAX
    ensures !ch.padding.Needed() ==> f.padding == []
  {
  }

  /** A frame's header announces the lengths of its data and padding. */
  lemma HeaderReads(ch: Channel, f: Frame)
    requires Drawable(ch, f)
    ensures |PlainHeader(ch, f)| == if ch.padding.Needed() then 4 else 2
    ensures GetUint(PlainHeader(ch, f)[..2]) == |f.data|
    ensures ch.padding.Needed() ==> GetUint(PlainHeader(ch, f)[2..4]) == |f.padding|
  {
    U16RoundTrip(|f.data|);
    U16RoundTrip(|f.padding|);
    var h := PlainHeader(ch, f);
    assert h[..2] == PutUint(|f.data|, 2);
    if ch.padding.Needed() {
      assert h[2..4] == PutUint(|f.padding|, 2);
    }
  }

  lemma HeaderStage(ch: Channel, cur: Cursor, f: Frame, wire: seq<byte>)
    requires Drawable(ch, f)
    ensures FrameStage(ch, cur, EncodeHeader(ch, cur, f) + wire)
         == PaddingStage(ch, AfterHeader(ch, cur, |f.padding|), |f.padding|, |f.data|, wire)
  {
    var header := EncodeHeader(ch, cur, f);
    assert (header + wire)[..HeaderSize(ch, cur)] == header;
    assert (header + wire)[HeaderSize(ch, cur)..] == wire;
    OpenIfSealIf(ch, cur, PlainHeader(ch, f));
    HeaderReads(ch, f);
  }

  lemma SealedDataStage(ch: Channel, cur: Cursor, data: seq<byte>, wire: seq<byte>)
    ensures DataStage(ch, cur, |data|, SealIf(ch, cur, data) + wire) == Complete(data, AfterData(ch, cur, |data|), wire)
  {
    var sealed := SealIf(ch, cur, data);
    OpenIfSealIf(ch, cur, data);
    assert (sealed + wire)[..|sealed|] == sealed && (sealed + wire)[|sealed|..] == wire;
  }

  lemma FrameRoundTrip(ch: Channel, cur: Cursor, f: Frame, wire: seq<byte>)
    requires Drawable(ch, f)
    ensures FrameStage(ch, cur, EncodeFrame(ch, cur, f) + wire)
         == Complete(f.data, AfterFrame(ch, cur, f), wire)
  {
    var mid := AfterHeader(ch, cur, |f.padding|);
    var rest := EncodeData(ch, cur, f) + wire;
    HeaderStage(ch, cur, f, f.padding + rest);
    SealedDataStage(ch, mid, f.data, wire);
    hide FrameStage, DataStage, EncodeHeader, SealIf, AfterHeader, AfterData, Drawable;
    Regroup(EncodeHeader(ch, cur, f), f.padding, EncodeData(ch, cur, f), wire);
  }

  /** Decoding undoes encoding, and what follows the encoded frames is left for later. */
  lemma {:induction false} DecodeEncode(ch: Channel, cur: Cursor, fs: seq<Frame>, wire: seq<byte>)
    requires AllDrawable(ch, fs)
    ensures Decode(ch, cur, Encode(ch, cur, fs) + wire)
         == Prepend(Payload(fs), Decode(ch, After(ch, cur, fs), wire))
    decreases |fs|
  {
    if fs == [] {
      assert Encode(ch, cur, fs) + wire == wire;
      PrependTwice([], [], Decode(ch, cur, wire));
    } else {
      var next := AfterFrame(ch, cur, fs[0]);
      var rest := Encode(ch, next, fs[1..]) + wire;
      var d := Decode(ch, After(ch, cur, fs), wire);
      calc {
        Decode(ch, cur, Encode(ch, cur, fs) + wire);
        { assert Encode(ch, cur, fs) + wire == EncodeFrame(ch, cur, fs[0]) + rest; }
        Decode(ch, cur, EncodeFrame(ch, cur, fs[0]) + rest);
        { FrameRoundTrip(ch, cur, fs[0], rest); }
        Prepend(fs[0].data, Decode(ch, next, rest));
        { DecodeEncode(ch, next, fs[1..], wire); }
        Prepend(fs[0].data, Prepend(Payload(fs[1..]), d));
        { PrependTwice(fs[0].data, Payload(fs[1..]), d); }
        Prepend(Payload(fs), d);
      }
    }
  }

  lemma RoundTrip(ch: Channel, cur: Cursor, fs: seq<Frame>)
    requires AllDrawable(ch, fs)
    ensures Decode(ch, cur, Encode(ch, cur, fs)) == Decoded(Payload(fs), CleanEnd)
  {
    DecodeEncode(ch, cur, fs, []);
    assert Encode(ch, cur, fs) + [] == Encode(ch, cur, fs);
  }

  // ---------------------------------------------------------------------
  // Truncation

  predicate SegmentBoundary(ch: Channel, cur: Cursor, f: Frame, offset: nat) {
    || offset == 0
    || offset == HeaderSize(ch, cur)
    || offset == HeaderSize(ch, cur) + |f.padding|
  }

  /** The cut removes exactly the tag that is all an empty encrypted frame has for data. */
  predicate OnlyTagLost(ch: Channel, cur: Cursor, f: Frame, offset: nat) {
    f.data == [] && offset == HeaderSize(ch, cur) + |f.padding|
  }

  function CutEnding(ch: Channel, cur: Cursor, f: Frame, offset: nat): Ending {
    if OnlyTagLost(ch, cur, f, offset) then InvalidData
    else if SegmentBoundary(ch, cur, f, offset) then CleanEnd
    else UnexpectedEof
  }

  lemma CutFrame(ch: Channel, cur: Cursor, f: Frame, offset: nat)
    requires Drawable(ch, f)
    requires offset < |EncodeFrame(ch, cur, f)|
    ensures FrameStage(ch, cur, EncodeFrame(ch, cur, f)[..offset]) == Stop(CutEnding(ch, cur, f, offset))
  {
    var header := EncodeHeader(ch, cur, f);
    var wire := EncodeFrame(ch, cur, f)[..offset];
    if offset >= |header| {
      assert wire == header + (f.padding + EncodeData(ch, cur, f))[..offset - |header|];
      HeaderStage(ch, cur, f, wire[|header|..]);
    }
  }

  /**
    However a wire is cut, the receiver gets exactly the payloads of the frames
    that arrived whole. The end looks clean if and only if the cut lies on a
    segment boundary, except where it takes nothing but the tag of an empty
    encrypted frame.
   */
  lemma Truncation(ch: Channel, cur: Cursor, fs: seq<Frame>, f: Frame, offset: nat)
    requires AllDrawable(ch, fs) && Drawable(ch, f)
    requires offset < |EncodeFrame(ch, After(ch, cur, fs), f)|
    ensures var last := After(ch, cur, fs);
      Decode(ch, cur, Encode(ch, cur, fs) + EncodeFrame(ch, last, f)[..offset])
        == Decoded(Payload(fs), CutEnding(ch, last, f, offset))
  {
    var last := After(ch, cur, fs);
    DecodeEncode(ch, cur, fs, EncodeFrame(ch, last, f)[..offset]);
    CutFrame(ch, last, f, offset);
    assert Payload(fs) + [] == Payload(fs);
  }

  /** Every cut of an encoded wire short of its end lies inside exactly one frame. */
  lemma {:induction false} LocateCut(ch: Channel, cur: Cursor, fs: seq<Frame>, cut: nat) returns (i: nat, offset: nat)
    requires cut < |Encode(ch, cur, fs)|
    ensures i < |fs| && offset < |EncodeFrame(ch, After(ch, cur, fs[..i]), fs[i])|
    ensures Encode(ch, cur, fs)[..cut]
         == Encode(ch, cur, fs[..i]) + EncodeFrame(ch, After(ch, cur, fs[..i]), fs[i])[..offset]
    decreases |fs|
  {
    var first := EncodeFrame(ch, cur, fs[0]);
    if cut < |first| {
      i, offset := 0, cut;
      assert fs[..0] == [];
      assert Encode(ch, cur, fs)[..cut] == [] + first[..cut];
    } else {
      var next := AfterFrame(ch, cur, fs[0]);
      i, offset := LocateCut(ch, next, fs[1..], cut - |first|);
      assert fs[..i + 1][1..] == fs[1..][..i];
      assert Encode(ch, cur, fs)[..cut] == first + Encode(ch, next, fs[1..])[..cut - |first|];
      assert Encode(ch, cur, fs[..i + 1]) == first + Encode(ch, next, fs[1..][..i]);
      assert After(ch, cur, fs[..i + 1]) == After(ch, next, fs[1..][..i]);
      hide Encode, After;
      i := i + 1;
    }
  }

  /** With no empty frames, "clean end" means exactly "cut on a segment boundary". */
  lemma TruncationOfNonEmptyFrames(ch: Channel, cur: Cursor, fs: seq<Frame>, cut: nat)
    returns (i: nat, offset: nat)
    requires AllDrawable(ch, fs)
    requires forall f <- fs :: f.data != []
    requires cut < |Encode(ch, cur, fs)|
    ensures i < |fs| && cut == |Encode(ch, cur, fs[..i])| + offset
    ensures offset < |EncodeFrame(ch, After(ch, cur, fs[..i]), fs[i])|
    ensures var d := Decode(ch, cur, Encode(ch, cur, fs)[..cut]);
      && d.payload == Payload(fs[..i])
      && (d.ending == CleanEnd <==> SegmentBoundary(ch, After(ch, cur, fs[..i]), fs[i], offset))
      && (d.ending != CleanEnd <==> d.ending == UnexpectedEof)
  {
    i, offset := LocateCut(ch, cur, fs, cut);
    Truncation(ch, cur, fs[..i], fs[i], offset);
    assert fs[i] in fs;
  }
}
