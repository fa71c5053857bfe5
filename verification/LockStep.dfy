/**
  Sender and receiver in step: nothing on the wire tells a frame's nonce or
  whether it is encrypted, so both ends must always agree on their counters.
 */
module LockStep {
  import opened Bytes
  import opened Frames
  import opened Transports
  import opened Readers
  import opened WireTheorems

  /** The segment of the frame the reader is collecting, and the frame's wire before it. */
  function Segment(ch: Channel, cur: Cursor, f: Frame, s: ReadState): seq<byte> {
    match s
    case Header => EncodeHeader(ch, cur, f)
    case Padding(_, _) => f.padding
    case Data(_) => EncodeData(ch, cur, f)
    case Ready(_) => []
  }

  function Before(ch: Channel, cur: Cursor, f: Frame, s: ReadState): seq<byte> {
    match s
    case Header => []
    case Padding(_, _) => EncodeHeader(ch, cur, f)
    case Data(_) => EncodeHeader(ch, cur, f) + f.padding
    case Ready(_) => EncodeFrame(ch, cur, f)
  }

  /** What the reader knows of the frame in each state is what the sender put into it. */
  predicate Informed(ch: Channel, cur: Cursor, f: Frame, r: Reader) {
    var mid := AfterHeader(ch, cur, |f.padding|);
    match r.state
    case Header => r.cur == cur
    case Padding(size, dataSize) => (size, dataSize, r.cur) == (|f.padding|, |f.data|, mid)
    case Data(size) => (size, r.cur) == (|f.data|, mid)
    case Ready(pos) => (r.buffer, r.cur) == (f.data, AfterFrame(ch, cur, f)) && pos <= |f.data|
  }

  /** The reader is within frame `f`, sealed at cursor `cur`, of which it has taken `eaten`. */
  predicate Inside(ch: Channel, cur: Cursor, f: Frame, r: Reader, eaten: seq<byte>) {
    && Informed(ch, cur, f, r)
    && (if r.state.Ready? then eaten == Before(ch, cur, f, r.state)
        else eaten == Before(ch, cur, f, r.state) + r.buffer && r.buffer <= Segment(ch, cur, f, r.state))
  }

  lemma InsideNeeds(ch: Channel, cur: Cursor, f: Frame, r: Reader, eaten: seq<byte>)
    requires Inside(ch, cur, f, r, eaten) && !r.state.Ready?
    ensures Need(ch, r) == |Segment(ch, cur, f, r.state)|
    ensures |r.buffer| <= Need(ch, r)
  {
  }

  /** A completed segment leads to the next one of the same frame. */
  lemma InsideAdvances(ch: Channel, cur: Cursor, f: Frame, r: Reader, eaten: seq<byte>)
    requires Drawable(ch, f)
    requires Inside(ch, cur, f, r, eaten) && !r.state.Ready?
    requires r.buffer == Segment(ch, cur, f, r.state)
    ensures |r.buffer| == Need(ch, r)
    ensures Advance(ch, r).Some? && Inside(ch, cur, f, Advance(ch, r).value, eaten)
  {
    match r.state {
      case Header =>
        OpenIfSealIf(ch, cur, PlainHeader(ch, f));
        HeaderReads(ch, f);
        DrawnPaddingFits(ch, f);
      case Padding(_, _) =>
      case Data(_) =>
        OpenIfSealIf(ch, r.cur, f.data);
    }
  }

  /** Taking more bytes of the frame never fails and keeps the reader within it. */
  lemma {:induction false} FeedInside(ch: Channel, cur: Cursor, f: Frame, r: Reader, eaten: seq<byte>, bytes: seq<byte>)
    requires Drawable(ch, f)
    requires Inside(ch, cur, f, r, eaten)
    requires eaten + bytes <= EncodeFrame(ch, cur, f)
    ensures r.state.Ready? || |r.buffer| <= Need(ch, r)
    ensures Feed(ch, r, bytes).Fed?
    ensures Inside(ch, cur, f, Feed(ch, r, bytes).reader, eaten + bytes)
    decreases |bytes|, Rank(r.state)
  {
    hide Feed, Advance, Inside, EncodeFrame, Need, Drawable, Segment;
    if r.state.Ready? {
      ReadyInside(ch, cur, f, r, eaten, bytes);
    } else {
      InsideNeeds(ch, cur, f, r, eaten);
      var missing := Need(ch, r) - |r.buffer|;
      if |bytes| < missing {
        InsideTakes(ch, cur, f, r, eaten, bytes, bytes);
        FeedPart(ch, r, bytes);
      } else {
        InsideTakes(ch, cur, f, r, eaten, bytes[..missing], bytes);
        var full := r.(buffer := r.buffer + bytes[..missing]);
        InsideAdvances(ch, cur, f, full, eaten + bytes[..missing]);
        var next := Advance(ch, full).value;
        FeedOn(ch, r, bytes, missing, next);
        Pour(eaten, bytes, missing);
        FeedInside(ch, cur, f, next, eaten + bytes[..missing], bytes[missing..]);
      }
    }
  }

  lemma ReadyInside(ch: Channel, cur: Cursor, f: Frame, r: Reader, eaten: seq<byte>, bytes: seq<byte>)
    requires Inside(ch, cur, f, r, eaten) && r.state.Ready?
    requires eaten + bytes <= EncodeFrame(ch, cur, f)
    ensures eaten + bytes == eaten && Feed(ch, r, bytes) == Fed(r)
  {
    assert bytes == [];
  }

  lemma InsideTakes(ch: Channel, cur: Cursor, f: Frame, r: Reader, eaten: seq<byte>, head: seq<byte>, bytes: seq<byte>)
    requires Inside(ch, cur, f, r, eaten) && !r.state.Ready?
    requires head <= bytes && eaten + bytes <= EncodeFrame(ch, cur, f)
    requires |r.buffer| + |head| <= |Segment(ch, cur, f, r.state)|
    ensures Inside(ch, cur, f, r.(buffer := r.buffer + head), eaten + head)
    ensures r.buffer + head <= Segment(ch, cur, f, r.state)
  {
    var before, segment := Before(ch, cur, f, r.state), Segment(ch, cur, f, r.state);
    assert before + segment <= EncodeFrame(ch, cur, f);
    SegmentPrefix(before, r.buffer, head, bytes, segment, EncodeFrame(ch, cur, f));
  }

  lemma SegmentPrefix(before: seq<byte>, buffer: seq<byte>, head: seq<byte>, bytes: seq<byte>,
                      segment: seq<byte>, whole: seq<byte>)
    requires before + segment <= whole && (before + buffer) + bytes <= whole
    requires head <= bytes && |buffer| + |head| <= |segment|
    ensures buffer + head <= segment
    ensures (before + buffer) + head == before + (buffer + head)
  {
    assert buffer + head == whole[|before|..|before| + |buffer| + |head|];
    assert segment == whole[|before|..|before| + |segment|];
  }

  // ---------------------------------------------------------------------
  // Whole streams

  /** The part of the current frame's data already handed to the caller. */
  function Handed(r: Reader): seq<byte>
    requires r.state.Ready? ==> r.state.pos <= |r.buffer|
  {
    if r.state.Ready? then r.buffer[..r.state.pos] else []
  }

  /**
    Of the frames `fs` the sender has made, the first `k` are received and
    delivered, and the reader is in the next one, if there is one: `taken` is
    what it took from the wire, `delivered` what its callers got.
   */
  predicate InStep(ch: Channel, start: Cursor, fs: seq<Frame>, k: nat, r: Reader, taken: seq<byte>,
                   delivered: seq<byte>) {
    && k <= |fs|
    && var received := fs[..k];
       var wire, cur := Encode(ch, start, received), After(ch, start, received);
       && wire <= taken
       && (if k == |fs| then r == Reader(Header, [], cur) && taken == wire
           else Inside(ch, cur, fs[k], r, taken[|wire|..]))
       && delivered == Payload(received) + Handed(r)
  }

  /**
    At a frame boundary the receiver's byte count and nonce, and with them its
    decision whether the frame is encrypted, are the sender's for that frame.
   */
  lemma Agreement(ch: Channel, start: Cursor, fs: seq<Frame>, k: nat, r: Reader, taken: seq<byte>, delivered: seq<byte>)
    requires InStep(ch, start, fs, k, r, taken, delivered)
    ensures r.state.Header? ==> r.cur == After(ch, start, fs[..k])
    ensures !r.state.Ready? && k < |fs| ==> Encrypted(ch, r.cur) == Encrypted(ch, After(ch, start, fs[..k]))
    ensures delivered <= Payload(fs)
  {
    assert fs == fs[..k] + fs[k..];
    PayloadAppend(fs[..k], fs[k..]);
  }

  lemma StartsInStep(ch: Channel, start: Cursor)
    ensures InStep(ch, start, [], 0, Reader(Header, [], start), [], [])
  {
  }

  /** A reader at the boundary before frame `k` is in step. */
  lemma BoundaryInStep(ch: Channel, start: Cursor, fs: seq<Frame>, k: nat)
    requires k <= |fs|
    ensures InStep(ch, start, fs, k, Reader(Header, [], After(ch, start, fs[..k])),
                   Encode(ch, start, fs[..k]), Payload(fs[..k]))
  {
    var wire := Encode(ch, start, fs[..k]);
    assert wire[|wire|..] == [];
    assert Payload(fs[..k]) + [] == Payload(fs[..k]);
  }

  /** New frames do not disturb the receiver. */
  lemma GrowKeepsStep(ch: Channel, start: Cursor, fs: seq<Frame>, more: seq<Frame>, k: nat, r: Reader,
                      taken: seq<byte>, delivered: seq<byte>)
    requires InStep(ch, start, fs, k, r, taken, delivered)
    ensures InStep(ch, start, fs + more, k, r, taken, delivered)
  {
    assert (fs + more)[..k] == fs[..k];
    if k == |fs| {
      BoundaryInStep(ch, start, fs + more, k);
      assert Payload(fs[..k]) + [] == Payload(fs[..k]);
    }
  }

  lemma PrefixOfEncoding(ch: Channel, start: Cursor, fs: seq<Frame>, k: nat)
    requires k < |fs|
    ensures After(ch, start, fs[..k + 1]) == AfterFrame(ch, After(ch, start, fs[..k]), fs[k])
    ensures Encode(ch, start, fs[..k + 1])
         == Encode(ch, start, fs[..k]) + EncodeFrame(ch, After(ch, start, fs[..k]), fs[k])
    ensures Encode(ch, start, fs[..k + 1]) <= Encode(ch, start, fs)
    ensures Payload(fs[..k + 1]) == Payload(fs[..k]) + fs[k].data
  {
    assert fs[..k + 1] == fs[..k] + [fs[k]] && fs == fs[..k + 1] + fs[k + 1..];
    EncodeAppend(ch, start, fs[..k], [fs[k]]);
    AfterAppend(ch, start, fs[..k], [fs[k]]);
    PayloadAppend(fs[..k], [fs[k]]);
    EncodeOne(ch, After(ch, start, fs[..k]), fs[k]);
    EncodeAppend(ch, start, fs[..k + 1], fs[k + 1..]);
  }

  /** Bytes beyond the end of the frame are not taken. */
  lemma TakesNoMore(ch: Channel, cur: Cursor, f: Frame, r: Reader, eaten: seq<byte>, bytes: seq<byte>)
    requires Drawable(ch, f) && Inside(ch, cur, f, r, eaten) && Settled(ch, r)
    requires EncodeFrame(ch, cur, f) < eaten + bytes
    ensures Feed(ch, r, bytes).Overrun?
  {
    InsideIsPrefix(ch, cur, f, r, eaten);
    var room := |EncodeFrame(ch, cur, f)| - |eaten|;
    Reached(eaten, bytes, EncodeFrame(ch, cur, f));
    FeedInside(ch, cur, f, r, eaten, bytes[..room]);
    hide Inside, EncodeFrame, Drawable, Advance;
    FeedSettles(ch, r, bytes[..room]);
    PartlyTaken(ch, cur, f, Feed(ch, r, bytes[..room]).reader, eaten + bytes[..room]);
    FeedAppend(ch, r, bytes[..room], bytes[room..]);
  }

  lemma Reached(eaten: seq<byte>, bytes: seq<byte>, whole: seq<byte>)
    requires eaten <= whole < eaten + bytes
    ensures var room := |whole| - |eaten|;
      room < |bytes| && eaten + bytes[..room] == whole && bytes == bytes[..room] + bytes[room..]
  {
    assert whole == (eaten + bytes)[..|whole|];
  }

  lemma SplitFront(front: seq<byte>, whole: seq<byte>, more: seq<byte>)
    requires front <= whole
    ensures whole + more == front + (whole[|front|..] + more)
    ensures (whole + more)[|front|..] == whole[|front|..] + more
  {
    assert whole == front + whole[|front|..];
  }

  lemma SameFront(front: seq<byte>, a: seq<byte>, b: seq<byte>)
    ensures front + a <= front + b <==> a <= b
    ensures front + a < front + b <==> a < b
  {
    assert (front + a)[|front|..] == a && (front + b)[|front|..] == b;
  }

  /** Of two prefixes of one wire, one is a prefix of the other. */
  lemma Comparable(a: seq<byte>, b: seq<byte>, whole: seq<byte>)
    requires a <= whole && b <= whole
    ensures a <= b || b < a
  {
  }

  /** Any bytes the reader accepts lie within the frame it is in, and never fail to open. */
  lemma FeedInStep(ch: Channel, start: Cursor, fs: seq<Frame>, k: nat, r: Reader, taken: seq<byte>,
                   delivered: seq<byte>, bytes: seq<byte>)
    requires AllDrawable(ch, fs) && InStep(ch, start, fs, k, r, taken, delivered) && Settled(ch, r)
    requires taken + bytes <= Encode(ch, start, fs)
    requires !Feed(ch, r, bytes).Overrun?
    ensures Feed(ch, r, bytes).Fed?
    ensures var after := Feed(ch, r, bytes).reader;
      && InStep(ch, start, fs, k, after, taken + bytes, delivered)
      && (after.state.Ready? ==> k < |fs|)
  {
    if k == |fs| {
      assert fs[..k] == fs && bytes == [] && taken + bytes == taken;
      assert r.(buffer := r.buffer + []) == r;
    } else {
      PrefixOfEncoding(ch, start, fs, k);
      var wire, cur := Encode(ch, start, fs[..k]), After(ch, start, fs[..k]);
      var frame, eaten := EncodeFrame(ch, cur, fs[k]), taken[|wire|..];
      SplitFront(wire, taken, bytes);
      Comparable(taken + bytes, wire + frame, Encode(ch, start, fs));
      hide EncodeFrame, Feed, Inside, After, Encode;
      SameFront(wire, frame, eaten + bytes);
      SameFront(wire, eaten + bytes, frame);
      if wire + frame < taken + bytes {
        TakesNoMore(ch, cur, fs[k], r, eaten, bytes);
      }
      FeedInside(ch, cur, fs[k], r, eaten, bytes);
      HandedKept(ch, r, bytes);
    }
  }

  lemma InsideIsPrefix(ch: Channel, cur: Cursor, f: Frame, r: Reader, eaten: seq<byte>)
    requires Inside(ch, cur, f, r, eaten)
    ensures eaten <= EncodeFrame(ch, cur, f)
  {
    if !r.state.Ready? {
      assert Before(ch, cur, f, r.state) + Segment(ch, cur, f, r.state) <= EncodeFrame(ch, cur, f);
    }
  }

  /** A reader that is still collecting has not taken the whole frame. */
  lemma PartlyTaken(ch: Channel, cur: Cursor, f: Frame, r: Reader, eaten: seq<byte>)
    requires Inside(ch, cur, f, r, eaten) && Settled(ch, r)
    ensures |eaten| <= |EncodeFrame(ch, cur, f)|
    ensures !r.state.Ready? ==> |eaten| < |EncodeFrame(ch, cur, f)|
  {
    InsideIsPrefix(ch, cur, f, r, eaten);
    if !r.state.Ready? { InsideNeeds(ch, cur, f, r, eaten); }
  }

  /** Collecting hands nothing over. */
  lemma {:induction false} HandedKept(ch: Channel, r: Reader, bytes: seq<byte>)
    requires Settled(ch, r) && Feed(ch, r, bytes).Fed?
    ensures Settled(ch, Feed(ch, r, bytes).reader)
    ensures Handed(Feed(ch, r, bytes).reader) == Handed(r)
  {
    FeedSettles(ch, r, bytes);
  }

  /** Handing data over moves it from the buffer to what was delivered. */
  lemma HandOver(r: Reader, room: nat, front: seq<byte>)
    requires r.state.Ready? && r.state.pos <= |r.buffer|
    ensures var (out, after) := Deliver(r, room);
      && (after.state.Ready? ==> after.state.pos <= |after.buffer|)
      && (front + Handed(r)) + out == front + (if after.state.Ready? then Handed(after) else r.buffer)
  {
    var (out, after) := Deliver(r, room);
    var upto := r.state.pos + |out|;
    assert Handed(r) + out == r.buffer[..upto];
    if !after.state.Ready? { assert r.buffer[..upto] == r.buffer; }
    assert (front + Handed(r)) + out == front + (Handed(r) + out);
  }

  lemma DeliverInStep(ch: Channel, start: Cursor, fs: seq<Frame>, k: nat, r: Reader, taken: seq<byte>,
                      delivered: seq<byte>, room: nat) returns (next: nat)
    requires InStep(ch, start, fs, k, r, taken, delivered) && r.state.Ready? && k < |fs|
    ensures var (out, after) := Deliver(r, room);
      InStep(ch, start, fs, next, after, taken, delivered + out)
  {
    var (out, after) := Deliver(r, room);
    HandOver(r, room, Payload(fs[..k]));
    if after.state.Ready? {
      next := k;
    } else {
      next := k + 1;
      FrameDone(ch, start, fs, k, r, taken, delivered);
    }
  }

  /** A frame that is taken and handed over completely puts the reader at the next boundary. */
  lemma FrameDone(ch: Channel, start: Cursor, fs: seq<Frame>, k: nat, r: Reader, taken: seq<byte>, delivered: seq<byte>)
    requires InStep(ch, start, fs, k, r, taken, delivered) && r.state.Ready? && k < |fs|
    ensures InStep(ch, start, fs, k + 1, Reader(Header, [], r.cur), taken, Payload(fs[..k]) + r.buffer)
  {
    hide EncodeFrame, Encode, After, AfterFrame, Payload;
    PrefixOfEncoding(ch, start, fs, k);
    var wire := Encode(ch, start, fs[..k]);
    assert taken == wire + taken[|wire|..];
    BoundaryInStep(ch, start, fs, k + 1);
  }

  /**
    Every poll of the receiver keeps it in step with the sender, whatever the
    transport gave it, and none of them fails unless the transport has ended.
   */
  lemma ReadKeepsStep(ch: Channel, start: Cursor, fs: seq<Frame>, k: nat, r: Reader, taken: seq<byte>,
                      delivered: seq<byte>, bytes: seq<byte>, ended: bool, room: nat,
                      result: Poll<seq<byte>>, after: Reader) returns (next: nat)
    requires AllDrawable(ch, fs) && InStep(ch, start, fs, k, r, taken, delivered) && Settled(ch, r)
    requires taken + bytes <= Encode(ch, start, fs)
    requires ReadStep(ch, r, bytes, ended, room, result, after)
    ensures !Ends(result) ==> InStep(ch, start, fs, next, after, taken + bytes,
                                     delivered + Output(result)) && Settled(ch, after)
    ensures Ends(result) ==> ended && Feed(ch, r, bytes).Fed?
    ensures Ends(result) ==>
      var fed := Feed(ch, r, bytes).reader;
      && InStep(ch, start, fs, next, fed, taken + bytes, delivered)
      && !fed.state.Ready? && (fed.buffer != [] || ExpectsNoData(fed.state))
  {
    hide InStep, Feed, AllDrawable, Encode;
    FeedInStep(ch, start, fs, k, r, taken, delivered, bytes);
    FeedSettles(ch, r, bytes);
    var fed := Feed(ch, r, bytes).reader;
    next := k;
    assert delivered + [] == delivered;
    if result.Done? && fed.state.Ready? && (result.value, after) == Deliver(fed, room) {
      next := DeliverInStep(ch, start, fs, k, fed, taken + bytes, delivered, room);
    }
  }

  /** Once the whole wire is taken and nothing waits to be handed over, everything is delivered. */
  lemma Drained(ch: Channel, start: Cursor, fs: seq<Frame>, k: nat, r: Reader, taken: seq<byte>, delivered: seq<byte>)
    requires InStep(ch, start, fs, k, r, taken, delivered) && Settled(ch, r)
    requires taken == Encode(ch, start, fs) && !r.state.Ready?
    ensures delivered == Payload(fs) && r == Reader(Header, [], After(ch, start, fs))
  {
    if k < |fs| {
      NotAllTaken(ch, start, fs, k, r, taken, delivered);
    } else {
      assert fs[..k] == fs && Payload(fs) + [] == Payload(fs);
    }
  }

  lemma NotAllTaken(ch: Channel, start: Cursor, fs: seq<Frame>, k: nat, r: Reader, taken: seq<byte>,
                    delivered: seq<byte>)
    requires InStep(ch, start, fs, k, r, taken, delivered) && Settled(ch, r)
    requires k < |fs| && !r.state.Ready?
    ensures |taken| < |Encode(ch, start, fs)|
  {
    PrefixOfEncoding(ch, start, fs, k);
    PartlyTaken(ch, After(ch, start, fs[..k]), fs[k], r, taken[|Encode(ch, start, fs[..k])|..]);
  }
}
