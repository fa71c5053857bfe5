/**
  The reading half of the stream as a machine fed with bytes: what one
  `poll_read` may do, and that any schedule of them means what `Decode` says.
 */
module Readers {
  import opened Bytes
  import opened Frames
  import opened Transports

  datatype ReadState =
    | Header
    | Padding(size: nat, dataSize: nat)
    | Data(size: nat)
    | Ready(pos: nat)

  datatype Reader = Reader(state: ReadState, buffer: seq<byte>, cur: Cursor)

  /** A data segment of no payload, as an empty frame has. */
  predicate ExpectsNoData(s: ReadState) { s.Data? && s.size == 0 }

  /** The length of the segment the reader is collecting. */
  function Need(ch: Channel, r: Reader): nat {
    match r.state
    case Header => HeaderSize(ch, r.cur)
    case Padding(size, _) => size
    case Data(size) => size + TagSize(ch, r.cur)
    case Ready(_) => 0
  }

  /** Between polls: still collecting a segment, or holding data not yet delivered. */
  predicate Settled(ch: Channel, r: Reader) {
    match r.state
    case Ready(pos) => pos <= |r.buffer|
    case _ => |r.buffer| < Need(ch, r)
  }

  /** Between polls, decoded data waits only as long as there is some. */
  predicate Holding(r: Reader) { r.state.Ready? ==> r.state.pos < |r.buffer| }

  /** The step taken once the whole segment is in the buffer; none if it does not open. */
  function Advance(ch: Channel, r: Reader): Option<Reader>
    requires !r.state.Ready? && |r.buffer| == Need(ch, r)
  {
    match r.state
    case Header =>
      (match OpenIf(ch, r.cur, r.buffer)
       case None => None
       case Some(header) =>
         var size := GetUint(header[..2]);
         if ch.padding.Needed() then
           var padding := GetUint(header[2..4]);
           Some(Reader(Padding(padding, size), [], AfterHeader(ch, r.cur, padding)))
         else
           Some(Reader(Data(size), [], AfterHeader(ch, r.cur, 0))))
    case Padding(_, dataSize) => Some(r.(state := Data(dataSize), buffer := []))
    case Data(size) =>
      (match OpenIf(ch, r.cur, r.buffer)
       case None => None
       case Some(data) => Some(Reader(Ready(0), data, AfterData(ch, r.cur, size))))
  }

  function Rank(s: ReadState): nat {
    match s case Header => 3 case Padding(_, _) => 2 case Data(_) => 1 case Ready(_) => 0
  }

  /** `Bad`: a segment did not open. `Overrun`: more bytes were taken than the frame has. */
  datatype Fed = Fed(reader: Reader) | Bad | Overrun

  /** The reader after taking `bytes`. */
  function Feed(ch: Channel, r: Reader, bytes: seq<byte>): Fed
    requires r.state.Ready? || |r.buffer| <= Need(ch, r)
    decreases |bytes|, Rank(r.state)
  {
    if r.state.Ready? then if bytes == [] then Fed(r) else Overrun
    else
      var missing := Need(ch, r) - |r.buffer|;
      if |bytes| < missing then Fed(r.(buffer := r.buffer + bytes))
      else match Advance(ch, r.(buffer := r.buffer + bytes[..missing]))
        case None => Bad
        case Some(next) => Feed(ch, next, bytes[missing..])
  }

  /** Handing `room` bytes of the decoded data to the caller. */
  function Deliver(r: Reader, room: nat): (d: (seq<byte>, Reader))
    requires r.state.Ready? && r.state.pos <= |r.buffer|
  {
    var pos := r.state.pos;
    var taken := Min(|r.buffer| - pos, room);
    (r.buffer[pos..pos + taken],
     if pos + taken == |r.buffer| then Reader(Header, [], r.cur) else r.(state := Ready(pos + taken)))
  }

  function Output(result: Poll<seq<byte>>): seq<byte> {
    if result.Done? then result.value else []
  }

  /** The stream's own errors end it; the transport's do not. */
  predicate Ends(result: Poll<seq<byte>>) { result.Broken? && !result.error.Io? }

  /** How a poll may end once the bytes it took have led to `fed`; the transport has ended if `ended`. */
  predicate PollEnd(fed: Fed, ended: bool, room: nat, result: Poll<seq<byte>>, after: Reader) {
    match result
    case Stuck => fed == Fed(after) && !after.state.Ready?
    case Done(out) =>
      || (fed.Fed? && fed.reader.state.Ready? && fed.reader.state.pos <= |fed.reader.buffer|
          && (out, after) == Deliver(fed.reader, room))
      || (ended && fed == Fed(after) && !after.state.Ready? && after.buffer == [] && out == []
          && !ExpectsNoData(after.state))
    case Broken(Io) => fed == Fed(after) && !after.state.Ready?
    case Broken(Eof) => ended && fed == Fed(after) && !after.state.Ready? && after.buffer != []
    case Broken(Invalid) =>
      fed.Bad? || (ended && fed.Fed? && ExpectsNoData(fed.reader.state) && fed.reader.buffer == [])
  }

  /** One `poll_read` that took `bytes` from the transport. */
  predicate ReadStep(ch: Channel, r: Reader, bytes: seq<byte>, ended: bool, room: nat,
                     result: Poll<seq<byte>>, after: Reader)
    requires Settled(ch, r)
  {
    PollEnd(Feed(ch, r, bytes), ended, room, result, after)
  }

  // ---------------------------------------------------------------------
  // Feeding

  lemma {:induction false} FeedSettles(ch: Channel, r: Reader, bytes: seq<byte>)
    requires r.state.Ready? ==> Settled(ch, r)
    requires !r.state.Ready? ==> |r.buffer| <= Need(ch, r)
    ensures var fed := Feed(ch, r, bytes);
      fed.Fed? ==> Settled(ch, fed.reader) && (r.state.Ready? || !fed.reader.state.Ready? || fed.reader.state.pos == 0)
    decreases |bytes|, Rank(r.state)
  {
    if !r.state.Ready? {
      var missing := Need(ch, r) - |r.buffer|;
      if |bytes| >= missing {
        var next := Advance(ch, r.(buffer := r.buffer + bytes[..missing]));
        if next.Some? { FeedSettles(ch, next.value, bytes[missing..]); }
      }
    }
  }

  /** How the bytes are cut into reads does not matter. */
  lemma {:induction false} FeedAppend(ch: Channel, r: Reader, a: seq<byte>, b: seq<byte>)
    requires if r.state.Ready? then r.state.pos <= |r.buffer| else |r.buffer| <= Need(ch, r)
    requires Feed(ch, r, a).Fed?
    ensures Settled(ch, Feed(ch, r, a).reader)
    ensures Feed(ch, r, a + b) == Feed(ch, Feed(ch, r, a).reader, b)
    decreases |a|, Rank(r.state)
  {
    FeedSettles(ch, r, a);
    if r.state.Ready? {
      assert a + b == b;
    } else {
      var missing := Need(ch, r) - |r.buffer|;
      hide Advance, Settled, Rank;
      if |a| < missing {
        FeedShort(ch, r, a, b);
      } else {
        var next := Advance(ch, r.(buffer := r.buffer + a[..missing])).value;
        CutFront(a, b, missing);
        AdvanceFits(ch, r.(buffer := r.buffer + a[..missing]));
        FeedAppend(ch, next, a[missing..], b);
      }
    }
  }

  lemma CutFront(a: seq<byte>, b: seq<byte>, n: nat)
    requires n <= |a|
    ensures (a + b)[..n] == a[..n] && (a + b)[n..] == a[n..] + b
  {
  }

  /** Too few bytes for the segment only lengthen the buffer. */
  lemma FeedShort(ch: Channel, r: Reader, a: seq<byte>, b: seq<byte>)
    requires !r.state.Ready? && |r.buffer| + |a| < Need(ch, r)
    ensures Feed(ch, r, a + b) == Feed(ch, r.(buffer := r.buffer + a), b)
  {
    var missing, mid := Need(ch, r) - |r.buffer|, r.(buffer := r.buffer + a);
    hide Advance;
    assert r.buffer + (a + b) == mid.buffer + b;
    if |a + b| >= missing {
      assert r.buffer + (a + b)[..missing] == mid.buffer + b[..missing - |a|];
      assert (a + b)[missing..] == b[missing - |a|..];
    }
  }

  /** A step leaves a reader that has its new segment still to collect, and comes nearer to the data. */
  lemma AdvanceFits(ch: Channel, r: Reader)
    requires !r.state.Ready? && |r.buffer| == Need(ch, r)
    ensures var next := Advance(ch, r);
      next.Some? ==>
        && Rank(next.value.state) < Rank(r.state)
        && (if next.value.state.Ready? then next.value.state.pos == 0 else next.value.buffer == [])
  {
  }

  /**
    One segment's part of a poll: collect it, then either go on (`stop` is none)
    or leave with a result.
   */
  predicate Phase(ch: Channel, r: Reader, bytes: seq<byte>, ended: bool,
                  stop: Option<Poll<seq<byte>>>, after: Reader)
    requires !r.state.Ready? && |r.buffer| <= Need(ch, r)
  {
    var full := r.(buffer := r.buffer + bytes);
    match stop
    case None => |full.buffer| == Need(ch, r) && Advance(ch, full) == Some(after)
    case Some(Broken(Invalid)) =>
      || (|full.buffer| == Need(ch, r) && Advance(ch, full).None?)
      || (ended && ExpectsNoData(r.state) && full.buffer == [] && Need(ch, r) > 0)
    case Some(result) =>
      && after == full && |full.buffer| < Need(ch, r)
      && match result
         case Done(out) => ended && out == [] && full.buffer == [] && !ExpectsNoData(r.state)
         case Broken(Eof) => ended && full.buffer != []
         case _ => true
  }

  /** After taking `bytes`, the reader `r` is as if it had just come to `mid`. */
  predicate Leads(ch: Channel, r: Reader, bytes: seq<byte>, mid: Reader) {
    && (mid.state.Ready? ==> mid.state.pos <= |mid.buffer|)
    && (!mid.state.Ready? ==> |mid.buffer| <= Need(ch, mid))
    && Settled(ch, r)
    && Feed(ch, r, bytes) == Feed(ch, mid, [])
    && Feed(ch, mid, []).Fed?
  }

  lemma LeadsNowhere(ch: Channel, r: Reader)
    requires Settled(ch, r)
    ensures Leads(ch, r, [], r)
  {
    assert r.buffer + [] == r.buffer;
  }

  lemma LeadsOn(ch: Channel, r: Reader, taken: seq<byte>, mid: Reader, bytes: seq<byte>)
    requires Leads(ch, r, taken, mid)
    ensures Feed(ch, r, taken + bytes) == Feed(ch, mid, bytes)
  {
    FeedAppend(ch, r, taken, bytes);
    FeedAppend(ch, mid, [], bytes);
    assert [] + bytes == bytes;
  }

  lemma PhaseFeeds(ch: Channel, r: Reader, bytes: seq<byte>, ended: bool, after: Reader)
    requires !r.state.Ready? && |r.buffer| <= Need(ch, r)
    requires Phase(ch, r, bytes, ended, None, after)
    ensures Feed(ch, r, bytes) == Feed(ch, after, []) && Feed(ch, after, []).Fed?
    ensures if after.state.Ready? then after.state.pos <= |after.buffer| else |after.buffer| <= Need(ch, after)
  {
    assert bytes[..|bytes|] == bytes && bytes[|bytes|..] == [];
    NothingToTake(ch, after);
  }

  lemma PhaseLeads(ch: Channel, r: Reader, taken: seq<byte>, mid: Reader, bytes: seq<byte>, ended: bool, after: Reader)
    requires Leads(ch, r, taken, mid) && !mid.state.Ready?
    requires Phase(ch, mid, bytes, ended, None, after)
    ensures Leads(ch, r, taken + bytes, after)
  {
    hide Feed, Phase, Settled, Need;
    LeadsOn(ch, r, taken, mid, bytes);
    PhaseFeeds(ch, mid, bytes, ended, after);
  }

  /** A reader that has just begun a segment is never turned away without input. */
  lemma NothingToTake(ch: Channel, r: Reader)
    requires r.state.Ready? || r.buffer == []
    ensures Feed(ch, r, []).Fed?
    decreases Rank(r.state)
  {
    if !r.state.Ready? && Need(ch, r) == 0 {
      assert r.(buffer := r.buffer + []) == r;
      NothingToTake(ch, Advance(ch, r).value);
    }
  }

  /** A segment that is not yet there whole. */
  lemma FeedPart(ch: Channel, r: Reader, bytes: seq<byte>)
    requires !r.state.Ready? && |r.buffer| + |bytes| < Need(ch, r)
    ensures Feed(ch, r, bytes) == Fed(r.(buffer := r.buffer + bytes))
  {
  }

  /** A segment that is there and opens. */
  lemma FeedOn(ch: Channel, r: Reader, bytes: seq<byte>, missing: nat, next: Reader)
    requires !r.state.Ready? && missing == Need(ch, r) - |r.buffer| && missing <= |bytes|
    requires Advance(ch, r.(buffer := r.buffer + bytes[..missing])) == Some(next)
    ensures Rank(next.state) < Rank(r.state) && (next.state.Ready? || |next.buffer| <= Need(ch, next))
    ensures Feed(ch, r, bytes) == Feed(ch, next, bytes[missing..])
  {
  }

  /** A segment that is there and does not open. */
  lemma FeedBad(ch: Channel, r: Reader, bytes: seq<byte>)
    requires !r.state.Ready? && |r.buffer| + |bytes| == Need(ch, r)
    requires Advance(ch, r.(buffer := r.buffer + bytes)).None?
    ensures Feed(ch, r, bytes) == Bad
  {
    assert bytes[..|bytes|] == bytes;
  }

  lemma PhaseEnds(ch: Channel, r: Reader, bytes: seq<byte>, ended: bool,
                  room: nat, result: Poll<seq<byte>>, after: Reader)
    requires !r.state.Ready? && |r.buffer| <= Need(ch, r)
    requires Phase(ch, r, bytes, ended, Some(result), after)
    ensures PollEnd(Feed(ch, r, bytes), ended, room, result, after)
    ensures !Ends(result) ==> Settled(ch, after)
  {
    hide Feed, Advance;
    if |r.buffer| + |bytes| == Need(ch, r) {
      FeedBad(ch, r, bytes);
    } else {
      FeedPart(ch, r, bytes);
    }
  }

  lemma PhaseStops(ch: Channel, r: Reader, taken: seq<byte>, mid: Reader, bytes: seq<byte>, ended: bool,
                   room: nat, result: Poll<seq<byte>>, after: Reader)
    requires Leads(ch, r, taken, mid) && !mid.state.Ready?
    requires Phase(ch, mid, bytes, ended, Some(result), after)
    ensures ReadStep(ch, r, taken + bytes, ended, room, result, after)
    ensures !Ends(result) ==> Settled(ch, after)
  {
    hide Feed, Phase, Need, PollEnd, Settled;
    LeadsOn(ch, r, taken, mid, bytes);
    PhaseEnds(ch, mid, bytes, ended, room, result, after);
  }

  lemma PhaseDelivers(ch: Channel, r: Reader, taken: seq<byte>, ready: Reader, ended: bool, room: nat,
                      out: seq<byte>, after: Reader)
    requires Leads(ch, r, taken, ready) && ready.state.Ready?
    requires (out, after) == Deliver(ready, room)
    ensures ReadStep(ch, r, taken, ended, room, Done(out), after)
    ensures Settled(ch, after)
  {
  }

  // ---------------------------------------------------------------------
  // Meaning

  /** What the reader still delivers if exactly `wire` follows. */
  function Rest(ch: Channel, r: Reader, wire: seq<byte>): Decoded
    requires r.state.Ready? ==> r.state.pos <= |r.buffer|
  {
    match r.state
    case Header => Decode(ch, r.cur, r.buffer + wire)
    case Padding(size, dataSize) => Continue(ch, PaddingStage(ch, r.cur, size, dataSize, r.buffer + wire))
    case Data(size) => Continue(ch, DataStage(ch, r.cur, size, r.buffer + wire))
    case Ready(pos) => Prepend(r.buffer[pos..], Decode(ch, r.cur, wire))
  }

  function Continue(ch: Channel, s: Stage): Decoded {
    match s
    case Stop(ending) => Decoded([], ending)
    case Complete(data, next, rest) => Prepend(data, Decode(ch, next, rest))
  }

  lemma AdvanceMeans(ch: Channel, r: Reader, wire: seq<byte>)
    requires !r.state.Ready? && |r.buffer| == Need(ch, r)
    ensures Rest(ch, r, wire) == match Advance(ch, r)
      case None => Decoded([], InvalidData)
      case Some(next) => Rest(ch, next, wire)
  {
    assert (r.buffer + wire)[..|r.buffer|] == r.buffer;
    assert (r.buffer + wire)[|r.buffer|..] == wire;
    assert [] + wire == wire;
    match r.state {
      case Header =>
        assert wire[0..] == wire;
      case _ =>
    }
  }

  lemma {:induction false} FeedMeans(ch: Channel, r: Reader, bytes: seq<byte>, wire: seq<byte>)
    requires r.state.Ready? || |r.buffer| <= Need(ch, r)
    requires r.state.Ready? ==> r.state.pos <= |r.buffer|
    requires !Feed(ch, r, bytes).Overrun?
    ensures match Feed(ch, r, bytes)
      case Fed(after) => (after.state.Ready? ==> after.state.pos <= |after.buffer|)
                         && Rest(ch, r, bytes + wire) == Rest(ch, after, wire)
      case Bad => Rest(ch, r, bytes + wire) == Decoded([], InvalidData)
      case Overrun => true
    decreases |bytes|, Rank(r.state)
  {
    hide Feed, Rest, Advance, Need;
    if r.state.Ready? {
      FeedReady(ch, r, bytes);
      assert bytes + wire == wire;
    } else {
      var missing := Need(ch, r) - |r.buffer|;
      if |bytes| < missing {
        FeedPart(ch, r, bytes);
        RestLonger(ch, r, bytes, wire);
      } else {
        var full, tail := r.(buffer := r.buffer + bytes[..missing]), bytes[missing..];
        FullNeed(ch, r, bytes[..missing]);
        RestLonger(ch, r, bytes[..missing], tail + wire);
        assert bytes + wire == bytes[..missing] + (tail + wire);
        AdvanceMeans(ch, full, tail + wire);
        if Advance(ch, full).Some? {
          FeedOn(ch, r, bytes, missing, Advance(ch, full).value);
          AdvanceFits(ch, full);
          FeedMeans(ch, Advance(ch, full).value, tail, wire);
        } else {
          FeedStops(ch, r, bytes, missing);
        }
      }
    }
  }

  lemma FeedReady(ch: Channel, r: Reader, bytes: seq<byte>)
    requires r.state.Ready? && !Feed(ch, r, bytes).Overrun?
    ensures bytes == [] && Feed(ch, r, bytes) == Fed(r)
  {
  }

  lemma FeedStops(ch: Channel, r: Reader, bytes: seq<byte>, missing: nat)
    requires !r.state.Ready? && missing == Need(ch, r) - |r.buffer| && missing <= |bytes|
    requires Advance(ch, r.(buffer := r.buffer + bytes[..missing])).None?
    ensures Feed(ch, r, bytes) == Bad
  {
  }

  lemma FullNeed(ch: Channel, r: Reader, head: seq<byte>)
    requires !r.state.Ready? && |r.buffer| + |head| == Need(ch, r)
    ensures |r.buffer + head| == Need(ch, r.(buffer := r.buffer + head))
  {
  }

  /** Bytes in the buffer and bytes to come are one wire. */
  lemma RestLonger(ch: Channel, r: Reader, bytes: seq<byte>, wire: seq<byte>)
    requires !r.state.Ready?
    ensures Rest(ch, r, bytes + wire) == Rest(ch, r.(buffer := r.buffer + bytes), wire)
  {
    assert r.buffer + (bytes + wire) == (r.buffer + bytes) + wire;
  }

  lemma DeliverMeans(ch: Channel, r: Reader, room: nat, wire: seq<byte>)
    requires r.state.Ready? && r.state.pos <= |r.buffer|
    ensures var (out, after) := Deliver(r, room);
      && (after.state.Ready? ==> after.state.pos <= |after.buffer|)
      && Rest(ch, r, wire) == Prepend(out, Rest(ch, after, wire))
  {
    hide Rest, Decode, Prepend;
    var pos := r.state.pos;
    RestReady(ch, r, wire);
    if |r.buffer| - pos <= room {
      RestHeader(ch, r.cur, wire);
      assert r.buffer[pos..pos + (|r.buffer| - pos)] == r.buffer[pos..];
    } else {
      RestReady(ch, r.(state := Ready(pos + room)), wire);
      TailSplits(r.buffer, pos, room);
      PrependTwice(r.buffer[pos..pos + room], r.buffer[pos + room..], Decode(ch, r.cur, wire));
    }
  }

  lemma RestReady(ch: Channel, r: Reader, wire: seq<byte>)
    requires r.state.Ready? && r.state.pos <= |r.buffer|
    ensures Rest(ch, r, wire) == Prepend(r.buffer[r.state.pos..], Decode(ch, r.cur, wire))
  {
  }

  lemma RestHeader(ch: Channel, cur: Cursor, wire: seq<byte>)
    ensures Rest(ch, Reader(Header, [], cur), wire) == Decode(ch, cur, wire)
  {
    assert [] + wire == wire;
  }

  lemma TailSplits(s: seq<byte>, pos: nat, n: nat)
    requires pos + n <= |s|
    ensures s[pos..] == s[pos..pos + n] + s[pos + n..]
  {
  }

  /** One poll moves output and bytes about but changes nothing of what the whole wire means. */
  lemma ReadStepMeans(ch: Channel, r: Reader, bytes: seq<byte>, ended: bool, room: nat,
                      result: Poll<seq<byte>>, after: Reader, wire: seq<byte>)
    requires Settled(ch, r) && ReadStep(ch, r, bytes, ended, room, result, after)
    requires ended ==> wire == []
    ensures !Ends(result) ==>
      Settled(ch, after) && Rest(ch, r, bytes + wire) == Prepend(Output(result), Rest(ch, after, wire))
    ensures Ends(result) ==>
      Rest(ch, r, bytes + wire) == Decoded([], if result.error.Eof? then UnexpectedEof else InvalidData)
  {
    FeedSettles(ch, r, bytes);
    FeedMeans(ch, r, bytes, wire);
    if result.Done? {
      var fed := Feed(ch, r, bytes).reader;
      if fed.state.Ready? && (result.value, after) == Deliver(fed, room) {
        DeliverMeans(ch, fed, room, wire);
      } else {
        PrependTwice([], [], Rest(ch, after, wire));
      }
    } else if !Ends(result) {
      PrependTwice([], [], Rest(ch, after, wire));
    } else if Feed(ch, r, bytes).Fed? {
      EndOfWire(ch, Feed(ch, r, bytes).reader);
    }
  }

  /** What is left when the wire ends while a segment is being collected. */
  lemma EndOfWire(ch: Channel, r: Reader)
    requires Settled(ch, r) && !r.state.Ready?
    ensures Rest(ch, r, []) == Decoded([],
        if ExpectsNoData(r.state) && r.buffer == [] then InvalidData else ShortOf(r.buffer))
  {
    assert r.buffer + [] == r.buffer;
  }

  // ---------------------------------------------------------------------
  // Whole runs of polls

  datatype Call = Call(bytes: seq<byte>, ended: bool, room: nat, result: Poll<seq<byte>>, after: Reader)

  /**
    `calls` are polls made one after the other on a transport that carries
    `wire` and then ends. An error from the stream itself is the last of them.
   */
  predicate Run(ch: Channel, r: Reader, calls: seq<Call>, wire: seq<byte>)
    decreases |calls|
  {
    && Settled(ch, r)
    && (calls == [] ||
        var c := calls[0];
        && c.bytes <= wire
        && (c.ended ==> c.bytes == wire)
        && ReadStep(ch, r, c.bytes, c.ended, c.room, c.result, c.after)
        && if Ends(c.result) then calls[1..] == []
           else Run(ch, c.after, calls[1..], wire[|c.bytes|..]))
  }

  /** Every poll that is made goes on with such a run: an end only ends it. */
  lemma RunGoesOn(ch: Channel, r: Reader, c: Call, rest: seq<Call>, wire: seq<byte>)
    requires Settled(ch, r) && c.bytes <= wire && (c.ended ==> c.bytes == wire)
    requires ReadStep(ch, r, c.bytes, c.ended, c.room, c.result, c.after)
    requires c.result == Broken(Eof) || c.result == Broken(Invalid) || Run(ch, c.after, rest, wire[|c.bytes|..])
    ensures Run(ch, r, [c], wire)
    ensures !c.result.Broken? || c.result == Broken(Io) ==> Run(ch, r, [c] + rest, wire)
  {
    FeedSettles(ch, r, c.bytes);
    assert [c][1..] == [] && ([c] + rest)[1..] == rest;
    hide ReadStep, Feed;
    if !Ends(c.result) {
      assert Run(ch, c.after, [], wire[|c.bytes|..]);
    }
  }

  function Delivered(calls: seq<Call>): seq<byte> {
    if calls == [] then [] else Output(calls[0].result) + Delivered(calls[1..])
  }

  /** What the receiver has still to expect after the run, or the error that ended it. */
  function Outcome(ch: Channel, r: Reader, calls: seq<Call>, wire: seq<byte>): Decoded
    requires Run(ch, r, calls, wire)
    decreases |calls|
  {
    if calls == [] then Rest(ch, r, wire)
    else if Ends(calls[0].result) then
      Decoded([], if calls[0].result.error.Eof? then UnexpectedEof else InvalidData)
    else Outcome(ch, calls[0].after, calls[1..], wire[|calls[0].bytes|..])
  }

  /**
    Reader refinement: however the wire is chopped into reads and whatever room
    the callers offer, the bytes delivered are a prefix of what the decoder gives
    on the whole wire, and the rest of it is what remains to be delivered.
   */
  lemma {:induction false} RunMeans(ch: Channel, r: Reader, calls: seq<Call>, wire: seq<byte>)
    requires Run(ch, r, calls, wire)
    ensures Rest(ch, r, wire) == Prepend(Delivered(calls), Outcome(ch, r, calls, wire))
    decreases |calls|
  {
    PrependTwice([], [], Outcome(ch, r, calls, wire));
    if calls != [] {
      var c, rest := calls[0], wire[|calls[0].bytes|..];
      assert wire == c.bytes + rest;
      ReadStepMeans(ch, r, c.bytes, c.ended, c.room, c.result, c.after, rest);
      if Ends(c.result) {
        assert Delivered(calls) == [] + Delivered([]) == [];
      } else {
        RunMeans(ch, c.after, calls[1..], rest);
        PrependTwice(Output(c.result), Delivered(calls[1..]), Outcome(ch, r, calls, wire));
      }
    }
  }

  // ---------------------------------------------------------------------
  // Progress

  /** How much decoded data waits to be handed over. */
  function Waiting(r: Reader): nat {
    if r.state.Ready? && r.state.pos <= |r.buffer| then |r.buffer| - r.state.pos else 0
  }

  /** On an open transport a poll with room that is answered has moved: it took bytes or handed some over. */
  lemma Progress(ch: Channel, r: Reader, bytes: seq<byte>, room: nat, result: Poll<seq<byte>>, after: Reader)
    requires Settled(ch, r) && Holding(r) && room > 0
    requires ReadStep(ch, r, bytes, false, room, result, after) && result.Done?
    ensures bytes != [] || Waiting(after) < Waiting(r)
  {
    if bytes == [] && !r.state.Ready? { NothingFed(ch, r); }
  }

  /** A poll hands over as much as there is room for, or all that is left of the frame. */
  lemma HandsOver(ch: Channel, r: Reader, bytes: seq<byte>, ended: bool, room: nat, result: Poll<seq<byte>>,
                  after: Reader)
    requires Settled(ch, r) && ReadStep(ch, r, bytes, ended, room, result, after) && result.Done?
    ensures |result.value| <= room
    ensures after.state.Ready? ==> |result.value| == room && after.state.pos < |after.buffer|
    ensures !after.state.Ready? ==> after.buffer == []
  {
  }

  /** A reader that collects a segment goes nowhere without bytes. */
  lemma NothingFed(ch: Channel, r: Reader)
    requires Settled(ch, r) && !r.state.Ready?
    ensures Feed(ch, r, []) == Fed(r)
  {
    assert r.buffer + [] == r.buffer;
  }

  // ---------------------------------------------------------------------
  // What the caller can tell

  lemma StepHolds(ch: Channel, r: Reader, bytes: seq<byte>, ended: bool, room: nat,
                  result: Poll<seq<byte>>, after: Reader)
    requires Settled(ch, r) && ReadStep(ch, r, bytes, ended, room, result, after)
    ensures !Ends(result) ==> Holding(after)
  {
  }

  /** A poll with room returns no bytes if and only if the frame it has completed is empty or it has met the end. */
  lemma EmptyHanded(ch: Channel, r: Reader, bytes: seq<byte>, ended: bool, room: nat,
                    result: Poll<seq<byte>>, after: Reader)
    requires Settled(ch, r) && Holding(r) && room > 0
    requires ReadStep(ch, r, bytes, ended, room, result, after) && result.Done?
    ensures Feed(ch, r, bytes).Fed?
    ensures var fed := Feed(ch, r, bytes).reader;
      && (result.value == [] <==> !fed.state.Ready? || fed.buffer == [])
      && (!fed.state.Ready? ==> ended && after == fed && after.buffer == [] && !ExpectsNoData(after.state))
      && (fed.state.Ready? && fed.buffer == [] ==> after == Reader(Header, [], fed.cur))
  {
    FeedSettles(ch, r, bytes);
  }

  /** The last a caller hears of a stream: an error of its own, or no bytes where there was room for some. */
  predicate TellsEnd(c: Call) { Ends(c.result) || (c.room > 0 && c.result == Done([])) }

  /** How the stream ended, for one who has heard this. */
  function EndingOf(result: Poll<seq<byte>>): Ending {
    match result
    case Broken(Eof) => UnexpectedEof
    case Broken(Invalid) => InvalidData
    case _ => CleanEnd
  }

  /** On a transport that has ended, what the caller hears is how the wire ends. */
  lemma {:induction false} HeardOutcome(ch: Channel, r: Reader, calls: seq<Call>, wire: seq<byte>)
    requires Run(ch, r, calls, wire) && Holding(r)
    requires calls != [] && TellsEnd(calls[|calls| - 1])
    requires Ends(calls[|calls| - 1].result) || calls[|calls| - 1].ended
    ensures Outcome(ch, r, calls, wire) == Decoded([], EndingOf(calls[|calls| - 1].result))
    decreases |calls|
  {
    var c := calls[0];
    if !Ends(c.result) {
      ReadStepMeans(ch, r, c.bytes, c.ended, c.room, c.result, c.after, wire[|c.bytes|..]);
      StepHolds(ch, r, c.bytes, c.ended, c.room, c.result, c.after);
      if |calls| > 1 {
        assert calls[1..][|calls| - 2] == calls[|calls| - 1];
        HeardOutcome(ch, c.after, calls[1..], wire[|c.bytes|..]);
      } else {
        EmptyHanded(ch, r, c.bytes, c.ended, c.room, c.result, c.after);
        EndOfWire(ch, c.after);
      }
    }
  }

  lemma EndIsDecoded(ch: Channel, cur: Cursor, calls: seq<Call>, wire: seq<byte>)
    requires Run(ch, Reader(Header, [], cur), calls, wire)
    requires calls != [] && TellsEnd(calls[|calls| - 1])
    requires Ends(calls[|calls| - 1].result) || calls[|calls| - 1].ended
    ensures Decode(ch, cur, wire) == Decoded(Delivered(calls), EndingOf(calls[|calls| - 1].result))
  {
    RunMeans(ch, Reader(Header, [], cur), calls, wire);
    assert [] + wire == wire;
    assert Delivered(calls) + [] == Delivered(calls);
    HeardOutcome(ch, Reader(Header, [], cur), calls, wire);
  }

  /**
    For a reader at the start of any wire: the bytes delivered are a prefix of what
    the decoder gives; and once the caller hears of an end, by an error of the stream
    or by a read of no bytes on a transport that has ended, they are all of it and
    what is heard is the decoder's ending.
   */
  lemma DeliversDecoded(ch: Channel, cur: Cursor, calls: seq<Call>, wire: seq<byte>)
    requires Run(ch, Reader(Header, [], cur), calls, wire)
    ensures Delivered(calls) <= Decode(ch, cur, wire).payload
    ensures calls != [] ==>
      var last := calls[|calls| - 1];
      && (last.result == Broken(Eof) ==> Decode(ch, cur, wire) == Decoded(Delivered(calls), UnexpectedEof))
      && (last.result == Broken(Invalid) ==> Decode(ch, cur, wire) == Decoded(Delivered(calls), InvalidData))
      && (last.result == Done([]) && last.room > 0 && last.ended ==>
            Decode(ch, cur, wire) == Decoded(Delivered(calls), CleanEnd))
  {
    RunMeans(ch, Reader(Header, [], cur), calls, wire);
    assert [] + wire == wire;
    hide Run, Decode, Delivered, Outcome;
    if calls != [] {
      var last := calls[|calls| - 1];
      if TellsEnd(last) && (Ends(last.result) || last.ended) { EndIsDecoded(ch, cur, calls, wire); }
    }
  }
}
