/** Two streams talking over a network: safety of every run. */
module Sessions {
  import opened Bytes
  import opened Frames
  import opened Transports
  import opened Readers
  import opened LockStep
  import opened Endings
  import opened Streams

  /**
    How far a reader has come: `place` from its inbox, `place` frames delivered whole;
    `place` is the reader, or the state it failed in.
   */
  datatype Place = Place(step: nat, last: Reader, taken: seq<byte>)

  /** What one write takes of its data if it is taken at all. */
  function Offered(data: seq<byte>): seq<byte> { data[..Min(|data|, MAX_PACKET_SIZE)] }

  /** One direction of a tunnel: the writing stream, the reading stream and the network between. */
  class Link {
    const writer: EncryptedStream
    const reader: EncryptedStream
    var carried: nat           // how far into the writer's output the reader's inbox reaches
    var accepted: seq<byte>    // what `poll_write` has reported as written
    var delivered: seq<byte>   // what `poll_read` has returned
    var writeFailed: bool
    var readFailed: bool
    var emptyWrite: bool       // whether a write of no bytes was taken
    var emptyRead: bool        // whether a read with room was answered with no bytes
    ghost var place: Place     // how far the reader has come

    ghost predicate Separate() {
      && writer.padding.max <= U16_MAX
      && writer.Nonces() && reader.Nonces()
      && writer.writeCipher.nonce != reader.readCipher.nonce
      && writer.Outgoing() == reader.Incoming()
    }

    /** `place` is the reader as it stands. */
    ghost predicate IsReader()
      reads this`place, reader`readBuffer, reader`readState, reader`readed, reader.readCipher.nonce
    {
      && place.last.state == reader.readState && place.last.buffer == reader.readBuffer
      && place.last.cur.count == reader.readed && place.last.cur.nonce == reader.readCipher.nonce[..]
    }

    ghost predicate ReaderHalf()
      reads this, writer`frames, writer.inner`sent
      reads reader`readBuffer, reader`readState, reader`readed, reader.readCipher.nonce
      reads reader.inner`inbox, reader.inner`ended
    {
      && (!readFailed ==> IsReader())
      && writer.wireStart <= carried <= |writer.inner.sent|
      && place.taken + reader.inner.inbox == writer.inner.sent[writer.wireStart..carried]
      && Received(writer.Outgoing(), writer.writeStart, writer.frames, place.step, place.last, place.taken, delivered,
                  Seen(emptyWrite, emptyRead, readFailed, reader.inner.ended && reader.inner.inbox == []))
    }

    ghost predicate Valid()
      reads this
      reads writer`frames, writer`writeBuffer, writer`writePos, writer`written
      reads writer.writeCipher.nonce, writer.inner`sent
      reads reader`readBuffer, reader`readState, reader`readed, reader.readCipher.nonce
      reads reader.inner`inbox, reader.inner`ended
    {
      Separate() && WriterHalf() && ReaderHalf()
    }

    /** The two halves of `Valid`: the writer with the network, and the reader. */
    ghost predicate WriterHalf()
      reads this`carried, this`writeFailed, this`accepted
      reads writer`frames, writer`writeBuffer, writer`writePos, writer`written
      reads writer.writeCipher.nonce, writer.inner`sent
    {
      && writer.WriteValid()
      && writer.wireStart <= carried <= |writer.inner.sent|
      && (!writeFailed ==> accepted == Payload(writer.frames))
    }

    /** How often the two transports have said Pending, failed or taken nothing. */
    ghost function Troubles(): nat
      reads writer.inner`stalls, writer.inner`faults, reader.inner`stalls, reader.inner`faults
    {
      writer.inner.stalls + writer.inner.faults + reader.inner.stalls + reader.inner.faults
    }

    /** Everything flushed, carried and handed over. */
    ghost predicate Quiet()
      reads this, writer, writer.inner, reader, reader.inner
    {
      && !readFailed && writer.writeBuffer == []
      && carried == |writer.inner.sent|
      && reader.inner.inbox == [] && !reader.readState.Ready?
    }

    /** Joins two ends of which the writer may already be `carried` far into its output. */
    constructor (writer: EncryptedStream, reader: EncryptedStream, carried: nat, accepted: seq<byte>,
                 failed: bool, emptyWrite: bool)
      requires writer.padding.max <= U16_MAX && writer.WriteValid() && reader.Nonces()
      requires writer.writeCipher.nonce != reader.readCipher.nonce
      requires writer.Outgoing() == reader.Incoming()
      requires writer.wireStart <= carried <= |writer.inner.sent|
      requires reader.inner.inbox == writer.inner.sent[writer.wireStart..carried]
      requires reader.Reading() == Reader(Header, [], writer.writeStart)
      requires !failed ==> accepted == Payload(writer.frames)
      requires !emptyWrite ==> NoEmpty(writer.frames)
      ensures Valid() && this.writer == writer && this.reader == reader
      ensures this.accepted == accepted && delivered == [] && !readFailed && !emptyRead
      ensures writeFailed == failed && this.emptyWrite == emptyWrite
    {
      this.writer, this.reader, this.carried, this.accepted := writer, reader, carried, accepted;
      delivered, readFailed, emptyRead := [], false, false;
      writeFailed, this.emptyWrite := failed, emptyWrite;
      place := Place(0, Reader(Header, [], writer.writeStart), []);
      new;
      ReceivesNothingYet(writer.Outgoing(), writer.writeStart, writer.frames, emptyWrite, reader.Exhausted());
      assert [] + reader.inner.inbox == reader.inner.inbox;
    }

    method Write(data: seq<byte>) returns (r: Poll<nat>)
      requires Valid()
      modifies this`accepted, this`writeFailed, this`emptyWrite
      modifies writer`frames, writer`writeBuffer, writer`writePos, writer`written, writer.writeCipher.nonce
      modifies writer.inner`sent, writer.inner`stalls, writer.inner`faults
      ensures Valid()
      ensures accepted == old(accepted) + (if r.Done? then Offered(data) else [])
      ensures writeFailed == (old(writeFailed) || r.Broken?)
      ensures emptyWrite == (old(emptyWrite) || (data == [] && !r.Stuck?))
      ensures r.Stuck? ==> writer.inner.stalls > old(writer.inner.stalls)
      ensures writer.inner.stalls >= old(writer.inner.stalls)
      ensures writer.inner.faults == old(writer.inner.faults) + (if r.Broken? then 1 else 0)
    {
      hide Link.ReaderHalf, Link.IsReader, Link.WriterHalf, NoEmpty;
      ghost var more;
      r, more := WriteHalf(data);
      emptyWrite := emptyWrite || (data == [] && !r.Stuck?);
      ReaderStays(more);
    }

    method WriteHalf(data: seq<byte>) returns (r: Poll<nat>, ghost more: seq<Frame>)
      requires Separate() && WriterHalf()
      modifies this`accepted, this`writeFailed
      modifies writer`frames, writer`writeBuffer, writer`writePos, writer`written, writer.writeCipher.nonce
      modifies writer.inner`sent, writer.inner`stalls, writer.inner`faults
      ensures WriterHalf() && old(writer.inner.sent) <= writer.inner.sent
      ensures writer.frames == old(writer.frames) + more && (data != [] || r.Stuck? ==> NoEmpty(more))
      ensures accepted == old(accepted) + (if r.Done? then Offered(data) else [])
      ensures writeFailed == (old(writeFailed) || r.Broken?)
      ensures r.Stuck? ==> writer.inner.stalls > old(writer.inner.stalls)
      ensures writer.inner.stalls >= old(writer.inner.stalls)
      ensures writer.inner.faults == old(writer.inner.faults) + (if r.Broken? then 1 else 0)
    {
      hide Payload, NoEmpty, EncryptedStream.WriteValid;
      ghost var frames := writer.frames;
      var random: Random := *;
      r, more := writer.PollWrite(data, random);
      PayloadGrows(frames, more, data);
      if r.Done? {
        accepted := accepted + data[..r.value];
      } else if r.Broken? {
        writeFailed := true;
      }
    }

    /** What the writer does leaves the reader's half as it is. */
    twostate lemma ReaderStays(more: seq<Frame>)
      requires old(ReaderHalf()) && old(writer.inner.sent) <= writer.inner.sent
      requires writer.frames == old(writer.frames) + more
      requires !emptyWrite ==> !old(emptyWrite) && NoEmpty(more)
      requires carried == old(carried) && place == old(place)
      requires delivered == old(delivered) && emptyRead == old(emptyRead) && readFailed == old(readFailed)
      requires reader.inner.ended == old(reader.inner.ended) && reader.inner.inbox == old(reader.inner.inbox)
      requires old(IsReader()) ==> IsReader()
      ensures ReaderHalf()
    {
      hide Received, Encode;
      assert old(writer.inner.sent)[writer.wireStart..carried] == writer.inner.sent[writer.wireStart..carried];
      GrowReceived(writer.Outgoing(), writer.writeStart, old(writer.frames), more, place.step, place.last, place.taken,
                   delivered, old(Seen(emptyWrite, emptyRead, readFailed,
                                       reader.inner.ended && reader.inner.inbox == [])), emptyWrite);
    }

    /** A write adds at most one frame, of what the write offered. */
    static lemma PayloadGrows(fs: seq<Frame>, more: seq<Frame>, data: seq<byte>)
      requires |more| <= 1
      requires more != [] ==> more[0].data == Offered(data)
      ensures more == [] ==> Payload(fs + more) == Payload(fs)
      ensures more != [] ==> Payload(fs + more) == Payload(fs) + Offered(data)
      ensures data != [] || more == [] ==> NoEmpty(more)
      ensures NoEmpty(fs) && NoEmpty(more) ==> NoEmpty(fs + more)
    {
      PayloadAppend(fs, more);
      if more != [] {
        assert more[0].data + [] == more[0].data && more == [more[0]];
      }
    }

    method Flush() returns (r: Poll<()>)
      requires Valid()
      modifies writer`writeBuffer, writer`writePos, writer.inner`sent, writer.inner`stalls, writer.inner`faults
      ensures Valid()
      ensures r.Done? ==> writer.writeBuffer == []
      ensures writer.inner.stalls == old(writer.inner.stalls) + (if r.Stuck? then 1 else 0)
      ensures writer.inner.faults == old(writer.inner.faults) + (if r.Broken? then 1 else 0)
    {
      hide Received, Encode, Payload, NoEmpty, EncryptedStream.WriteValid, EncryptedStream.ReadValid;
      ghost var sent := writer.inner.sent;
      r := writer.PollFlush();
      assert sent[writer.wireStart..carried]
          == writer.inner.sent[writer.wireStart..carried];
    }

    /** The network carries `n` more bytes, if so many are under way and the connection is not cut. */
    method Carry(n: nat)
      requires Valid()
      modifies this`carried, reader.inner`inbox
      ensures Valid()
      ensures var from := old(carried);
        if reader.inner.ended || from + n > |writer.inner.sent| then
          carried == from && reader.inner.inbox == old(reader.inner.inbox)
        else
          carried == from + n && reader.inner.inbox == old(reader.inner.inbox) + writer.inner.sent[from..carried]
    {
      hide Received, Encode, Payload, NoEmpty, EncryptedStream.WriteValid, EncryptedStream.ReadValid;
      if reader.inner.ended || carried + n > |writer.inner.sent| {
        return;
      }
      reader.inner.inbox := reader.inner.inbox + writer.inner.sent[carried..carried + n];
      assert writer.inner.sent[writer.wireStart..carried] + writer.inner.sent[carried..carried + n]
          == writer.inner.sent[writer.wireStart..carried + n];
      carried := carried + n;
    }

    /** The connection is cut: what has not arrived never will. */
    method Cut()
      requires Valid()
      modifies reader.inner`ended
      ensures Valid() && reader.inner.ended
    {
      reader.inner.ended := true;
    }

    /** A poll of the reader: it can fail for the stream's own reasons only once the connection is cut. */
    method Read(room: nat) returns (r: Poll<seq<byte>>)
      requires Valid() && !readFailed
      modifies this`delivered, this`readFailed, this`emptyRead, this`place
      modifies reader`readBuffer, reader`readState, reader`readed, reader.readCipher.nonce
      modifies reader.inner`inbox, reader.inner`stalls, reader.inner`faults
      ensures Valid()
      ensures delivered == old(delivered) + Output(r)
      ensures readFailed <==> Ends(r)
      ensures emptyRead == (old(emptyRead) || (room > 0 && r == Done([])))
      ensures Ends(r) || (room > 0 && r == Done([]) && !emptyWrite) ==> reader.inner.ended && reader.inner.inbox == []
      ensures r.Stuck? ==> !reader.readState.Ready?
      ensures r.Done? && room > 0 && !reader.inner.ended ==>
        || |reader.inner.inbox| < |old(reader.inner.inbox)|
        || (|reader.inner.inbox| == |old(reader.inner.inbox)| && Waiting(place.last) < Waiting(old(place).last))
      ensures reader.inner.stalls == old(reader.inner.stalls) + (if r.Stuck? then 1 else 0)
      ensures reader.inner.faults == old(reader.inner.faults) + (if r == Broken(Io) then 1 else 0)
    {
      hide Link.ReaderHalf, Link.WriterHalf, Encode, AllDrawable, Received, Waiting;
      WireIsEncoding();
      r := ReadHalf(room);
      if HeardEnd() { HeardInTime(); }
    }

    method ReadHalf(room: nat) returns (r: Poll<seq<byte>>)
      requires Separate() && ReaderHalf() && !readFailed
      requires AllDrawable(writer.Outgoing(), writer.frames)
      requires writer.inner.sent[writer.wireStart..carried] <= Encode(writer.Outgoing(), writer.writeStart,
                                                                      writer.frames)
      modifies this`delivered, this`readFailed, this`emptyRead, this`place
      modifies reader`readBuffer, reader`readState, reader`readed, reader.readCipher.nonce
      modifies reader.inner`inbox, reader.inner`stalls, reader.inner`faults
      ensures ReaderHalf()
      ensures delivered == old(delivered) + Output(r)
      ensures readFailed <==> Ends(r)
      ensures emptyRead == (old(emptyRead) || (room > 0 && r == Done([])))
      ensures r.Stuck? ==> !reader.readState.Ready?
      ensures r.Done? && room > 0 && !reader.inner.ended ==>
        || |reader.inner.inbox| < |old(reader.inner.inbox)|
        || (|reader.inner.inbox| == |old(reader.inner.inbox)| && Waiting(place.last) < Waiting(old(place).last))
      ensures reader.inner.stalls == old(reader.inner.stalls) + (if r.Stuck? then 1 else 0)
      ensures reader.inner.faults == old(reader.inner.faults) + (if r == Broken(Io) then 1 else 0)
    {
      hide Link.ReaderHalf, Received, Encode, AllDrawable, Waiting, Output, Ends;
      ghost var bytes, next, now;
      r, bytes, next, now := Poll(room);
      Record(room, r, bytes, next, now);
    }

    /** Writes down what a poll has shown. */
    method Record(room: nat, r: Poll<seq<byte>>, ghost bytes: seq<byte>, ghost next: nat, ghost now: Reader)
      requires !Ends(r) ==> now == reader.Reading()
      requires writer.wireStart <= carried <= |writer.inner.sent|
      requires (place.taken + bytes) + reader.inner.inbox == writer.inner.sent[writer.wireStart..carried]
      requires Received(writer.Outgoing(), writer.writeStart, writer.frames, next, now, place.taken + bytes,
                        delivered + Output(r), Seen(emptyWrite, emptyRead || (room > 0 && r == Done([])), Ends(r),
                                                    reader.Exhausted()))
      modifies this`delivered, this`readFailed, this`emptyRead, this`place
      ensures ReaderHalf()
      ensures delivered == old(delivered) + Output(r)
      ensures readFailed <==> Ends(r)
      ensures emptyRead == (old(emptyRead) || (room > 0 && r == Done([])))
      ensures place.last == now
    {
      hide Link.ReaderHalf, Received, Ends, Output;
      delivered := delivered + Output(r);
      readFailed, emptyRead := Ends(r), emptyRead || (room > 0 && r == Done([]));
      place := Place(next, now, place.taken + bytes);
      ReaderCloses();
    }

    method Poll(room: nat) returns (r: Poll<seq<byte>>, ghost bytes: seq<byte>, ghost next: nat, ghost now: Reader)
      requires Separate() && ReaderHalf() && !readFailed
      requires AllDrawable(writer.Outgoing(), writer.frames)
      requires writer.inner.sent[writer.wireStart..carried] <= Encode(writer.Outgoing(), writer.writeStart,
                                                                      writer.frames)
      modifies reader`readBuffer, reader`readState, reader`readed, reader.readCipher.nonce
      modifies reader.inner`inbox, reader.inner`stalls, reader.inner`faults
      ensures !Ends(r) ==> now == reader.Reading()
      ensures writer.wireStart <= carried <= |writer.inner.sent|
      ensures (place.taken + bytes) + reader.inner.inbox == writer.inner.sent[writer.wireStart..carried]
      ensures Received(writer.Outgoing(), writer.writeStart, writer.frames, next, now, place.taken + bytes,
                       delivered + Output(r), Seen(emptyWrite, emptyRead || (room > 0 && r == Done([])), Ends(r),
                                                   reader.Exhausted()))
      ensures |old(reader.inner.inbox)| == |bytes| + |reader.inner.inbox|
      ensures r.Stuck? ==> !reader.readState.Ready?
      ensures r.Done? && room > 0 && !reader.inner.ended ==> bytes != [] || Waiting(now) < Waiting(place.last)
      ensures reader.inner.stalls == old(reader.inner.stalls) + (if r.Stuck? then 1 else 0)
      ensures reader.inner.faults == old(reader.inner.faults) + (if r == Broken(Io) then 1 else 0)
    {
      ReaderOpens();
      hide Link.ReaderHalf, Received, Encode, ReadStep, AllDrawable, EncryptedStream.ReadValid;
      ghost var seen := Seen(emptyWrite, emptyRead, readFailed, reader.Exhausted());
      r, bytes := reader.PollRead(room);
      TakenOn(place.taken, bytes, reader.inner.inbox, writer.inner.sent[writer.wireStart..carried]);
      next, now := ReadReceives(writer.Outgoing(), writer.writeStart, writer.frames, place.step, place.last,
                                place.taken,
                                delivered, seen, bytes, reader.Exhausted(), room, r, reader.Reading());
      Moved(reader.Incoming(), place.last, bytes, reader.Exhausted(), room, r, reader.Reading());
    }

    static lemma Moved(ch: Channel, r: Reader, bytes: seq<byte>, exhausted: bool, room: nat,
                       result: Poll<seq<byte>>, after: Reader)
      requires Settled(ch, r) && Holding(r)
      requires ReadStep(ch, r, bytes, exhausted, room, result, after)
      ensures result.Stuck? ==> !after.state.Ready?
      ensures result.Done? && room > 0 && !exhausted ==> bytes != [] || Waiting(after) < Waiting(r)
    {
      if result.Done? && room > 0 && !exhausted { Progress(ch, r, bytes, room, result, after); }
    }

    /** A reader that has not failed can be polled. */
    lemma ReaderOpens()
      requires Separate() && ReaderHalf() && !readFailed
      ensures reader.ReadValid() && place.last == reader.Reading()
      ensures writer.wireStart <= carried <= |writer.inner.sent|
      ensures place.taken + reader.inner.inbox == writer.inner.sent[writer.wireStart..carried]
      ensures Received(writer.Outgoing(), writer.writeStart, writer.frames, place.step, place.last, place.taken,
                       delivered,
                       Seen(emptyWrite, emptyRead, readFailed, reader.Exhausted()))
      ensures Settled(reader.Incoming(), place.last) && Holding(place.last)
    {
    }

    lemma ReaderCloses()
      requires !readFailed ==> place.last == reader.Reading()
      requires writer.wireStart <= carried <= |writer.inner.sent|
      requires place.taken + reader.inner.inbox == writer.inner.sent[writer.wireStart..carried]
      requires Received(writer.Outgoing(), writer.writeStart, writer.frames, place.step, place.last, place.taken,
                        delivered,
                        Seen(emptyWrite, emptyRead, readFailed, reader.Exhausted()))
      ensures ReaderHalf()
    {
      hide Received;
    }

    /** What the network has carried is a front of the writer's encoding. */
    lemma WireIsEncoding()
      requires WriterHalf()
      ensures AllDrawable(writer.Outgoing(), writer.frames)
      ensures writer.inner.sent[writer.wireStart..carried] <= Encode(writer.Outgoing(), writer.writeStart,
                                                                     writer.frames)
    {
      hide AllDrawable, Encode, After;
      FrontOf(writer.inner.sent, writer.Unsent(), writer.wireStart, carried);
    }

    static lemma FrontOf(sent: seq<byte>, unsent: seq<byte>, from: nat, to: nat)
      requires from <= to <= |sent|
      ensures sent[from..to] <= (sent + unsent)[from..]
    {
      assert (sent + unsent)[from..][..to - from] == sent[from..to];
    }

    static lemma TakenOn(taken: seq<byte>, bytes: seq<byte>, inbox: seq<byte>, wire: seq<byte>)
      requires taken + (bytes + inbox) == wire
      ensures (taken + bytes) + inbox == wire && taken + bytes <= wire
    {
    }

    /** An end is never heard before its time. */
    lemma HeardInTime()
      requires ReaderHalf() && HeardEnd()
      ensures reader.inner.ended && reader.inner.inbox == []
    {
    }

    /** Whether the reader's caller has heard of an end: no byte where there was room, or an error of the stream. */
    predicate HeardEnd()
      reads this`readFailed, this`emptyRead, this`emptyWrite
    {
      readFailed || (emptyRead && !emptyWrite)
    }

    /**
      What the caller has heard is right: it has got exactly the payload of the frames
      that were carried whole, and the rest that was carried was cut off noticeably or not.
     */
    ghost predicate HeardRight()
      reads this, writer`frames
    {
      && place.step <= |writer.frames|
      && var ch, start, fs := writer.Outgoing(), writer.writeStart, writer.frames;
         EndTold(ch, start, fs, place.step, carried - writer.wireStart - |Encode(ch, start, fs[..place.step])|,
                 delivered, readFailed)
    }

    /** What a valid link promises its users. */
    lemma Promises()
      requires Valid()
      ensures delivered <= Payload(writer.frames)
      ensures !writeFailed ==> accepted == Payload(writer.frames)
      ensures HeardEnd() ==> reader.inner.ended && HeardRight()
    {
      Agreement(writer.Outgoing(), writer.writeStart, writer.frames, place.step, place.last, place.taken, delivered);
      hide InStep, Encode, After, Settled, AllDrawable, EndTold, EncryptedStream.WriteValid, EncryptedStream.ReadValid;
      if HeardEnd() {
        assert place.taken + [] == place.taken;
        EndIsTold(writer.Outgoing(), writer.writeStart, writer.frames, place.step, place.last, place.taken, delivered,
                  Seen(emptyWrite, emptyRead, readFailed, reader.Exhausted()));
      }
    }

    /**
      What "heard" and "right" mean: an error of the stream, or no bytes where there was
      room and nobody has written none; and then delivered and heard are what the decoder
      makes of the bytes that were carried.
     */
    lemma HeardIsDecoded()
      requires Valid()
      ensures writer.wireStart <= carried <= |writer.inner.sent|
      ensures HeardEnd() <==> readFailed || (emptyRead && !emptyWrite)
      ensures HeardRight() ==>
        var d := Decode(writer.Outgoing(), writer.writeStart, writer.inner.sent[writer.wireStart..carried]);
        delivered == d.payload && (readFailed <==> d.ending != CleanEnd)
    {
      WireIsEncoding();
      if HeardRight() {
        var ch, start, fs := writer.Outgoing(), writer.writeStart, writer.frames;
        ToldIsDecoded(ch, start, fs, place.step, carried - writer.wireStart - |Encode(ch, start, fs[..place.step])|,
                      delivered, readFailed, writer.inner.sent[writer.wireStart..carried]);
      }
    }

    /** After a completed flush and with nothing under way, the receiver has got everything. */
    lemma QuietIsComplete()
      requires Valid() && Quiet()
      ensures delivered == Payload(writer.frames)
    {
      assert writer.inner.sent + writer.Unsent() == writer.inner.sent;
      assert place.taken + [] == place.taken;
      Drained(writer.Outgoing(), writer.writeStart, writer.frames, place.step, place.last, place.taken, delivered);
    }
  }

  datatype Action = Write(data: seq<byte>) | Flush | Carry(n: nat) | Read(room: nat) | Cut

  datatype Event = Event(up: bool, action: Action)

  /** One event; after a failure of the stream its caller reads no more. */
  method Perform(link: Link, action: Action)
    requires link.Valid()
    modifies link
    modifies link.writer`frames, link.writer`writeBuffer, link.writer`writePos, link.writer`written
    modifies link.writer.writeCipher.nonce
    modifies link.writer.inner`sent, link.writer.inner`stalls, link.writer.inner`faults
    modifies link.reader`readBuffer, link.reader`readState, link.reader`readed, link.reader.readCipher.nonce
    modifies link.reader.inner`inbox, link.reader.inner`stalls, link.reader.inner`faults, link.reader.inner`ended
    ensures link.Valid()
    ensures old(link.accepted) <= link.accepted && old(link.delivered) <= link.delivered
    ensures link.readFailed && !old(link.readFailed) ==> link.reader.inner.ended
    ensures old(link.reader.inner.ended) ==> link.reader.inner.ended
    ensures link.reader.inner.ended ==> old(link.reader.inner.ended) || action.Cut?
    ensures link.emptyWrite ==> old(link.emptyWrite) || action == Write([])
    ensures action.Write? ==>
      || link.accepted == old(link.accepted) + Offered(action.data)
      || link.writer.inner.stalls > old(link.writer.inner.stalls)
      || link.writer.inner.faults > old(link.writer.inner.faults)
  {
    hide Link.Valid;
    match action
    case Write(data) => var _ := link.Write(data);
    case Flush => var _ := link.Flush();
    case Carry(n) => link.Carry(n);
    case Cut => link.Cut();
    case Read(room) =>
      if !link.readFailed {
        var _ := link.Read(room);
      }
  }

  /** The two directions of one tunnel share their end points but no state that both of them change. */
  ghost predicate Opposite(a: Link, b: Link) {
    && a != b && a.Separate() && b.Separate()
    && a.writer == b.reader && a.reader == b.writer && a.writer != a.reader
    && a.writer.inner != a.reader.inner
    && a.writer.writeCipher.nonce != b.writer.writeCipher.nonce
    && a.reader.readCipher.nonce != b.reader.readCipher.nonce
  }

  /** What happens in one direction leaves the other as it was. */
  method PerformBeside(link: Link, other: Link, action: Action)
    requires link.Valid() && other.Valid() && Opposite(link, other)
    modifies link, link.writer, link.reader, link.writer.inner, link.reader.inner
    modifies link.writer.writeCipher.nonce, link.reader.readCipher.nonce
    ensures link.Valid() && other.Valid()
    ensures old(link.delivered) <= link.delivered
    ensures link.readFailed && !old(link.readFailed) ==> link.reader.inner.ended
    ensures old(link.reader.inner.ended) ==> link.reader.inner.ended
    ensures link.reader.inner.ended ==> old(link.reader.inner.ended) || action.Cut?
    ensures other.reader.inner.ended == old(other.reader.inner.ended)
    ensures link.emptyWrite ==> old(link.emptyWrite) || action == Write([])
    ensures action.Write? ==>
      || link.accepted == old(link.accepted) + Offered(action.data)
      || link.writer.inner.stalls > old(link.writer.inner.stalls)
      || link.writer.inner.faults > old(link.writer.inner.faults)
  {
    hide Link.Valid;
    Perform(link, action);
  }

  /**
    Flushes what is buffered, carries what is sent and reads what has come, with any room.
    It is done when the receiver has got everything; it gives up only when a transport
    has said Pending, has failed or has taken nothing of what it was offered.
   */
  method Drain(link: Link, room: nat) returns (done: bool)
    requires link.Valid() && room > 0
    requires !link.readFailed && !link.reader.inner.ended
    modifies link`carried, link`delivered, link`readFailed, link`emptyRead, link`place
    modifies link.writer`writeBuffer, link.writer`writePos
    modifies link.writer.inner`sent, link.writer.inner`stalls, link.writer.inner`faults
    modifies link.reader`readBuffer, link.reader`readState, link.reader`readed, link.reader.readCipher.nonce
    modifies link.reader.inner`inbox, link.reader.inner`stalls, link.reader.inner`faults
    ensures link.Valid() && old(link.delivered) <= link.delivered
    ensures !link.readFailed
    ensures done ==> link.Quiet() && link.delivered == Payload(link.writer.frames)
    ensures done && !link.writeFailed ==> link.delivered == link.accepted
    ensures link.Troubles() >= old(link.Troubles())
    ensures !done ==> link.Troubles() > old(link.Troubles())
  {
    hide Link.Valid, Payload;
    done := false;
    var flushed := link.Flush();
    if !flushed.Done? {
      return;
    }
    Bounds(link);
    link.Carry(|link.writer.inner.sent| - link.carried);
    assert link.carried == |link.writer.inner.sent|;
    done := ReadAll(link, room);
    if done {
      link.QuietIsComplete();
      link.Promises();
    }
  }

  lemma Bounds(link: Link)
    requires link.Valid()
    ensures link.carried <= |link.writer.inner.sent|
  {
  }

  method ReadAll(link: Link, room: nat) returns (done: bool)
    requires link.Valid() && room > 0
    requires !link.readFailed && !link.reader.inner.ended
    modifies link`delivered, link`readFailed, link`emptyRead, link`place
    modifies link.reader`readBuffer, link.reader`readState, link.reader`readed, link.reader.readCipher.nonce
    modifies link.reader.inner`inbox, link.reader.inner`stalls, link.reader.inner`faults
    ensures link.Valid() && old(link.delivered) <= link.delivered && !link.readFailed
    ensures done ==> link.reader.inner.inbox == [] && !link.reader.readState.Ready?
    ensures link.reader.inner.stalls >= old(link.reader.inner.stalls)
    ensures link.reader.inner.faults >= old(link.reader.inner.faults)
    ensures !done ==> link.reader.inner.stalls > old(link.reader.inner.stalls)
                      || link.reader.inner.faults > old(link.reader.inner.faults)
  {
    hide Link.Valid;
    done := true;
    while link.reader.inner.inbox != [] || link.reader.readState.Ready?
      invariant link.Valid() && !link.readFailed && old(link.delivered) <= link.delivered
      invariant link.reader.inner.stalls == old(link.reader.inner.stalls)
      invariant link.reader.inner.faults == old(link.reader.inner.faults)
      decreases |link.reader.inner.inbox|, Waiting(link.place.last)
    {
      var r := link.Read(room);
      if !r.Done? {
        // a reader that has emptied its inbox and waits for more has got all
        done := r.Stuck? && link.reader.inner.inbox == [];
        return;
      }
    }
  }

  /** Draining one direction leaves the other as it was. */
  method DrainBeside(link: Link, other: Link, room: nat) returns (done: bool)
    requires link.Valid() && other.Valid() && Opposite(link, other) && room > 0
    requires !link.readFailed && !link.reader.inner.ended
    modifies link, link.writer, link.reader, link.writer.inner, link.reader.inner
    modifies link.reader.readCipher.nonce
    ensures link.Valid() && other.Valid() && !link.readFailed
    ensures other.reader.inner.ended == old(other.reader.inner.ended)
    ensures link.delivered <= Payload(link.writer.frames)
    ensures done ==> link.delivered == Payload(link.writer.frames)
    ensures done && !link.writeFailed ==> link.delivered == link.accepted
    ensures link.accepted == old(link.accepted) && link.writeFailed == old(link.writeFailed)
    ensures link.writer.frames == old(link.writer.frames) && link.reader.frames == old(link.reader.frames)
    ensures link.Troubles() >= old(link.Troubles())
    ensures !done ==> link.Troubles() > old(link.Troubles())
  {
    hide Link.Valid;
    done := Drain(link, room);
    link.Promises();
  }

  /**
    On two transports that are not cut, flushing, carrying and reading end with
    everything received in both directions, unless a transport has said Pending, has
    failed or has taken nothing of what it was offered.
   */
  method Settle(up: Link, down: Link, room: nat) returns (upDone: bool, downDone: bool)
    requires up.Valid() && down.Valid() && Opposite(up, down) && room > 0
    requires !up.readFailed && !down.readFailed && !up.reader.inner.ended && !down.reader.inner.ended
    modifies up, down, up.writer, up.reader, up.writer.inner, up.reader.inner
    modifies up.writer.readCipher.nonce, up.reader.readCipher.nonce
    ensures up.Valid() && down.Valid()
    ensures up.accepted == old(up.accepted) && up.writeFailed == old(up.writeFailed)
    ensures down.accepted == old(down.accepted) && down.writeFailed == old(down.writeFailed)
    ensures upDone && !up.writeFailed ==> up.delivered == up.accepted
    ensures downDone && !down.writeFailed ==> down.delivered == down.accepted
    ensures upDone ==> up.delivered == Payload(up.writer.frames)
    ensures downDone ==> down.delivered == Payload(down.writer.frames)
    ensures !upDone || !downDone ==> up.Troubles() > old(up.Troubles())
  {
    hide Link.Valid, Payload;
    upDone := DrainBeside(up, down, room);
    downDone := DrainBeside(down, up, room);
  }

  /**
    Any schedule of writes, flushes, reads, cuts and network moves in both
    directions: at its end, hence at every moment of every run, each side has
    received a prefix of what the other has written, and all of it once nothing
    is under way. A reader's caller hears of an end, by a failure of the stream or
    by a read of no bytes, only on a connection that was cut, unless the other side
    has made an empty write; and then it has exactly the payload of the frames
    carried whole and has heard of a failure if and only if the cut shows.
   */
  method Session(up: Link, down: Link, schedule: seq<Event>)
    requires up.Valid() && down.Valid() && Opposite(up, down)
    modifies up, down, up.writer, up.reader, up.writer.inner, up.reader.inner
    modifies up.writer.writeCipher.nonce, up.writer.readCipher.nonce
    modifies up.reader.writeCipher.nonce, up.reader.readCipher.nonce
    ensures up.Valid() && down.Valid()
    ensures up.delivered <= Payload(up.writer.frames) && down.delivered <= Payload(down.writer.frames)
    ensures !up.writeFailed ==> up.delivered <= up.accepted && (up.Quiet() ==> up.delivered == up.accepted)
    ensures !down.writeFailed ==> down.delivered <= down.accepted && (down.Quiet() ==> down.delivered == down.accepted)
    ensures up.HeardEnd() ==> up.reader.inner.ended && up.HeardRight()
    ensures down.HeardEnd() ==> down.reader.inner.ended && down.HeardRight()
    ensures up.emptyWrite ==> old(up.emptyWrite) || Event(true, Write([])) in schedule
    ensures down.emptyWrite ==> old(down.emptyWrite) || Event(false, Write([])) in schedule
    ensures up.reader.inner.ended ==> old(up.reader.inner.ended) || Event(true, Cut) in schedule
    ensures down.reader.inner.ended ==> old(down.reader.inner.ended) || Event(false, Cut) in schedule
    ensures old(up.delivered) <= up.delivered && old(down.delivered) <= down.delivered
  {
    hide Link.Valid, Link.Separate, Link.HeardRight;
    for i := 0 to |schedule|
      invariant up.Valid() && down.Valid()
      invariant old(up.delivered) <= up.delivered && old(down.delivered) <= down.delivered
      invariant up.emptyWrite ==> old(up.emptyWrite) || Event(true, Write([])) in schedule
      invariant down.emptyWrite ==> old(down.emptyWrite) || Event(false, Write([])) in schedule
      invariant up.reader.inner.ended ==> old(up.reader.inner.ended) || Event(true, Cut) in schedule
      invariant down.reader.inner.ended ==> old(down.reader.inner.ended) || Event(false, Cut) in schedule
    {
      assert schedule[i] in schedule;
      if schedule[i].up {
        PerformBeside(up, down, schedule[i].action);
      } else {
        PerformBeside(down, up, schedule[i].action);
      }
    }
    up.Promises();
    down.Promises();
    if up.Quiet() { up.QuietIsComplete(); }
    if down.Quiet() { down.QuietIsComplete(); }
  }
}
