/** `EncryptedStream`: the two poll state machines over one transport. */
module Streams {
  import opened Bytes
  import opened Library
  import opened Ciphers
  import opened Frames
  import opened Transports
  import opened Readers

  class EncryptedStream {
    const inner: Transport
    const readCipher: Cipher
    const writeCipher: Cipher
    const padding: DataPadding
    const encLimit: nat

    var readBuffer: seq<byte>
    var readState: ReadState
    var readed: nat

    var writeBuffer: seq<byte>
    var writePos: nat
    var written: nat

    ghost var frames: seq<Frame>     // the writes accepted so far
    ghost const wireStart: nat       // where this stream's output starts in `inner.sent`
    ghost const writeStart: Cursor   // the write cursor at construction

    /** The direction this end reads and the direction it writes. */
    function Incoming(): Channel { Channel(readCipher.aead, padding, encLimit) }

    function Outgoing(): Channel { Channel(writeCipher.aead, padding, encLimit) }

    ghost function Reading(): Reader
      reads this`readBuffer, this`readState, this`readed, readCipher.nonce
    {
      Reader(readState, readBuffer, Cursor(readed, readCipher.nonce[..]))
    }

    ghost function WriteCursor(): Cursor
      reads this`written, writeCipher.nonce
    {
      Cursor(written, writeCipher.nonce[..])
    }

    ghost function Unsent(): seq<byte>
      requires writePos <= |writeBuffer|
      reads this`writeBuffer, this`writePos
    {
      writeBuffer[writePos..]
    }

    /** Nothing is left to read and nothing will arrive. */
    ghost predicate Exhausted()
      reads inner`ended, inner`inbox
    {
      inner.ended && inner.inbox == []
    }

    ghost predicate Nonces() {
      && readCipher.nonce.Length == writeCipher.nonce.Length == NONCE_SIZE
      && readCipher.nonce != writeCipher.nonce
    }

    ghost predicate ReadValid()
      reads this`readBuffer, this`readState, this`readed, readCipher.nonce
    {
      Nonces() && Settled(Incoming(), Reading())
    }

    /** What the transport has taken, with what is still buffered, is the encoding of all accepted writes. */
    ghost predicate WriteValid()
      reads this`frames, this`writeBuffer, this`writePos, this`written, writeCipher.nonce, inner`sent
    {
      && Nonces()
      && writePos <= |writeBuffer|
      && wireStart <= |inner.sent|
      && (inner.sent + Unsent())[wireStart..] == Encode(Outgoing(), writeStart, frames)
      && WriteCursor() == After(Outgoing(), writeStart, frames)
      && AllDrawable(Outgoing(), frames)
    }

    ghost predicate Valid()
      reads this, inner, readCipher.nonce, writeCipher.nonce
    {
      ReadValid() && WriteValid()
    }

    constructor FromStream(inner: Transport, readCipher: Cipher, writeCipher: Cipher,
                           padding: DataPadding, encLimit: nat)
      requires readCipher.nonce.Length == writeCipher.nonce.Length == NONCE_SIZE
      requires readCipher.nonce != writeCipher.nonce
      ensures Valid()
      ensures this.inner == inner && this.readCipher == readCipher && this.writeCipher == writeCipher
      ensures this.padding == padding && this.encLimit == encLimit
      ensures Reading() == Reader(Header, [], Cursor(0, readCipher.nonce[..]))
      ensures frames == [] && wireStart == |inner.sent| && writeStart == Cursor(0, writeCipher.nonce[..])
      ensures writeBuffer == []
    {
      this.inner, this.readCipher, this.writeCipher := inner, readCipher, writeCipher;
      this.padding, this.encLimit := padding, encLimit;
      readBuffer, readState, readed := [], Header, 0;
      writeBuffer, writePos, written := [], 0, 0;
      frames, wireStart, writeStart := [], |inner.sent|, Cursor(0, writeCipher.nonce[..]);
    }

    // -------------------------------------------------------------------
    // Reading

    /** Reads until the buffer holds `size` bytes; an end of the transport is clean only on an empty buffer. */
    method PollReadExact(size: nat) returns (r: Poll<()>, ghost bytes: seq<byte>)
      requires |readBuffer| <= size
      modifies this`readBuffer, inner`inbox, inner`stalls, inner`faults
      ensures old(inner.inbox) == bytes + inner.inbox
      ensures readBuffer == old(readBuffer) + bytes
      ensures |readBuffer| <= size
      ensures r.Done? ==> |readBuffer| == size || (readBuffer == [] && inner.inbox == [] && inner.ended)
      ensures !r.Done? ==> |readBuffer| < size
      ensures r.Broken? ==> r.error == Io || (r.error == Eof && readBuffer != [] && inner.inbox == [] && inner.ended)
      ensures inner.stalls == old(inner.stalls) + (if r.Stuck? then 1 else 0)
      ensures inner.faults == old(inner.faults) + (if r == Broken(Io) then 1 else 0)
    {
      bytes := [];
      while |readBuffer| < size
        invariant old(inner.inbox) == bytes + inner.inbox
        invariant readBuffer == old(readBuffer) + bytes
        invariant |readBuffer| <= size
        invariant inner.stalls == old(inner.stalls) && inner.faults == old(inner.faults)
        decreases size - |readBuffer|
      {
        var n := inner.PollRead(size - |readBuffer|);
        match n {
          case Stuck => return Stuck, bytes;
          case Broken(e) => return Broken(e), bytes;
          case Done(more) =>
            if more == [] {
              if readBuffer != [] {
                return Broken(Eof), bytes;
              }
              break;
            }
            readBuffer := readBuffer + more;
            bytes := bytes + more;
        }
      }
      r := Done(());
    }

    method CollectHeader() returns (stop: Option<Poll<seq<byte>>>, ghost bytes: seq<byte>)
      requires ReadValid() && readState.Header?
      modifies this`readBuffer, this`readState, readCipher.nonce, inner`inbox, inner`stalls, inner`faults
      ensures stop.None? ==> readBuffer == [] && (readState.Padding? || readState.Data?)
      ensures old(inner.inbox) == bytes + inner.inbox && readed == old(readed)
      ensures Phase(Incoming(), old(Reading()), bytes, Exhausted(), stop, Reading())
      ensures inner.stalls == old(inner.stalls) + (if stop == Some(Stuck) then 1 else 0)
      ensures inner.faults == old(inner.faults) + (if stop == Some(Broken(Io)) then 1 else 0)
    {
      var headerSize := 2;
      if padding.Needed() {
        headerSize := headerSize + 2;
      }
      if readed <= encLimit {
        headerSize := headerSize + TAG_SIZE;
      }

      var r;
      r, bytes := PollReadExact(headerSize);
      if r.Stuck? { return Some(Stuck), bytes; }
      if r.Broken? { return Some(Broken(r.error)), bytes; }
      if |readBuffer| < headerSize {
        return Some(Done([])), bytes;
      }

      if readed <= encLimit {
        var ok;
        ok, readBuffer := readCipher.Decrypt(readBuffer);
        if !ok {
          return Some(Broken(Invalid)), bytes;
        }
      }
      ghost var header := OpenIf(Incoming(), old(Reading().cur), old(readBuffer) + bytes).value;
      assert readBuffer[..|header|] == header;
      assert readBuffer[..2] == header[..2] && (padding.Needed() ==> readBuffer[2..4] == header[2..4]);

      var size := GetUint(readBuffer[..2]);
      var paddingSize := 0;
      if padding.Needed() {
        paddingSize := GetUint(readBuffer[2..4]);
        readState := Padding(paddingSize, size);
      } else {
        readState := Data(size);
      }
      if readed <= encLimit {
        U16Fits(readBuffer[2..4]);
        readCipher.IncNonce(Max(paddingSize, 1));
      }
      readBuffer := [];
      stop := None;
    }

    method CollectPadding() returns (stop: Option<Poll<seq<byte>>>, ghost bytes: seq<byte>)
      requires readState.Padding? && |readBuffer| <= Need(Incoming(), Reading())
      modifies this`readBuffer, this`readState, inner`inbox, inner`stalls, inner`faults
      ensures stop.None? ==> readBuffer == [] && readState.Data?
      ensures old(inner.inbox) == bytes + inner.inbox
      ensures Phase(Incoming(), old(Reading()), bytes, Exhausted(), stop, Reading())
      ensures inner.stalls == old(inner.stalls) + (if stop == Some(Stuck) then 1 else 0)
      ensures inner.faults == old(inner.faults) + (if stop == Some(Broken(Io)) then 1 else 0)
    {
      var size, dataSize := readState.size, readState.dataSize;
      var r;
      r, bytes := PollReadExact(size);
      if r.Stuck? { return Some(Stuck), bytes; }
      if r.Broken? { return Some(Broken(r.error)), bytes; }
      if |readBuffer| < size {
        return Some(Done([])), bytes;
      }
      readState := Data(dataSize);
      readBuffer := [];
      stop := None;
    }

    method CollectData() returns (stop: Option<Poll<seq<byte>>>, ghost bytes: seq<byte>)
      requires Nonces() && readState.Data? && |readBuffer| <= Need(Incoming(), Reading())
      modifies this`readBuffer, this`readState, this`readed, readCipher.nonce, inner`inbox, inner`stalls, inner`faults
      ensures stop.None? ==> readState == Ready(0)
      ensures old(inner.inbox) == bytes + inner.inbox
      ensures Phase(Incoming(), old(Reading()), bytes, Exhausted(), stop, Reading())
      ensures inner.stalls == old(inner.stalls) + (if stop == Some(Stuck) then 1 else 0)
      ensures inner.faults == old(inner.faults) + (if stop == Some(Broken(Io)) then 1 else 0)
    {
      var size := readState.size;
      var readSize := if readed <= encLimit then size + TAG_SIZE else size;
      var r;
      r, bytes := PollReadExact(readSize);
      if r.Stuck? { return Some(Stuck), bytes; }
      if r.Broken? { return Some(Broken(r.error)), bytes; }
      if |readBuffer| < size {
        return Some(Done([])), bytes;
      }

      var ok := OpenData(size);
      if !ok {
        return Some(Broken(Invalid)), bytes;
      }
      stop := None;
    }

    /** Opens the data segment that is in the buffer and gets ready to hand it over. */
    method OpenData(size: nat) returns (ok: bool)
      requires Nonces() && readState == Data(size) && |readBuffer| >= size
      requires |readBuffer| == Need(Incoming(), Reading()) || readBuffer == []
      modifies this`readBuffer, this`readState, this`readed, readCipher.nonce
      ensures ok ==> readState == Ready(0) && |old(readBuffer)| == Need(Incoming(), old(Reading()))
                     && Advance(Incoming(), old(Reading())) == Some(Reading())
      ensures !ok && |old(readBuffer)| == Need(Incoming(), old(Reading()))
        ==> Advance(Incoming(), old(Reading())).None?
    {
      ok := true;
      if readed <= encLimit {
        ok, readBuffer := readCipher.Decrypt(readBuffer);
        if !ok {
          return;
        }
        readCipher.IncNonce(1);
        readBuffer := readBuffer[..size];
      }

      readed := readed + size;
      readState := Ready(0);
    }

    /** Hands over buffered data and leaves the frame when none is left. */
    method DeliverReady(room: nat) returns (out: seq<byte>)
      requires readState.Ready? && readState.pos <= |readBuffer|
      modifies this`readBuffer, this`readState
      ensures (out, Reading()) == Deliver(old(Reading()), room)
    {
      var pos := readState.pos;
      out := [];
      if pos < |readBuffer| {
        var buffered := readBuffer[pos..];
        var consumed := Min(|buffered|, room);
        out := buffered[..consumed];
        assert buffered[..consumed] == readBuffer[pos..pos + consumed];
        pos := pos + consumed;
        readState := Ready(pos);
      }
      assert out == old(readBuffer)[old(readState.pos)..old(readState.pos) + Min(|readBuffer| - old(readState.pos),
          room)];
      if pos >= |readBuffer| {
        readBuffer := [];
        readState := Header;
      }
    }

    /** Where a poll that began at `start` stands after taking `taken`: still under way, or at its result. */
    ghost predicate Stands(start: Reader, taken: seq<byte>, room: nat, stop: Option<Poll<seq<byte>>>)
      requires Settled(Incoming(), start)
      reads this`readBuffer, this`readState, this`readed, readCipher.nonce, inner`ended, inner`inbox
    {
      if stop.None? then Leads(Incoming(), start, taken, Reading())
      else
        && ReadStep(Incoming(), start, taken, Exhausted(), room, stop.value, Reading())
        && (!Ends(stop.value) ==> ReadValid())
    }

    /** One of the three segments of a frame. */
    method CollectSegment(ghost start: Reader, ghost wire: seq<byte>, ghost taken: seq<byte>, ghost room: nat)
      returns (stop: Option<Poll<seq<byte>>>, ghost all: seq<byte>)
      requires !readState.Ready? && Nonces() && wire == taken + inner.inbox
      requires Settled(Incoming(), start) && Stands(start, taken, room, None)
      requires readState.Header? ==> ReadValid()
      modifies this`readBuffer, this`readState, this`readed, readCipher.nonce, inner`inbox, inner`stalls, inner`faults
      ensures wire == all + inner.inbox
      ensures Stands(start, all, room, stop)
      ensures stop.None? ==> match old(readState)
        case Header => readState.Padding? || readState.Data?
        case Padding(_, _) => readState.Data?
        case _ => readState == Ready(0)
      ensures inner.stalls == old(inner.stalls) + (if stop == Some(Stuck) then 1 else 0)
      ensures inner.faults == old(inner.faults) + (if stop == Some(Broken(Io)) then 1 else 0)
    {
      ghost var ch, mid, bytes := Incoming(), Reading(), [];
      assert |readBuffer| <= Need(ch, mid);
      hide Feed, ReadStep, Phase, Leads, Settled, Need;
      if readState.Header? {
        stop, bytes := CollectHeader();
      } else if readState.Padding? {
        stop, bytes := CollectPadding();
      } else {
        stop, bytes := CollectData();
      }
      all := taken + bytes;
      assert wire == all + inner.inbox;
      if stop.Some? {
        PhaseStops(ch, start, taken, mid, bytes, Exhausted(), room, stop.value, Reading());
      } else {
        PhaseLeads(ch, start, taken, mid, bytes, Exhausted(), Reading());
      }
    }

    /** The three segments one after the other, as far as the transport allows. */
    method Collect(ghost room: nat) returns (stop: Option<Poll<seq<byte>>>, ghost bytes: seq<byte>)
      requires ReadValid()
      modifies this`readBuffer, this`readState, this`readed, readCipher.nonce, inner`inbox, inner`stalls, inner`faults
      ensures old(inner.inbox) == bytes + inner.inbox
      ensures Stands(old(Reading()), bytes, room, stop)
      ensures stop.None? ==> readState.Ready?
      ensures inner.stalls == old(inner.stalls) + (if stop == Some(Stuck) then 1 else 0)
      ensures inner.faults == old(inner.faults) + (if stop == Some(Broken(Io)) then 1 else 0)
    {
      ghost var start, wire := Reading(), inner.inbox;
      stop, bytes := None, [];
      LeadsNowhere(Incoming(), start);
      assert Stands(start, bytes, room, stop);
      hide Stands, Settled, Ends;

      if readState.Header? {
        stop, bytes := CollectSegment(start, wire, bytes, room);
      }
      if stop.None? && readState.Padding? {
        stop, bytes := CollectSegment(start, wire, bytes, room);
      }
      if stop.None? && readState.Data? {
        stop, bytes := CollectSegment(start, wire, bytes, room);
      }
    }

    /** One `poll_read` into a buffer with `room` bytes left. */
    method PollRead(room: nat) returns (r: Poll<seq<byte>>, ghost bytes: seq<byte>)
      requires ReadValid()
      modifies this`readBuffer, this`readState, this`readed, readCipher.nonce, inner`inbox, inner`stalls, inner`faults
      ensures old(inner.inbox) == bytes + inner.inbox
      ensures ReadStep(Incoming(), old(Reading()), bytes, Exhausted(), room, r, Reading())
      ensures !Ends(r) ==> ReadValid()
      ensures inner.stalls == old(inner.stalls) + (if r.Stuck? then 1 else 0)
      ensures inner.faults == old(inner.faults) + (if r == Broken(Io) then 1 else 0)
    {
      ghost var start := Reading();
      var stop;
      stop, bytes := Collect(room);
      Meaning(start, bytes, room, stop);
      hide ReadStep, Leads, Settled, Stands;
      if stop.Some? {
        return stop.value, bytes;
      }
      ghost var ready := Reading();
      var out := DeliverReady(room);
      PhaseDelivers(Incoming(), start, bytes, ready, Exhausted(), room, out, Reading());
      r := Done(out);
    }

    lemma Meaning(start: Reader, taken: seq<byte>, room: nat, stop: Option<Poll<seq<byte>>>)
      requires Settled(Incoming(), start) && Stands(start, taken, room, stop)
      ensures stop.None? ==> Leads(Incoming(), start, taken, Reading())
      ensures stop.None? && readState.Ready? ==> readState.pos <= |readBuffer|
      ensures stop.Some? ==> ReadStep(Incoming(), start, taken, Exhausted(), room, stop.value, Reading())
      ensures stop.Some? && !Ends(stop.value) ==> ReadValid()
    {
    }

    // -------------------------------------------------------------------
    // Writing

    /** Hands buffered bytes to the transport; with `noPending` a stalled transport is no reason to stop. */
    method PollWriteBuffer(noPending: bool) returns (r: Poll<()>)
      requires writePos <= |writeBuffer|
      modifies this`writeBuffer, this`writePos, inner`sent, inner`stalls, inner`faults
      ensures writePos <= |writeBuffer|
      ensures old(inner.sent) <= inner.sent
      ensures inner.sent + Unsent() == old(inner.sent + Unsent())
      ensures inner.stalls == old(inner.stalls) + (if r.Stuck? || (r.Done? && writeBuffer != []) then 1 else 0)
      ensures r.Done? ==> (writeBuffer == [] && writePos == 0) || (noPending && Unsent() != [])
      ensures r.Stuck? ==> !noPending && Unsent() != []
      ensures r.Broken? ==> Unsent() != []
      ensures inner.faults == old(inner.faults) + (if r.Broken? then 1 else 0)
    {
      ghost var total := inner.sent + Unsent();
      while writePos < |writeBuffer|
        invariant writePos <= |writeBuffer| && writeBuffer == old(writeBuffer)
        invariant old(inner.sent) <= inner.sent
        invariant inner.sent + Unsent() == total
        invariant inner.stalls == old(inner.stalls) && inner.faults == old(inner.faults)
      {
        ghost var sent := inner.sent;
        var n := inner.PollWrite(writeBuffer[writePos..]);
        match n {
          case Stuck =>
            if noPending {
              return Done(());
            }
            return Stuck;
          case Broken(e) => return Broken(e);
          case Done(taken) =>
            if taken == 0 {
              return Broken(Eof);
            }
            Shift(sent, writeBuffer, writePos, taken);
            writePos := writePos + taken;
        }
      }
      assert Unsent() == [];
      writePos := 0;
      writeBuffer := [];
      r := Done(());
    }

    /** Puts the header of a write of `size` bytes into the empty buffer, its padding length drawn by `number`. */
    method AssembleHeader(size: nat, number: nat) returns (paddingSize: nat)
      requires Nonces() && writeBuffer == []
      requires size <= MAX_PACKET_SIZE && padding.max <= U16_MAX
      modifies this`writeBuffer, writeCipher.nonce
      ensures paddingSize == padding.Draw(size, number)
      ensures writeBuffer == SealIf(Outgoing(), old(WriteCursor()),
        PutUint(size, 2) + if padding.Needed() then PutUint(paddingSize, 2) else [])
      ensures WriteCursor() == AfterHeader(Outgoing(), old(WriteCursor()), paddingSize)
    {
      hide DataPadding.Bound;
      writeBuffer := writeBuffer + PutUint(size, 2);
      paddingSize := 0;
      if padding.Needed() {
        var paddingMax := padding.Bound(size);
        if paddingMax > 0 {
          paddingSize := number % paddingMax;
        }
        writeBuffer := writeBuffer + PutUint(paddingSize, 2);
      }
      ghost var plain := PutUint(size, 2) + if padding.Needed() then PutUint(paddingSize, 2) else [];
      assert writeBuffer == plain == plain[0..];
      if written <= encLimit {
        assert plain[..0] + writeCipher.aead.Seal(writeCipher.nonce[..],
                                                  plain) == writeCipher.aead.Seal(writeCipher.nonce[..], plain);
        writeBuffer := writeCipher.Encrypt(writeBuffer, 0);
        writeCipher.IncNonce(Max(paddingSize, 1));
      }
    }

    /** Appends the frame of one write to the empty buffer. */
    method AssembleDataToBuffer(data: seq<byte>, random: Random) returns (ghost f: Frame)
      requires Nonces() && writeBuffer == []
      requires |data| <= MAX_PACKET_SIZE && padding.max <= U16_MAX
      modifies this`writeBuffer, this`written, writeCipher.nonce
      ensures f == Frame(data, random.Fill(padding.Draw(|data|, random.number))) && Drawable(Outgoing(), f)
      ensures writeBuffer == EncodeFrame(Outgoing(), old(WriteCursor()), f)
      ensures WriteCursor() == AfterFrame(Outgoing(), old(WriteCursor()), f)
    {
      var headerSize := 2;
      if padding.Needed() {
        headerSize := headerSize + 2;
      }
      if written <= encLimit {
        headerSize := headerSize + TAG_SIZE;
      }

      hide DataPadding.Bound, DataPadding.Draw, DataPadding.CanDraw;
      var paddingSize := AssembleHeader(|data|, random.number);
      ghost var header := writeBuffer;
      var noise := random.Fill(paddingSize);
      f := Frame(data, noise);
      assert header == EncodeHeader(Outgoing(), old(WriteCursor()), f);
      if paddingSize > 0 {
        writeBuffer := writeBuffer + noise;
      }
      assert writeBuffer == header + noise && |writeBuffer| == headerSize + paddingSize;

      AppendData(data, headerSize + paddingSize);
    }

    /** Appends data behind `start` bytes of the frame, sealed if need be. */
    method AppendData(data: seq<byte>, start: nat)
      requires Nonces() && start == |writeBuffer|
      modifies this`writeBuffer, this`written, writeCipher.nonce
      ensures writeBuffer == old(writeBuffer) + SealIf(Outgoing(), old(WriteCursor()), data)
      ensures WriteCursor() == AfterData(Outgoing(), old(WriteCursor()), |data|)
    {
      ghost var front := writeBuffer;
      writeBuffer := writeBuffer + data;
      assert writeBuffer[..start] == front && writeBuffer[start..] == data;
      if written <= encLimit {
        writeBuffer := writeCipher.Encrypt(writeBuffer, start);
        writeCipher.IncNonce(1);
      }
      written := written + |data|;
    }

    /** One `poll_write`; `accepted` is the frame it has made of the data, if any. */
    method PollWrite(data: seq<byte>, random: Random) returns (r: Poll<nat>, ghost accepted: seq<Frame>)
      requires WriteValid() && padding.max <= U16_MAX
      modifies this`writeBuffer, this`writePos, this`written, this`frames, writeCipher.nonce
      modifies inner`sent, inner`stalls, inner`faults
      ensures WriteValid() && old(inner.sent) <= inner.sent
      ensures frames == old(frames) + accepted
      ensures |accepted| <= 1
      ensures accepted != [] ==>
        var size := if |data| < 65535 then |data| else 65535;
        accepted[0] == Frame(data[..size], random.Fill(padding.Draw(size, random.number)))
      ensures r.Stuck? ==> accepted == [] && inner.stalls > old(inner.stalls)
      ensures r.Done? ==> r.value == Min(|data|, MAX_PACKET_SIZE) && accepted != []
      ensures inner.stalls >= old(inner.stalls) && inner.faults == old(inner.faults) + (if r.Broken? then 1 else 0)
    {
      hide Encode, EncodeFrame, After, AfterFrame, Drawable, DataPadding.Draw;
      var buf := data;
      if |data| > MAX_PACKET_SIZE {
        buf := data[..MAX_PACKET_SIZE];
      }

      accepted := [];
      var flushed := PollWriteBuffer(false);
      if flushed.Stuck? { return Stuck, accepted; }
      if flushed.Broken? { return Broken(flushed.error), accepted; }

      ghost var wire := inner.sent;
      ghost var f := AssembleDataToBuffer(buf, random);
      accepted := [f];
      AcceptOne(Outgoing(), writeStart, frames, f);
      assert (wire + Unsent())[wireStart..] == wire[wireStart..] + Unsent();
      frames := frames + accepted;

      flushed := PollWriteBuffer(true);
      if flushed.Broken? { return Broken(flushed.error), accepted; }
      r := Done(|buf|);
    }

    /** A completed flush leaves nothing behind. */
    method PollFlush() returns (r: Poll<()>)
      requires WriteValid()
      modifies this`writeBuffer, this`writePos, inner`sent, inner`stalls, inner`faults
      ensures WriteValid() && old(inner.sent) <= inner.sent
      ensures r.Done? ==> writeBuffer == [] && inner.sent[wireStart..] == Encode(Outgoing(), writeStart, frames)
      ensures inner.stalls == old(inner.stalls) + (if r.Stuck? then 1 else 0)
      ensures inner.faults == old(inner.faults) + (if r.Broken? then 1 else 0)
    {
      var flushed := PollWriteBuffer(false);
      if !flushed.Done? { return flushed; }
      assert inner.sent + Unsent() == inner.sent;
      r := inner.PollFlush();
    }
  }

  /** What the transport takes from the buffer it adds to what it has. */
  lemma Shift(sent: seq<byte>, buffer: seq<byte>, pos: nat, taken: nat)
    requires pos + taken <= |buffer|
    ensures sent + buffer[pos..] == (sent + buffer[pos..][..taken]) + buffer[pos + taken..]
  {
    assert buffer[pos..] == buffer[pos..][..taken] + buffer[pos + taken..];
  }

  lemma AcceptOne(ch: Channel, cur: Cursor, fs: seq<Frame>, f: Frame)
    ensures Encode(ch, cur, fs + [f]) == Encode(ch, cur, fs) + EncodeFrame(ch, After(ch, cur, fs), f)
    ensures After(ch, cur, fs + [f]) == AfterFrame(ch, After(ch, cur, fs), f)
    ensures AllDrawable(ch, fs) && Drawable(ch, f) ==> AllDrawable(ch, fs + [f])
    ensures Payload(fs + [f]) == Payload(fs) + f.data
  {
    EncodeAppend(ch, cur, fs, [f]);
    AfterAppend(ch, cur, fs, [f]);
    PayloadAppend(fs, [f]);
    EncodeOne(ch, After(ch, cur, fs), f);
  }
}
