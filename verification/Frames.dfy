/**
  The wire format of the encrypted stream: what a sequence of writes becomes on
  the wire, and the frame-by-frame decoder that is the meaning of a wire.
 */
module Frames {
  import opened Bytes
  import opened Library
  import opened Ciphers

  const MAX_PACKET_SIZE: nat := 0xFFFF

  /** `max` is a u16 and `rate` a u8; a rate above 100 is refused only by the configuration loader. */
  datatype DataPadding = DataPadding(max: nat, rate: nat) {
    predicate Needed() { max > 0 && rate > 0 }

    /** Upper bound of the padding draw; the quotient is cast to u16. */
    function Bound(dataLen: nat): (b: nat)
      ensures b <= max
    {
      Min(max, rate * dataLen / 100 % 0x10000)
    }

    /** The padding length for `dataLen` bytes when the generator gives `number`. */
    function Draw(dataLen: nat, number: nat): (padding: nat)
      ensures CanDraw(dataLen, padding)
    {
      if Needed() && Bound(dataLen) > 0 then number % Bound(dataLen) else 0
    }

    /** The padding lengths the writer can draw for `dataLen` bytes. */
    predicate CanDraw(dataLen: nat, padding: nat) {
      if Needed() && Bound(dataLen) > 0 then padding < Bound(dataLen) else padding == 0
    }
  }

  /** What the generator gives one write: the number its padding length is drawn by, and the padding bytes. */
  datatype Random = Random(number: nat, noise: nat -> byte) {
    function Fill(n: nat): (bytes: seq<byte>)
      ensures |bytes| == n && forall i :: 0 <= i < n ==> bytes[i] == noise(i)
    {
      seq<byte>(n, i requires 0 <= i < n => noise(i))
    }
  }

  /** These lengths, and no others, come out of the generator. */
  lemma DrawnIff(p: DataPadding, dataLen: nat, padding: nat)
    ensures p.CanDraw(dataLen, padding) <==> exists number: nat :: p.Draw(dataLen, number) == padding
  {
    if p.CanDraw(dataLen, padding) {
      if padding < p.Bound(dataLen) { SmallModulo(padding, p.Bound(dataLen)); }
      assert p.Draw(dataLen, padding) == padding;
    }
  }

  lemma SmallModulo(x: nat, n: nat)
    requires x < n
    ensures x % n == x
  {
  }

  /**
    Any padding of fewer than `max` bytes and less than `rate` percent of the data can be
    drawn, and none but these; the cast takes off what reaches a multiple of 65536.
   */
  lemma PaddingDrawsCut(p: DataPadding, dataLen: nat, padding: nat, k: nat)
    requires 0x640000 * k <= p.rate * dataLen < 0x640000 * (k + 1)
    ensures p.CanDraw(dataLen, padding)
       <==> padding == 0 || (padding < p.max && 100 * (padding + 1) <= p.rate * dataLen - 0x640000 * k)
  {
    var product := p.rate * dataLen;
    if p.rate == 0 { assert product == 0; }
    assert product / 100 % 0x10000 == product / 100 - 0x10000 * k;
  }

  /** Nothing is cut as long as the product is less than 65536 hundreds: for rates of up to 100, always. */
  lemma PaddingDraws(p: DataPadding, dataLen: nat, padding: nat)
    requires p.rate * dataLen < 0x640000 || (p.rate <= 100 && dataLen <= MAX_PACKET_SIZE)
    ensures p.CanDraw(dataLen, padding)
       <==> padding == 0 || (padding < p.max && 100 * (padding + 1) <= p.rate * dataLen)
  {
    if p.rate <= 100 && dataLen <= MAX_PACKET_SIZE { ProductAtMost(p.rate, dataLen, 100, 0xFFFF); }
    PaddingDrawsCut(p, dataLen, padding, 0);
  }

  lemma ProductAtMost(a: nat, b: nat, x: nat, y: nat)
    requires a <= x && b <= y
    ensures a * b <= x * y
  {
    assert a * b <= x * b <= x * y;
  }

  /** One direction of a tunnel, as both ends know it. */
  datatype Channel = Channel(aead: AeadKey, padding: DataPadding, limit: nat)

  /** What each end carries from frame to frame: payload bytes so far and the running nonce. */
  datatype Cursor = Cursor(count: nat, nonce: seq<byte>) {
    function Skip(v: nat): Cursor { Cursor(count, AddNonce(nonce, v)) }
  }

  /** One write: its payload and the padding bytes drawn for it. */
  datatype Frame = Frame(data: seq<byte>, padding: seq<byte>)

  predicate Encrypted(ch: Channel, cur: Cursor) { cur.count <= ch.limit }

  predicate Drawable(ch: Channel, f: Frame) {
    |f.data| <= MAX_PACKET_SIZE && ch.padding.CanDraw(|f.data|, |f.padding|)
  }

  predicate AllDrawable(ch: Channel, fs: seq<Frame>) { forall f <- fs :: Drawable(ch, f) }

  function TagSize(ch: Channel, cur: Cursor): nat {
    if Encrypted(ch, cur) then TAG_SIZE else 0
  }

  function HeaderSize(ch: Channel, cur: Cursor): nat {
    (if ch.padding.Needed() then 4 else 2) + TagSize(ch, cur)
  }

  function SealIf(ch: Channel, cur: Cursor, plain: seq<byte>): (s: seq<byte>)
    ensures |s| == |plain| + TagSize(ch, cur)
  {
    if Encrypted(ch, cur) then ch.aead.Seal(cur.nonce, plain) else plain
  }

  function OpenIf(ch: Channel, cur: Cursor, wire: seq<byte>): (p: Option<seq<byte>>)
    ensures p.Some? ==> |p.value| + TagSize(ch, cur) == |wire|
  {
    if Encrypted(ch, cur) then ch.aead.Open(cur.nonce, wire) else Some(wire)
  }

  lemma OpenIfSealIf(ch: Channel, cur: Cursor, plain: seq<byte>)
    ensures OpenIf(ch, cur, SealIf(ch, cur, plain)) == Some(plain)
  {
    ch.aead.OpenSeal(cur.nonce, plain);
  }

  function PlainHeader(ch: Channel, f: Frame): seq<byte> {
    PutUint(|f.data|, 2) + if ch.padding.Needed() then PutUint(|f.padding|, 2) else []
  }

  /** The cursor between a frame's header and its data. */
  function AfterHeader(ch: Channel, cur: Cursor, padding: nat): Cursor {
    if Encrypted(ch, cur) then cur.Skip(Max(padding, 1)) else cur
  }

  function AfterData(ch: Channel, cur: Cursor, size: nat): Cursor {
    (if Encrypted(ch, cur) then cur.Skip(1) else cur).(count := cur.count + size)
  }

  function AfterFrame(ch: Channel, cur: Cursor, f: Frame): Cursor {
    AfterData(ch, AfterHeader(ch, cur, |f.padding|), |f.data|)
  }

  function EncodeHeader(ch: Channel, cur: Cursor, f: Frame): (h: seq<byte>)
    ensures |h| == HeaderSize(ch, cur)
  {
    SealIf(ch, cur, PlainHeader(ch, f))
  }

  function EncodeData(ch: Channel, cur: Cursor, f: Frame): seq<byte> {
    SealIf(ch, AfterHeader(ch, cur, |f.padding|), f.data)
  }

  function EncodeFrame(ch: Channel, cur: Cursor, f: Frame): seq<byte> {
    EncodeHeader(ch, cur, f) + f.padding + EncodeData(ch, cur, f)
  }

  /**
    A frame byte by byte: data length and, where padding is configured, padding length; the
    padding; the data. Up to the limit header and data are sealed, and the nonce moves on
    by the padding's length but at least 1, and by 1 more.
   */
  lemma FrameOnTheWire(ch: Channel, cur: Cursor, f: Frame)
    requires |f.data| <= 0xFFFF && |f.padding| <= 0xFFFF
    ensures var size, padding, k := |f.data|, |f.padding|, ch.aead;
      var header := [size / 0x100, size % 0x100]
                    + if ch.padding.max > 0 && ch.padding.rate > 0 then [padding / 0x100, padding % 0x100] else [];
      var mid := AddNonce(cur.nonce, if padding == 0 then 1 else padding);
      if cur.count <= ch.limit then
        && EncodeFrame(ch, cur, f) == k.lib.seal(k.kind, k.key, cur.nonce, header) + f.padding
                                      + k.lib.seal(k.kind, k.key, mid, f.data)
        && AfterFrame(ch, cur, f) == Cursor(cur.count + size, AddNonce(mid, 1))
      else
        && EncodeFrame(ch, cur, f) == header + f.padding + f.data
        && AfterFrame(ch, cur, f) == Cursor(cur.count + size, cur.nonce)
  {
    TwoBytes(|f.data|);
    TwoBytes(|f.padding|);
    hide PutUint, AddNonce;
  }

  function After(ch: Channel, cur: Cursor, fs: seq<Frame>): Cursor
    decreases |fs|
  {
    if fs == [] then cur else After(ch, AfterFrame(ch, cur, fs[0]), fs[1..])
  }

  function Encode(ch: Channel, cur: Cursor, fs: seq<Frame>): seq<byte>
    decreases |fs|
  {
    if fs == [] then [] else EncodeFrame(ch, cur, fs[0]) + Encode(ch, AfterFrame(ch, cur, fs[0]), fs[1..])
  }

  function Payload(fs: seq<Frame>): seq<byte> {
    if fs == [] then [] else fs[0].data + Payload(fs[1..])
  }

  lemma {:induction false} AfterAppend(ch: Channel, cur: Cursor, a: seq<Frame>, b: seq<Frame>)
    ensures After(ch, cur, a + b) == After(ch, After(ch, cur, a), b)
    decreases |a|
  {
    if a == [] {
      assert a + b == b;
    } else {
      assert (a + b)[1..] == a[1..] + b;
      AfterAppend(ch, AfterFrame(ch, cur, a[0]), a[1..], b);
    }
  }

  lemma {:induction false} EncodeAppend(ch: Channel, cur: Cursor, a: seq<Frame>, b: seq<Frame>)
    ensures Encode(ch, cur, a + b) == Encode(ch, cur, a) + Encode(ch, After(ch, cur, a), b)
    decreases |a|
  {
    if a == [] {
      assert a + b == b;
    } else {
      var first, next := EncodeFrame(ch, cur, a[0]), AfterFrame(ch, cur, a[0]);
      assert (a + b)[1..] == a[1..] + b;
      calc {
        Encode(ch, cur, a + b);
        first + Encode(ch, next, a[1..] + b);
        { EncodeAppend(ch, next, a[1..], b); }
        first + (Encode(ch, next, a[1..]) + Encode(ch, After(ch, cur, a), b));
        (first + Encode(ch, next, a[1..])) + Encode(ch, After(ch, cur, a), b);
      }
    }
  }

  lemma {:induction false} PayloadAppend(a: seq<Frame>, b: seq<Frame>)
    ensures Payload(a + b) == Payload(a) + Payload(b)
  {
    if a == [] {
      assert a + b == b;
    } else {
      assert (a + b)[1..] == a[1..] + b;
      PayloadAppend(a[1..], b);
    }
  }

  lemma EncodeOne(ch: Channel, cur: Cursor, f: Frame)
    ensures Encode(ch, cur, [f]) == EncodeFrame(ch, cur, f)
    ensures After(ch, cur, [f]) == AfterFrame(ch, cur, f)
    ensures Payload([f]) == f.data
  {
    assert [f][1..] == [];
    assert Encode(ch, AfterFrame(ch, cur, f), []) == [];
  }

  // ---------------------------------------------------------------------
  // The decoder

  datatype Ending = CleanEnd | UnexpectedEof | InvalidData

  /** The payload a wire delivers and how it ends. */
  datatype Decoded = Decoded(payload: seq<byte>, ending: Ending)

  /** What becomes of a frame: its data, the next cursor and the remaining wire, or the end. */
  datatype Stage = Complete(data: seq<byte>, next: Cursor, rest: seq<byte>) | Stop(ending: Ending)

  /** The wire ran out inside a segment of which `got` is what arrived. */
  function ShortOf(got: seq<byte>): Ending { if got == [] then CleanEnd else UnexpectedEof }

  function DataStage(ch: Channel, cur: Cursor, size: nat, wire: seq<byte>): (s: Stage)
    ensures s.Complete? ==> |s.rest| <= |wire|
  {
    var need := size + TagSize(ch, cur);
    if |wire| < need then
      // With no data expected, an empty segment is mistaken for a complete one.
      Stop(if size == 0 && wire == [] then InvalidData else ShortOf(wire))
    else match OpenIf(ch, cur, wire[..need])
      case None => Stop(InvalidData)
      case Some(data) => Complete(data, AfterData(ch, cur, size), wire[need..])
  }

  function PaddingStage(ch: Channel, cur: Cursor, padding: nat, size: nat, wire: seq<byte>): (s: Stage)
    ensures s.Complete? ==> |s.rest| <= |wire|
  {
    if |wire| < padding then Stop(ShortOf(wire))
    else DataStage(ch, cur, size, wire[padding..])
  }

  function FrameStage(ch: Channel, cur: Cursor, wire: seq<byte>): (s: Stage)
    ensures s.Complete? ==> |s.rest| < |wire|
  {
    var need := HeaderSize(ch, cur);
    if |wire| < need then Stop(ShortOf(wire))
    else match OpenIf(ch, cur, wire[..need])
      case None => Stop(InvalidData)
      case Some(header) =>
        var size := GetUint(header[..2]);
        var padding := if ch.padding.Needed() then GetUint(header[2..4]) else 0;
        PaddingStage(ch, AfterHeader(ch, cur, padding), padding, size, wire[need..])
  }

  function Decode(ch: Channel, cur: Cursor, wire: seq<byte>): Decoded
    decreases |wire|
  {
    match FrameStage(ch, cur, wire)
    case Stop(ending) => Decoded([], ending)
    case Complete(data, next, rest) => Prepend(data, Decode(ch, next, rest))
  }

  function Prepend(data: seq<byte>, d: Decoded): Decoded {
    Decoded(data + d.payload, d.ending)
  }

  lemma PrependTwice(a: seq<byte>, b: seq<byte>, d: Decoded)
    ensures Prepend(a, Prepend(b, d)) == Prepend(a + b, d)
    ensures Prepend([], d) == d
  {
    assert a + (b + d.payload) == (a + b) + d.payload;
    assert [] + d.payload == d.payload;
  }
}
