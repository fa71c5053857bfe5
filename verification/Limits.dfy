/** Quantities over a whole stream: what is encrypted, how long the wire is, which nonces are used. */
module Limits {
  import opened Bytes
  import opened Library
  import opened Ciphers
  import opened Frames

  lemma {:induction false} CountIsPayload(ch: Channel, cur: Cursor, fs: seq<Frame>)
    ensures After(ch, cur, fs).count == cur.count + |Payload(fs)|
    decreases |fs|
  {
    if fs != [] { CountIsPayload(ch, AfterFrame(ch, cur, fs[0]), fs[1..]); }
  }

  /** Encrypted frames come first: no frame is encrypted after one that is not. */
  lemma EncryptedFramesArePrefix(ch: Channel, cur: Cursor, fs: seq<Frame>, i: nat, j: nat)
    requires i <= j <= |fs|
    requires Encrypted(ch, After(ch, cur, fs[..j]))
    ensures Encrypted(ch, After(ch, cur, fs[..i]))
  {
    assert fs[..j] == fs[..i] + fs[i..j];
    AfterAppend(ch, cur, fs[..i], fs[i..j]);
    CountIsPayload(ch, After(ch, cur, fs[..i]), fs[i..j]);
  }

  /** Every payload byte at an index up to the limit lies in an encrypted frame. */
  lemma LimitIsCovered(ch: Channel, start: Cursor, fs: seq<Frame>, i: nat, index: nat)
    requires start.count == 0 && i < |fs|
    requires |Payload(fs[..i])| <= index < |Payload(fs[..i])| + |fs[i].data|
    requires index <= ch.limit
    ensures Encrypted(ch, After(ch, start, fs[..i]))
  {
    CountIsPayload(ch, start, fs[..i]);
  }

  function EncryptedFrames(ch: Channel, cur: Cursor, fs: seq<Frame>): seq<Frame>
    decreases |fs|
  {
    if fs == [] then []
    else (if Encrypted(ch, cur) then [fs[0]] else []) + EncryptedFrames(ch, AfterFrame(ch, cur, fs[0]), fs[1..])
  }

  /** Encryption stops soon: at most one frame reaches beyond the limit. */
  lemma {:induction false} EncryptedPayloadBound(ch: Channel, cur: Cursor, fs: seq<Frame>)
    requires AllDrawable(ch, fs)
    ensures |Payload(EncryptedFrames(ch, cur, fs))|
         <= if Encrypted(ch, cur) then ch.limit - cur.count + MAX_PACKET_SIZE else 0
    decreases |fs|
  {
    if fs != [] {
      var rest := EncryptedFrames(ch, AfterFrame(ch, cur, fs[0]), fs[1..]);
      EncryptedPayloadBound(ch, AfterFrame(ch, cur, fs[0]), fs[1..]);
      assert Drawable(ch, fs[0]);
      if Encrypted(ch, cur) {
        PayloadAppend([fs[0]], rest);
        EncodeOne(ch, cur, fs[0]);
      } else {
        assert [] + rest == rest;
      }
    }
  }

  function PaddingTotal(fs: seq<Frame>): nat {
    if fs == [] then 0 else |fs[0].padding| + PaddingTotal(fs[1..])
  }

  /** Conservation of length: the wire holds the payload, the headers, two tags per encrypted frame and the padding. */
  lemma {:induction false} WireLength(ch: Channel, cur: Cursor, fs: seq<Frame>)
    ensures |Encode(ch, cur, fs)|
         == |Payload(fs)| + PaddingTotal(fs) + (if ch.padding.Needed() then 4 else 2) * |fs|
            + 32 * |EncryptedFrames(ch, cur, fs)|
    decreases |fs|
  {
    if fs != [] {
      hide EncodeFrame, AfterFrame;
      WireLength(ch, AfterFrame(ch, cur, fs[0]), fs[1..]);
      FrameLength(ch, cur, fs[0]);
      var rest := EncryptedFrames(ch, AfterFrame(ch, cur, fs[0]), fs[1..]);
      Counts(if ch.padding.Needed() then 4 else 2, |fs[1..]|, TagSize(ch, cur), |rest|);
    }
  }

  lemma Counts(header: nat, frames: nat, tag: nat, encrypted: nat)
    requires tag == 0 || tag == TAG_SIZE
    ensures header * (frames + 1) == header * frames + header
    ensures 2 * TAG_SIZE * (encrypted + if tag == 0 then 0 else 1) == 2 * TAG_SIZE * encrypted + 2 * tag
  {
  }

  lemma FrameLength(ch: Channel, cur: Cursor, f: Frame)
    ensures |EncodeFrame(ch, cur, f)|
         == |f.data| + |f.padding| + (if ch.padding.Needed() then 4 else 2) + 2 * TagSize(ch, cur)
  {
  }

  /** Padding is at most `rate` percent of the payload, even where the quotient does not fit its 16 bits. */
  lemma {:induction false} PaddingRate(ch: Channel, fs: seq<Frame>)
    requires AllDrawable(ch, fs)
    ensures 100 * PaddingTotal(fs) <= ch.padding.rate * |Payload(fs)|
    decreases |fs|
  {
    if fs != [] {
      PaddingRate(ch, fs[1..]);
      FramePadding(ch, fs[0]);
      hide Drawable;
      Distribute(ch.padding.rate, |fs[0].data|, |Payload(fs[1..])|);
    }
  }

  lemma Distribute(a: nat, b: nat, c: nat)
    ensures a * (b + c) == a * b + a * c
  {
  }

  lemma FramePadding(ch: Channel, f: Frame)
    requires Drawable(ch, f)
    ensures 100 * |f.padding| <= ch.padding.rate * |f.data|
    ensures |f.padding| < Max(ch.padding.max, 1)
  {
    var whole := ch.padding.rate * |f.data|;
    assert whole / 100 % 0x10000 <= whole / 100;
  }

  // ---------------------------------------------------------------------
  // Nonces

  /** How far a frame moves the nonce on: past its header, then past its data. */
  function Stride(f: Frame): nat { Max(|f.padding|, 1) + 1 }

  /** The nonces the stream seals with, in order. */
  function NoncesUsed(ch: Channel, cur: Cursor, fs: seq<Frame>): seq<seq<byte>>
    decreases |fs|
  {
    if fs == [] then []
    else
      (if Encrypted(ch, cur) then [cur.nonce, AfterHeader(ch, cur, |fs[0].padding|).nonce] else [])
      + NoncesUsed(ch, AfterFrame(ch, cur, fs[0]), fs[1..])
  }

  /** These are the nonces of the header and the data of each frame that is sealed. */
  lemma {:induction false} NoncesOfFrame(ch: Channel, cur: Cursor, fs: seq<Frame>, i: nat)
    requires i < |fs| && Encrypted(ch, After(ch, cur, fs[..i]))
    ensures 2 * i + 1 < |NoncesUsed(ch, cur, fs)|
    ensures NoncesUsed(ch, cur, fs)[2 * i] == After(ch, cur, fs[..i]).nonce
    ensures NoncesUsed(ch, cur, fs)[2 * i + 1]
         == AddNonce(After(ch, cur, fs[..i]).nonce, if fs[i].padding == [] then 1 else |fs[i].padding|)
    decreases |fs|
  {
    if i > 0 {
      EncryptedFramesArePrefix(ch, cur, fs, 0, i);
      assert fs[..i][1..] == fs[1..][..i - 1];
      assert fs[..0] == [];
      NoncesOfFrame(ch, AfterFrame(ch, cur, fs[0]), fs[1..], i - 1);
      hide AfterFrame, AfterHeader;
    }
  }

  /** The same, as distances from the first nonce when the stream has come `base` far. */
  function Distances(ch: Channel, cur: Cursor, fs: seq<Frame>, base: nat): (d: seq<nat>)
    ensures |d| == |NoncesUsed(ch, cur, fs)|
    decreases |fs|
  {
    if fs == [] then []
    else
      var next := AfterFrame(ch, cur, fs[0]);
      if Encrypted(ch, cur) then
        [base, base + Max(|fs[0].padding|, 1)] + Distances(ch, next, fs[1..], base + Stride(fs[0]))
      else Distances(ch, next, fs[1..], base)
  }

  const NONCES: nat := Power(0x100, NONCE_SIZE)

  /** `nonce` is `distance` steps after `first`, modulo 2^96. */
  predicate Away(first: seq<byte>, distance: nat, nonce: seq<byte>) {
    |nonce| == NONCE_SIZE && LittleEndian(nonce) == (LittleEndian(first) + distance) % NONCES
  }

  lemma AddMod(x: nat, y: nat, m: nat)
    requires m > 0
    ensures (x % m + y) % m == (x + y) % m
  {
    var q := x / m;
    assert x + y == q * m + (x % m + y);
    var q2, r := (x % m + y) / m, (x % m + y) % m;
    assert x + y == (q + q2) * m + r;
    DivisionIs(x + y, q + q2, r, m);
  }

  lemma StepAway(first: seq<byte>, distance: nat, nonce: seq<byte>, v: nat)
    requires Away(first, distance, nonce)
    ensures Away(first, distance + v, AddNonce(nonce, v))
  {
    AddNonceAdds(nonce, v);
    AddMod(LittleEndian(first) + distance, v, NONCES);
  }

  /** Every nonce used lies at its distance. */
  lemma {:induction false} NoncesAtDistances(ch: Channel, cur: Cursor, fs: seq<Frame>, first: seq<byte>, base: nat,
                                             i: nat)
    requires Away(first, base, cur.nonce)
    requires i < |NoncesUsed(ch, cur, fs)|
    ensures Away(first, Distances(ch, cur, fs, base)[i], NoncesUsed(ch, cur, fs)[i])
    decreases |fs|
  {
    if Encrypted(ch, cur) {
      var v := Max(|fs[0].padding|, 1);
      StepAway(first, base, cur.nonce, v);
      StepAway(first, base + v, AddNonce(cur.nonce, v), 1);
      if i >= 2 {
        NoncesAtDistances(ch, AfterFrame(ch, cur, fs[0]), fs[1..], first, base + Stride(fs[0]), i - 2);
      }
    } else {
      NoncesAtDistances(ch, AfterFrame(ch, cur, fs[0]), fs[1..], first, base, i);
    }
  }

  /** Distances grow, by less than 2^16 a frame. */
  lemma {:induction false} DistancesGrow(ch: Channel, cur: Cursor, fs: seq<Frame>, base: nat, i: nat)
    requires ch.padding.max <= U16_MAX && AllDrawable(ch, fs)
    requires i < |Distances(ch, cur, fs, base)|
    ensures base <= Distances(ch, cur, fs, base)[i] < base + U16_MAX * |fs|
    ensures forall j :: 0 <= j < i ==> Distances(ch, cur, fs, base)[j] < Distances(ch, cur, fs, base)[i]
    decreases |fs|
  {
    FramePadding(ch, fs[0]);
    if !Encrypted(ch, cur) {
      DistancesGrow(ch, AfterFrame(ch, cur, fs[0]), fs[1..], base, i);
    } else if i >= 2 {
      DistancesGrow(ch, AfterFrame(ch, cur, fs[0]), fs[1..], base + Stride(fs[0]), i - 2);
    }
  }

  lemma ApartMod(x: nat, a: nat, b: nat, m: nat)
    requires a < b < a + m
    ensures (x + a) % m != (x + b) % m
  {
    if (x + a) % m == (x + b) % m {
      var d := (x + b) / m - (x + a) / m;
      assert d * m == b - a;
      SmallMultiple(d, m);
    }
  }

  lemma DistinctAway(first: seq<byte>, a: nat, b: nat, nonce1: seq<byte>, nonce2: seq<byte>)
    requires Away(first, a, nonce1) && Away(first, b, nonce2)
    requires a < b < a + NONCES
    ensures nonce1 != nonce2
  {
    ApartMod(LittleEndian(first), a, b, NONCES);
  }

  /** A step of up to 65535 leaves the nonce as it is if and only if it is no step. */
  lemma StepMoves(nonce: seq<byte>, v: nat)
    requires |nonce| == NONCE_SIZE && v <= U16_MAX
    ensures AddNonce(nonce, v) == nonce <==> v == 0
  {
    NotAway(nonce);
    StepAway(nonce, 0, nonce, v);
    if v > 0 {
      NonceSpace();
      DistinctAway(nonce, 0, v, nonce, AddNonce(nonce, v));
    }
  }

  lemma NotAway(first: seq<byte>)
    requires |first| == NONCE_SIZE
    ensures Away(first, 0, first)
  {
    LittleEndianBound(first);
    DivisionIs(LittleEndian(first), 0, LittleEndian(first), NONCES);
  }

  lemma NonceSpace()
    ensures NONCES == 0x1_0000_0000_0000_0000_0000_0000
  {
    assert Power(0x100, 4) == 0x1_0000_0000;
    assert Power(0x100, 8) == 0x1_0000_0000 * 0x1_0000_0000;
    assert Power(0x100, 12) == 0x1_0000_0000 * 0x1_0000_0000 * 0x1_0000_0000;
  }

  lemma SpaceEnough(frames: nat)
    requires frames <= 0x1_0000_0000_0000_0000_0000
    ensures U16_MAX * frames < NONCES
  {
    NonceSpace();
  }

  /**
    Freshness (section 3.1 of RFC 5116): in a stream of up to 2^80 frames no
    two sealed segments share a nonce.
   */
  lemma NoncesAreFresh(ch: Channel, cur: Cursor, fs: seq<Frame>, i: nat, j: nat)
    requires ch.padding.max <= U16_MAX && AllDrawable(ch, fs) && |cur.nonce| == NONCE_SIZE
    requires |fs| <= 0x1_0000_0000_0000_0000_0000
    requires i < j < |NoncesUsed(ch, cur, fs)|
    ensures NoncesUsed(ch, cur, fs)[i] != NoncesUsed(ch, cur, fs)[j]
  {
    hide NoncesUsed, Distances, Away, AllDrawable;
    NotAway(cur.nonce);
    SpaceEnough(|fs|);
    NoncesAtDistances(ch, cur, fs, cur.nonce, 0, i);
    NoncesAtDistances(ch, cur, fs, cur.nonce, 0, j);
    DistancesGrow(ch, cur, fs, 0, i);
    DistancesGrow(ch, cur, fs, 0, j);
    var d := Distances(ch, cur, fs, 0);
    DistinctAway(cur.nonce, d[i], d[j], NoncesUsed(ch, cur, fs)[i], NoncesUsed(ch, cur, fs)[j]);
  }
}
