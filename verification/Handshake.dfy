/** The first packet of a tunnel: how the client builds it and what the server makes of it. */
module Handshake {
  import opened Bytes
  import opened Library
  import opened Ciphers
  import opened Frames
  import opened Limits
  import opened Transports

  const MIN_HOST_LEN: nat := 4
  const MAX_HOST_LEN: nat := 259

  datatype ProtocolConfig = ProtocolConfig(
    key: seq<byte>,
    kdf: Kdf,
    cipher: CipherType,
    maxConnectDelay: nat,
    headerPaddingStart: nat,
    headerPaddingEnd: nat,
    dataPadding: DataPadding,
    encryptionLimit: nat
  ) {
    /** The fields have their machine widths. */
    predicate Valid() {
      && maxConnectDelay <= U16_MAX && headerPaddingStart <= U16_MAX && headerPaddingEnd <= U16_MAX
      && dataPadding.max <= U16_MAX && dataPadding.rate < 0x100 && encryptionLimit < 0x1_0000_0000_0000_0000
    }
  }

  /** The length of the header's first part: nonce, then salt, padding and host length under one tag. */
  const MAIN_HEADER_LEN: nat := NONCE_SIZE + KEY_SIZE + 2 + 1 + TAG_SIZE

  function MinHeaderLen(cfg: ProtocolConfig): nat {
    MAIN_HEADER_LEN + MIN_HOST_LEN + TAG_SIZE + cfg.headerPaddingStart
  }

  function Bucket(cfg: ProtocolConfig, now: nat): nat
    requires cfg.maxConnectDelay > 0
  {
    now / cfg.maxConnectDelay
  }

  function HeaderKey(lib: Lib, cfg: ProtocolConfig, bucket: int): AeadKey {
    AeadKey(lib, cfg.cipher, lib.derive(cfg.kdf, cfg.key, TimeBucket(bucket), []))
  }

  /** Salt, padding length and host length; a host length that does not fit its byte wraps. */
  function PlainMain(salt: seq<byte>, hostLen: nat, paddingLen: nat): seq<byte> {
    salt + PutUint(paddingLen, 2) + [(hostLen - MIN_HOST_LEN) % 0x100]
  }

  function Packet(k: AeadKey, nonce: seq<byte>, salt: seq<byte>, host: seq<byte>, padding: seq<byte>): seq<byte> {
    nonce
    + k.Seal(nonce, PlainMain(salt, |host|, |padding|))
    + k.Seal(AddNonce(nonce, |padding|), host)
    + padding
  }

  /** The client's side: `nonce`, `salt` and `padding` are its random draws. */
  method BuildPacket(lib: Lib, cfg: ProtocolConfig, now: nat, host: seq<byte>,
                     nonce: seq<byte>, salt: seq<byte>, padding: seq<byte>) returns (packet: seq<byte>)
    requires cfg.maxConnectDelay > 0
    requires |nonce| == NONCE_SIZE && |salt| == KEY_SIZE
    requires cfg.headerPaddingStart <= |padding| < cfg.headerPaddingEnd <= U16_MAX
    ensures var headerKey := lib.derive(cfg.kdf, cfg.key, TimeBucket(now / cfg.maxConnectDelay), []);
      && packet == Packet(AeadKey(lib, cfg.cipher, headerKey), nonce, salt, host, padding)
      && packet == nonce
                   + lib.seal(cfg.cipher, headerKey, nonce,
                              salt + [|padding| / 0x100, |padding| % 0x100, (|host| - 4) % 0x100])
                   + lib.seal(cfg.cipher, headerKey, AddNonce(nonce, |padding|), host)
                   + padding
  {
    var headerKey := lib.derive(cfg.kdf, cfg.key, TimeBucket(now / cfg.maxConnectDelay), []);
    var headerCipher := new Cipher.NewWithNonce(AeadKey(lib, cfg.cipher, headerKey), nonce);
    ghost var k := headerCipher.aead;

    packet := nonce;
    packet := packet + salt;
    packet := packet + PutUint(|padding|, 2);
    packet := packet + [(|host| - MIN_HOST_LEN) % 0x100];
    assert packet[..NONCE_SIZE] == nonce && packet[NONCE_SIZE..] == PlainMain(salt, |host|, |padding|);

    // everything behind the nonce goes under the first seal
    packet := headerCipher.Encrypt(packet, NONCE_SIZE);
    headerCipher.IncNonce(|padding|);

    // the host goes under a seal of its own
    ghost var main := packet;
    var headerMainSize := |packet|;
    packet := packet + host;
    assert packet[..headerMainSize] == main && packet[headerMainSize..] == host;
    packet := headerCipher.Encrypt(packet, headerMainSize);

    // the padding stays plain
    packet := packet + padding;
    PacketOnTheWire(k, nonce, salt, host, padding);
  }

  /** The packet byte by byte, but for what the cipher makes of its two sealed parts. */
  lemma PacketOnTheWire(k: AeadKey, nonce: seq<byte>, salt: seq<byte>, host: seq<byte>, padding: seq<byte>)
    requires |padding| <= 0xFFFF
    ensures Packet(k, nonce, salt, host, padding)
         == nonce
            + k.lib.seal(k.kind, k.key, nonce, salt + [|padding| / 0x100, |padding| % 0x100, (|host| - 4) % 0x100])
            + k.lib.seal(k.kind, k.key, AddNonce(nonce, |padding|), host)
            + padding
  {
    TwoBytes(|padding|);
    hide PutUint, AddNonce;
    assert PlainMain(salt, |host|, |padding|)
        == salt + [|padding| / 0x100, |padding| % 0x100, (|host| - 4) % 0x100];
  }

  // ---------------------------------------------------------------------
  // The server

  /** `Special`: not a tunnel header; the bytes read go to the special-request parser. */
  datatype Outcome =
    | Accepted(salt: seq<byte>, padding: nat, host: seq<byte>)
    | Special(data: seq<byte>)
    | WrongSize
    | BadHost
    | NotUtf8
    | SliceOutOfRange

  /** The key of the server's time bucket if it opens the header, else the one before it. */
  function Unlock(lib: Lib, cfg: ProtocolConfig, bucket: int, nonce: seq<byte>,
                  sealed: seq<byte>): (r: Option<(int, seq<byte>)>)
    ensures r.Some? ==> |r.value.1| + TAG_SIZE == |sealed|
  {
    match HeaderKey(lib, cfg, bucket).Open(nonce, sealed)
    case Some(header) => Some((bucket, header))
    case None =>
      match HeaderKey(lib, cfg, bucket - 1).Open(nonce, sealed)
      case Some(header) => Some((bucket - 1, header))
      case None => None
  }

  /** What follows the main header: the sealed host and the padding. */
  function BodyLen(header: seq<byte>): nat
    requires |header| == KEY_SIZE + 3
  {
    header[KEY_SIZE + 2] + MIN_HOST_LEN + TAG_SIZE + GetUint(header[KEY_SIZE..KEY_SIZE + 2])
  }

  /** What the server makes of the bytes `first` of its first read, with `more` there for the second. */
  function Parse(lib: Lib, cfg: ProtocolConfig, now: nat, first: seq<byte>, more: seq<byte>): Outcome
    requires cfg.maxConnectDelay > 0
    requires |first| <= MinHeaderLen(cfg)
  {
    if |first| < MinHeaderLen(cfg) then Special(first)
    else
      var nonce := first[..NONCE_SIZE];
      match Unlock(lib, cfg, Bucket(cfg, now), nonce, first[NONCE_SIZE..MAIN_HEADER_LEN])
      case None => Special(first)
      case Some((bucket, header)) => ParseBody(lib, cfg, bucket, nonce, header, first[MAIN_HEADER_LEN..], more)
  }

  function ParseBody(lib: Lib, cfg: ProtocolConfig, bucket: int, nonce: seq<byte>, header: seq<byte>,
                     left: seq<byte>, more: seq<byte>): Outcome
    requires |header| == KEY_SIZE + 3
  {
    var padding, need := GetUint(header[KEY_SIZE..KEY_SIZE + 2]), BodyLen(header);
    if need < |left| then SliceOutOfRange
    else if |left| + |more| < need then WrongSize
    else
      match HeaderKey(lib, cfg, bucket).Open(AddNonce(nonce, padding), (left + more)[..need - padding])
      case None => BadHost
      case Some(host) => if lib.utf8(host) then Accepted(header[..KEY_SIZE], padding, host) else NotUtf8
  }

  /** Opens the main header under the key of the current time bucket, then of the one before. */
  method UnlockHeader(lib: Lib, cfg: ProtocolConfig, bucket: int, nonce: seq<byte>, sealed: seq<byte>)
    returns (ok: bool, headerCipher: Cipher, header: seq<byte>)
    requires |nonce| == NONCE_SIZE && |sealed| == KEY_SIZE + 3 + TAG_SIZE
    ensures var u := Unlock(lib, cfg, bucket, nonce, sealed);
      && ok == u.Some? && |header| == |sealed|
      && (ok ==> headerCipher.aead == HeaderKey(lib, cfg, u.value.0) && header[..KEY_SIZE + 3] == u.value.1)
    ensures fresh(headerCipher) && fresh(headerCipher.nonce)
    ensures headerCipher.nonce.Length == NONCE_SIZE && headerCipher.nonce[..] == nonce
  {
    var headerKey := lib.derive(cfg.kdf, cfg.key, TimeBucket(bucket), []);
    headerCipher := new Cipher.NewWithNonce(AeadKey(lib, cfg.cipher, headerKey), nonce);
    ok, header := headerCipher.Decrypt(sealed);
    if !ok {
      // sealed before the clock of this end went on
      headerKey := lib.derive(cfg.kdf, cfg.key, TimeBucket(bucket - 1), []);
      headerCipher := new Cipher.NewWithNonce(AeadKey(lib, cfg.cipher, headerKey), nonce);
      ok, header := headerCipher.Decrypt(sealed);
    }
  }

  /** Reads what the opened header announces, of which `left` is already here, and opens the host. */
  method AcceptBody(lib: Lib, ghost cfg: ProtocolConfig, ghost bucket: int, headerCipher: Cipher, header: seq<byte>,
                    left: seq<byte>, stream: Transport) returns (r: Outcome)
    requires |header| >= KEY_SIZE + 3
    requires headerCipher.aead == HeaderKey(lib, cfg, bucket) && headerCipher.nonce.Length == NONCE_SIZE
    modifies stream`inbox, headerCipher.nonce
    ensures var plain, more := header[..KEY_SIZE + 3], old(stream.inbox);
      && r == ParseBody(lib, cfg, bucket, old(headerCipher.nonce[..]), plain, left, more)
      && (r.Accepted? ==> BodyLen(plain) <= |left + more| && stream.inbox == (left + more)[BodyLen(plain)..])
  {
    ghost var plain, more := header[..KEY_SIZE + 3], stream.inbox;
    var salt := header[..KEY_SIZE];
    var padding := GetUint(header[KEY_SIZE..KEY_SIZE + 2]);
    var hostLen := header[KEY_SIZE + 2] + MIN_HOST_LEN;
    assert salt == plain[..KEY_SIZE] && header[KEY_SIZE..KEY_SIZE + 2] == plain[KEY_SIZE..KEY_SIZE + 2];

    // what the header announces and the first read has not brought
    var restHeaderSize := hostLen + TAG_SIZE + padding;
    if restHeaderSize < |left| {
      return SliceOutOfRange;
    }
    var rest := stream.Read(restHeaderSize - |left|);
    var data := left + rest;
    if |data| < restHeaderSize {
      return WrongSize;
    }
    assert data == (left + more)[..restHeaderSize] && stream.inbox == (left + more)[restHeaderSize..];

    // the padding length is also the step to the nonce of the host
    var hostData := data[..hostLen + TAG_SIZE];
    assert hostData == (left + more)[..hostLen + TAG_SIZE];
    U16Fits(header[KEY_SIZE..KEY_SIZE + 2]);
    headerCipher.IncNonce(padding);
    var ok;
    ok, hostData := headerCipher.Decrypt(hostData);
    if !ok {
      return BadHost;
    }
    var host := hostData[..hostLen];
    if !lib.utf8(host) {
      return NotUtf8;
    }
    r := Accepted(salt, padding, host);
  }

  /** Reads and checks a tunnel header; `late` is what arrives between the two reads. */
  method AcceptHeader(lib: Lib, cfg: ProtocolConfig, now: nat, stream: Transport, late: seq<byte>) returns (r: Outcome)
    requires cfg.maxConnectDelay > 0
    modifies stream`inbox
    ensures var first := old(stream.inbox)[..Min(MinHeaderLen(cfg), |old(stream.inbox)|)];
      var more := old(stream.inbox)[|first|..] + late;
      && r == Parse(lib, cfg, now, first, more)
      && (r.Accepted? ==>
            var consumed := MAIN_HEADER_LEN + |r.host| + TAG_SIZE + r.padding;
            consumed <= |first + more| && stream.inbox == (first + more)[consumed..])
      && (r.Special? ==> stream.inbox == more)
  {
    var minHeaderLen := MinHeaderLen(cfg);
    var data := stream.Read(minHeaderLen);
    stream.inbox := stream.inbox + late;
    ghost var first, more := data, stream.inbox;
    if |data| < minHeaderLen {
      return Special(data);
    }

    var nonce := data[..NONCE_SIZE];
    var header := data[NONCE_SIZE..MAIN_HEADER_LEN];
    data := data[MAIN_HEADER_LEN..];
    var bucket := now / cfg.maxConnectDelay;
    var ok, headerCipher, plain := UnlockHeader(lib, cfg, bucket, nonce, header);
    if !ok {
      assert nonce + header + data == first;
      return Special(nonce + header + data);
    }
    ghost var used := Unlock(lib, cfg, bucket, nonce, header).value.0;
    r := AcceptBody(lib, cfg, used, headerCipher, plain, data, stream);
    if r.Accepted? {
      var bodyLen := BodyLen(plain[..KEY_SIZE + 3]);
      assert (first + more)[MAIN_HEADER_LEN + bodyLen..] == (data + more)[bodyLen..];
    }
  }

  // ---------------------------------------------------------------------
  // Both sides together

  /** The sealed first part of a packet. */
  function SealedMain(k: AeadKey, nonce: seq<byte>, salt: seq<byte>, host: seq<byte>, padding: seq<byte>): seq<byte> {
    k.Seal(nonce, PlainMain(salt, |host|, |padding|))
  }

  /** Distinct buckets have distinct keys: a header sealed in one bucket does not open in bucket `b`. */
  predicate Separate(lib: Lib, cfg: ProtocolConfig, sent: int, b: int, nonce: seq<byte>, sealed: seq<byte>) {
    b != sent ==> HeaderKey(lib, cfg, b).Open(nonce, sealed).None?
  }

  /** There is a library in which this holds for all times that fit 64 bits. */
  lemma SomeLibrarySeparates(cfg: ProtocolConfig, sent: int, b: int, nonce: seq<byte>, plain: seq<byte>)
    requires -1 <= sent < 0x1_0000_0000_0000_0000 && -1 <= b < 0x1_0000_0000_0000_0000
    ensures Separate(Keyed(), cfg, sent, b, nonce, HeaderKey(Keyed(), cfg, sent).Seal(nonce, plain))
  {
    if b != sent { KeyedSeparates(cfg.cipher, cfg.kdf, cfg.key, sent, b, nonce, plain); }
  }

  lemma UnlockSealed(lib: Lib, cfg: ProtocolConfig, sent: int, bucket: int, nonce: seq<byte>, plain: seq<byte>)
    requires var sealed := HeaderKey(lib, cfg, sent).Seal(nonce, plain);
      Separate(lib, cfg, sent, bucket, nonce, sealed) && Separate(lib, cfg, sent, bucket - 1, nonce, sealed)
    ensures Unlock(lib, cfg, bucket, nonce, HeaderKey(lib, cfg, sent).Seal(nonce, plain))
         == if sent == bucket || sent == bucket - 1 then Some((sent, plain)) else None
  {
    HeaderKey(lib, cfg, sent).OpenSeal(nonce, plain);
  }

  /** The fields of the opened header are those the client put there, the host length modulo 256. */
  lemma MainReads(salt: seq<byte>, hostLen: nat, paddingLen: nat)
    requires |salt| == KEY_SIZE && paddingLen <= U16_MAX
    ensures var plain := PlainMain(salt, hostLen, paddingLen);
      && |plain| == KEY_SIZE + 3
      && plain[..KEY_SIZE] == salt
      && GetUint(plain[KEY_SIZE..KEY_SIZE + 2]) == paddingLen
      && plain[KEY_SIZE + 2] == (hostLen - MIN_HOST_LEN) % 0x100
  {
    U16RoundTrip(paddingLen);
    var plain := PlainMain(salt, hostLen, paddingLen);
    assert plain[KEY_SIZE..KEY_SIZE + 2] == PutUint(paddingLen, 2);
  }

  /** The parts of a packet that the server's first read, of any length, has taken and left. */
  lemma PacketSplits(k: AeadKey, nonce: seq<byte>, salt: seq<byte>, host: seq<byte>, padding: seq<byte>,
                     following: seq<byte>, first: seq<byte>, more: seq<byte>)
    requires |nonce| == NONCE_SIZE && |salt| == KEY_SIZE
    requires first + more == Packet(k, nonce, salt, host, padding) + following
    requires |first| >= MAIN_HEADER_LEN
    ensures first[..NONCE_SIZE] == nonce
    ensures first[NONCE_SIZE..MAIN_HEADER_LEN] == SealedMain(k, nonce, salt, host, padding)
    ensures first[MAIN_HEADER_LEN..] + more == k.Seal(AddNonce(nonce, |padding|), host) + (padding + following)
  {
    PacketShape(k, nonce, salt, host, padding, following);
    hide Packet, PlainMain, AddNonce, SealedMain;
    Slices(nonce, SealedMain(k, nonce, salt, host, padding),
           k.Seal(AddNonce(nonce, |padding|), host) + (padding + following), first, more);
  }

  lemma PacketShape(k: AeadKey, nonce: seq<byte>, salt: seq<byte>, host: seq<byte>, padding: seq<byte>,
                    following: seq<byte>)
    requires |salt| == KEY_SIZE
    ensures |SealedMain(k, nonce, salt, host, padding)| == MAIN_HEADER_LEN - NONCE_SIZE
    ensures Packet(k, nonce, salt, host, padding) + following
         == nonce + (SealedMain(k, nonce, salt, host, padding)
                     + (k.Seal(AddNonce(nonce, |padding|), host) + (padding + following)))
  {
    Regroup(nonce, SealedMain(k, nonce, salt, host, padding), k.Seal(AddNonce(nonce, |padding|), host),
            padding + following);
  }

  lemma Slices(a: seq<byte>, b: seq<byte>, rest: seq<byte>, first: seq<byte>, more: seq<byte>)
    requires first + more == a + (b + rest) && |first| >= |a| + |b|
    ensures first[..|a|] == a && first[|a|..|a| + |b|] == b
    ensures first[|a| + |b|..] + more == rest
  {
    var whole := a + (b + rest);
    assert first == whole[..|first|] && more == whole[|first|..];
    assert whole[|a| + |b|..] == rest;
  }

  /** What the body yields once the header is opened. */
  lemma BodyParses(lib: Lib, cfg: ProtocolConfig, sent: int, nonce: seq<byte>, salt: seq<byte>, host: seq<byte>,
                   padding: seq<byte>, left: seq<byte>, more: seq<byte>, following: seq<byte>)
    requires |salt| == KEY_SIZE && |padding| <= U16_MAX
    requires left + more == HeaderKey(lib, cfg, sent).Seal(AddNonce(nonce, |padding|), host) + (padding + following)
    requires |left| <= MIN_HOST_LEN + TAG_SIZE + |padding|
    requires lib.utf8(host)
    ensures var r := ParseBody(lib, cfg, sent, nonce, PlainMain(salt, |host|, |padding|), left, more);
      r == Accepted(salt, |padding|, host) <==> MIN_HOST_LEN <= |host| <= MAX_HOST_LEN
  {
    var k, plain := HeaderKey(lib, cfg, sent), PlainMain(salt, |host|, |padding|);
    MainReads(salt, |host|, |padding|);
    if MIN_HOST_LEN <= |host| <= MAX_HOST_LEN {
      assert BodyLen(plain) == |host| + TAG_SIZE + |padding|;
      assert (left + more)[..|host| + TAG_SIZE] == k.Seal(AddNonce(nonce, |padding|), host);
      k.OpenSeal(AddNonce(nonce, |padding|), host);
    }
  }

  /**
    Handshake round trip: within the connect window the server recovers salt,
    padding length and host, whatever follows the packet, if and only if the
    host's length is one that the header can express.
   */
  lemma PacketRoundTrip(lib: Lib, cfg: ProtocolConfig, sent: int, now: nat, nonce: seq<byte>, salt: seq<byte>,
                        host: seq<byte>, padding: seq<byte>, first: seq<byte>, more: seq<byte>, following: seq<byte>)
    requires cfg.maxConnectDelay > 0 && |nonce| == NONCE_SIZE && |salt| == KEY_SIZE
    requires cfg.headerPaddingStart <= |padding| <= U16_MAX && lib.utf8(host)
    requires first + more == Packet(HeaderKey(lib, cfg, sent), nonce, salt, host, padding) + following
    requires |first| == MinHeaderLen(cfg)
    requires sent == Bucket(cfg, now) || sent == Bucket(cfg, now) - 1
    requires Separate(lib, cfg, sent, Bucket(cfg, now), nonce, SealedMain(HeaderKey(lib, cfg, sent), nonce, salt, host,
        padding))
    ensures Parse(lib, cfg, now, first, more) == Accepted(salt, |padding|, host)
       <==> MIN_HOST_LEN <= |host| <= MAX_HOST_LEN
  {
    var k := HeaderKey(lib, cfg, sent);
    PacketSplits(k, nonce, salt, host, padding, following, first, more);
    k.OpenSeal(nonce, PlainMain(salt, |host|, |padding|));
    BodyParses(lib, cfg, sent, nonce, salt, host, padding, first[MAIN_HEADER_LEN..], more, following);
  }

  /** What else the server makes of a packet in time, its host of a length that the header can express. */
  lemma PacketOutcomes(lib: Lib, cfg: ProtocolConfig, sent: int, now: nat, nonce: seq<byte>, salt: seq<byte>,
                       host: seq<byte>, padding: seq<byte>, first: seq<byte>, more: seq<byte>, following: seq<byte>,
                       missing: seq<byte>)
    requires cfg.maxConnectDelay > 0 && |nonce| == NONCE_SIZE && |salt| == KEY_SIZE
    requires |padding| <= U16_MAX && MIN_HOST_LEN <= |host| <= MAX_HOST_LEN
    requires first + more + missing == Packet(HeaderKey(lib, cfg, sent), nonce, salt, host, padding) + following
    requires missing == [] || following == []
    requires |first| <= MinHeaderLen(cfg)
    requires sent == Bucket(cfg, now) || sent == Bucket(cfg, now) - 1
    requires Separate(lib, cfg, sent, Bucket(cfg, now), nonce, SealedMain(HeaderKey(lib, cfg, sent), nonce, salt, host,
        padding))
    ensures Parse(lib, cfg, now, first, more)
         == if |first| < MinHeaderLen(cfg) then Special(first)
            else if MAIN_HEADER_LEN + |host| + TAG_SIZE + |padding| < |first| then SliceOutOfRange
            else if missing != [] then WrongSize
            else if !lib.utf8(host) then NotUtf8
            else Accepted(salt, |padding|, host)
  {
    if |first| == MinHeaderLen(cfg) {
      var k, left := HeaderKey(lib, cfg, sent), first[MAIN_HEADER_LEN..];
      assert first + (more + missing) == first + more + missing;
      PacketSplits(k, nonce, salt, host, padding, following, first, more + missing);
      k.OpenSeal(nonce, PlainMain(salt, |host|, |padding|));
      hide Packet, PlainMain, Separate, SealedMain, ParseBody, HeaderKey, AddNonce;
      assert left + more + missing == left + (more + missing);
      BodyOutcomes(lib, cfg, sent, nonce, salt, host, padding, left, more, following, missing);
    }
  }

  lemma BodyOutcomes(lib: Lib, cfg: ProtocolConfig, sent: int, nonce: seq<byte>, salt: seq<byte>, host: seq<byte>,
                     padding: seq<byte>, left: seq<byte>, more: seq<byte>, following: seq<byte>, missing: seq<byte>)
    requires |salt| == KEY_SIZE && |padding| <= U16_MAX && MIN_HOST_LEN <= |host| <= MAX_HOST_LEN
    requires left + more + missing
          == HeaderKey(lib, cfg, sent).Seal(AddNonce(nonce, |padding|), host) + (padding + following)
    requires missing == [] || following == []
    ensures ParseBody(lib, cfg, sent, nonce, PlainMain(salt, |host|, |padding|), left, more)
         == if |host| + TAG_SIZE + |padding| < |left| then SliceOutOfRange
            else if missing != [] then WrongSize
            else if !lib.utf8(host) then NotUtf8
            else Accepted(salt, |padding|, host)
  {
    var k := HeaderKey(lib, cfg, sent);
    MainReads(salt, |host|, |padding|);
    assert BodyLen(PlainMain(salt, |host|, |padding|)) == |host| + TAG_SIZE + |padding|;
    var sealed := k.Seal(AddNonce(nonce, |padding|), host);
    k.OpenSeal(AddNonce(nonce, |padding|), host);
    assert |left| + |more| + |missing| == |host| + TAG_SIZE + |padding| + |following|;
    hide PlainMain, AddNonce, BodyLen;
    if missing == [] {
      assert left + more == left + more + missing;
      FrontOf(left + more, sealed, padding + following);
    }
  }

  lemma FrontOf(s: seq<byte>, front: seq<byte>, rest: seq<byte>)
    requires s == front + rest
    ensures s[..|front|] == front
  {
  }

  /** A host part that does not open is a bad host. */
  lemma SpoiltHost(lib: Lib, cfg: ProtocolConfig, bucket: int, nonce: seq<byte>, salt: seq<byte>, hostLen: nat,
                   paddingLen: nat, left: seq<byte>, more: seq<byte>)
    requires |salt| == KEY_SIZE && paddingLen <= U16_MAX && MIN_HOST_LEN <= hostLen <= MAX_HOST_LEN
    requires |left| <= hostLen + TAG_SIZE + paddingLen <= |left + more|
    requires HeaderKey(lib, cfg, bucket).Open(AddNonce(nonce, paddingLen), (left + more)[..hostLen + TAG_SIZE]).None?
    ensures ParseBody(lib, cfg, bucket, nonce, PlainMain(salt, hostLen, paddingLen), left, more) == BadHost
  {
    MainReads(salt, hostLen, paddingLen);
    assert BodyLen(PlainMain(salt, hostLen, paddingLen)) == hostLen + TAG_SIZE + paddingLen;
    hide PlainMain, AddNonce, BodyLen, HeaderKey, GetUint;
  }

  /** The packet is as long as the server takes it to be: what follows it stays unread. */
  lemma PacketLength(k: AeadKey, nonce: seq<byte>, salt: seq<byte>, host: seq<byte>, padding: seq<byte>)
    requires |nonce| == NONCE_SIZE && |salt| == KEY_SIZE
    ensures |Packet(k, nonce, salt, host, padding)| == MAIN_HEADER_LEN + |host| + TAG_SIZE + |padding|
  {
  }

  /** The server's first read is as long as the shortest packet: a host of 4 bytes and the smallest padding. */
  lemma ShortestPacket(cfg: ProtocolConfig, k: AeadKey, nonce: seq<byte>, salt: seq<byte>, host: seq<byte>,
                       padding: seq<byte>)
    requires |nonce| == NONCE_SIZE && |salt| == KEY_SIZE
    requires |host| >= 4 && |padding| >= cfg.headerPaddingStart
    ensures |Packet(k, nonce, salt, host, padding)| >= MinHeaderLen(cfg) == 83 + cfg.headerPaddingStart
    ensures |Packet(k, nonce, salt, host, padding)| == MinHeaderLen(cfg)
       <==> |host| == 4 && |padding| == cfg.headerPaddingStart
  {
    PacketLength(k, nonce, salt, host, padding);
  }

  /**
    The main header and the host are sealed under nonces that differ (section 3.1 of
    RFC 5116) for every padding that can be drawn, if and only if the range does not
    begin at 0, which nothing refuses.
   */
  lemma HeaderNonces(cfg: ProtocolConfig, nonce: seq<byte>)
    requires |nonce| == NONCE_SIZE
    requires cfg.headerPaddingStart < cfg.headerPaddingEnd <= U16_MAX
    ensures (forall p: nat :: cfg.headerPaddingStart <= p < cfg.headerPaddingEnd ==> AddNonce(nonce, p) != nonce)
      <==> cfg.headerPaddingStart > 0
  {
    hide AddNonce;
    forall p: nat | p <= U16_MAX ensures AddNonce(nonce, p) == nonce <==> p == 0 {
      StepMoves(nonce, p);
    }
    assert AddNonce(nonce, 0) == nonce;
  }

  // ---------------------------------------------------------------------
  // The connect window

  /** The main path turns a packet away, with exactly the bytes it read, if and only if it is of another time. */
  lemma WindowDecides(lib: Lib, cfg: ProtocolConfig, sent: int, now: nat, nonce: seq<byte>, salt: seq<byte>,
                      host: seq<byte>, padding: seq<byte>, first: seq<byte>, more: seq<byte>, following: seq<byte>)
    requires cfg.maxConnectDelay > 0 && |nonce| == NONCE_SIZE && |salt| == KEY_SIZE
    requires first + more == Packet(HeaderKey(lib, cfg, sent), nonce, salt, host, padding) + following
    requires |first| == MinHeaderLen(cfg)
    requires var main := SealedMain(HeaderKey(lib, cfg, sent), nonce, salt, host, padding);
      && Separate(lib, cfg, sent, Bucket(cfg, now), nonce, main)
      && Separate(lib, cfg, sent, Bucket(cfg, now) - 1, nonce, main)
    ensures Parse(lib, cfg, now, first, more).Special? <==> !(Bucket(cfg, now) - 1 <= sent <= Bucket(cfg, now))
    ensures Parse(lib, cfg, now, first, more).Special? ==> Parse(lib, cfg, now, first, more).data == first
  {
    PacketSplits(HeaderKey(lib, cfg, sent), nonce, salt, host, padding, following, first, more);
    UnlockSealed(lib, cfg, sent, Bucket(cfg, now), nonce, PlainMain(salt, |host|, |padding|));
  }

  /** A packet is in time at any age up to the delay and never from twice the delay on. */
  lemma Window(cfg: ProtocolConfig, sentAt: nat, now: nat)
    requires cfg.maxConnectDelay > 0 && sentAt <= now
    ensures now - sentAt <= cfg.maxConnectDelay ==> Bucket(cfg, now) - 1 <= Bucket(cfg, sentAt) <= Bucket(cfg, now)
    ensures now - sentAt >= 2 * cfg.maxConnectDelay ==> Bucket(cfg, sentAt) < Bucket(cfg, now) - 1
  {
    var d, a, b := cfg.maxConnectDelay, Bucket(cfg, sentAt), Bucket(cfg, now);
    BucketBounds(cfg, sentAt);
    BucketBounds(cfg, now);
    hide Bucket;
    Cancel(a, b, 1, d);
    if now - sentAt <= d { Cancel(b, a, 2, d); }
    if now - sentAt >= 2 * d { Cancel(a, b, -1, d); }
  }

  lemma BucketBounds(cfg: ProtocolConfig, t: nat)
    requires cfg.maxConnectDelay > 0
    ensures Bucket(cfg, t) * cfg.maxConnectDelay <= t < Bucket(cfg, t) * cfg.maxConnectDelay + cfg.maxConnectDelay
  {
  }

  lemma Cancel(x: int, y: int, k: int, d: nat)
    requires x * d < y * d + k * d
    ensures x < y + k
  {
    assert y * d + k * d == (y + k) * d;
    Order(x, y + k, d);
  }

  lemma Order(x: int, y: int, d: nat)
    requires x * d < y * d
    ensures x < y
  {
  }
}
