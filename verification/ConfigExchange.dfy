/**
  The special request by which a client that knows only the master key obtains
  the protocol configuration; every message is sealed by both ciphers in turn.
 */
module ConfigExchange {
  import opened Bytes
  import opened Library
  import opened Ciphers
  import opened Frames
  import opened Transports
  import opened Handshake

  const GET_PROTOCOL_MAX_CONNECT_DELAY: nat := 30000
  const MIN_REQUEST_PADDING: nat := 177
  const MAX_REQUEST_PADDING: nat := 4096
  const REQUEST_HEADER_LEN: nat := NONCE_SIZE + KEY_SIZE + 2 + TAG_SIZE + TAG_SIZE
  const RESPONSE_HEADER_LEN: nat := 2 + 2 + TAG_SIZE + TAG_SIZE
  const CONFIG_LEN: nat := 19

  /** The two ciphers that seal every message, under one key. */
  datatype KeyPair = KeyPair(aes: AeadKey, cha: AeadKey)

  function Pair(lib: Lib, key: seq<byte>): KeyPair {
    KeyPair(AeadKey(lib, Aes256Gcm, key), AeadKey(lib, ChaCha20Poly1305, key))
  }

  function RequestKeys(lib: Lib, master: seq<byte>, bucket: int): KeyPair {
    Pair(lib, lib.derive(Argon2, master, TimeBucket(bucket), []))
  }

  function ResponseKeys(lib: Lib, master: seq<byte>, salt: seq<byte>): KeyPair {
    Pair(lib, lib.derive(Argon2, master, ProtocolResponse, salt))
  }

  /** Both ciphers of a message have the one key, derived by Argon2 from the master key. */
  lemma ExchangeKeys(lib: Lib, master: seq<byte>, bucket: int, salt: seq<byte>)
    ensures var keys, key := RequestKeys(lib, master, bucket), lib.derive(Argon2, master, TimeBucket(bucket), []);
      keys.aes == AeadKey(lib, Aes256Gcm, key) && keys.cha == AeadKey(lib, ChaCha20Poly1305, key)
    ensures var keys, key := ResponseKeys(lib, master, salt), lib.derive(Argon2, master, ProtocolResponse, salt);
      keys.aes == AeadKey(lib, Aes256Gcm, key) && keys.cha == AeadKey(lib, ChaCha20Poly1305, key)
  {
  }

  /** Answers under different salts have different keys, which are no request's. */
  lemma ResponseKeysApart(lib: Lib, master: seq<byte>, salt: seq<byte>, other: seq<byte>, bucket: int)
    requires |salt| == |other| == KEY_SIZE && SeparatesKeys(lib)
    ensures ResponseKeys(lib, master, salt).aes.key == ResponseKeys(lib, master, other).aes.key <==> salt == other
    ensures ResponseKeys(lib, master, salt).aes.key != RequestKeys(lib, master, bucket).aes.key
  {
  }

  // ---------------------------------------------------------------------
  // The request

  function SealedRequest(keys: KeyPair, nonce: seq<byte>, salt: seq<byte>, paddingLen: nat): seq<byte> {
    keys.aes.Seal(nonce, keys.cha.Seal(nonce, salt + PutUint(paddingLen, 2)))
  }

  function Request(keys: KeyPair, nonce: seq<byte>, salt: seq<byte>, padding: seq<byte>): seq<byte> {
    nonce + SealedRequest(keys, nonce, salt, |padding|) + padding
  }

  method BuildRequest(lib: Lib, master: seq<byte>, now: nat, nonce: seq<byte>, salt: seq<byte>, padding: seq<byte>)
    returns (packet: seq<byte>)
    requires |nonce| == NONCE_SIZE && |salt| == KEY_SIZE
    requires MIN_REQUEST_PADDING <= |padding| < MAX_REQUEST_PADDING
    ensures packet == Request(RequestKeys(lib, master, now / GET_PROTOCOL_MAX_CONNECT_DELAY), nonce, salt, padding)
    ensures var headerKey := lib.derive(Argon2, master, TimeBucket(now / 30000), []);
      packet == nonce
                + lib.seal(Aes256Gcm, headerKey, nonce,
                           lib.seal(ChaCha20Poly1305, headerKey, nonce, salt + [|padding| / 0x100, |padding| % 0x100]))
                + padding
  {
    TwoBytes(|padding|);
    ghost var keys := RequestKeys(lib, master, now / GET_PROTOCOL_MAX_CONNECT_DELAY);
    var headerKey := lib.derive(Argon2, master, TimeBucket(now / GET_PROTOCOL_MAX_CONNECT_DELAY), []);
    var cipherAes := new Cipher.NewWithNonce(AeadKey(lib, Aes256Gcm, headerKey), nonce);
    var cipherCha := new Cipher.NewWithNonce(AeadKey(lib, ChaCha20Poly1305, headerKey), nonce);
    packet := nonce;
    packet := packet + salt;
    packet := packet + PutUint(|padding|, 2);
    assert packet[..NONCE_SIZE] == nonce && packet[NONCE_SIZE..] == salt + PutUint(|padding|, 2);
    packet := cipherCha.Encrypt(packet, NONCE_SIZE);
    assert packet[..NONCE_SIZE] == nonce && packet[NONCE_SIZE..] == keys.cha.Seal(nonce, salt + PutUint(|padding|, 2));
    packet := cipherAes.Encrypt(packet, NONCE_SIZE);
    packet := packet + padding;
  }

  datatype Reply = Granted(salt: seq<byte>) | NotEnough | DecryptError | Overread

  /** Opens with the first cipher in this time bucket or the one before, then with the second. */
  function UnlockRequest(lib: Lib, master: seq<byte>, bucket: int, nonce: seq<byte>,
                         sealed: seq<byte>): (r: Option<seq<byte>>)
    ensures r.Some? ==> |r.value| + 2 * TAG_SIZE == |sealed|
  {
    match RequestKeys(lib, master, bucket).aes.Open(nonce, sealed)
    case Some(inner) => RequestKeys(lib, master, bucket).cha.Open(nonce, inner)
    case None =>
      match RequestKeys(lib, master, bucket - 1).aes.Open(nonce, sealed)
      case Some(inner) => RequestKeys(lib, master, bucket - 1).cha.Open(nonce, inner)
      case None => None
  }

  /** How long the request is that the opened header announces. */
  function RequestLen(header: seq<byte>): nat
    requires |header| == KEY_SIZE + 2
  {
    REQUEST_HEADER_LEN + GetUint(header[KEY_SIZE..])
  }

  /** The same for the bytes read, 0 if they do not open. */
  function AnnouncedLen(lib: Lib, master: seq<byte>, now: nat, data: seq<byte>): nat {
    if |data| < REQUEST_HEADER_LEN then 0
    else
      match UnlockRequest(lib, master, now / GET_PROTOCOL_MAX_CONNECT_DELAY,
                          data[..NONCE_SIZE], data[NONCE_SIZE..REQUEST_HEADER_LEN])
      case None => 0
      case Some(header) => RequestLen(header)
  }

  /** The special-request parser on the bytes `data` read so far, with `more` there to be read. */
  function ParseRequest(lib: Lib, master: seq<byte>, now: nat, data: seq<byte>, more: seq<byte>): Reply {
    if |data| < REQUEST_HEADER_LEN then NotEnough
    else
      match UnlockRequest(lib, master, now / GET_PROTOCOL_MAX_CONNECT_DELAY,
                          data[..NONCE_SIZE], data[NONCE_SIZE..REQUEST_HEADER_LEN])
      case None => DecryptError
      case Some(header) =>
        var total := RequestLen(header);
        if total < |data| then Overread
        else if |data| + |more| < total then NotEnough
        else Granted(header[..KEY_SIZE])
  }

  /** Opens the request's header under both ciphers, with the key of this time bucket or the one before. */
  method OpenRequest(lib: Lib, master: seq<byte>, bucket: nat, nonce: seq<byte>, sealed: seq<byte>)
    returns (ok: bool, header: seq<byte>)
    requires |nonce| == NONCE_SIZE && |sealed| == KEY_SIZE + 2 + 2 * TAG_SIZE
    ensures var plain := UnlockRequest(lib, master, bucket, nonce, sealed);
      ok == plain.Some? && (ok ==> header == plain.value)
  {
    var headerKey := lib.derive(Argon2, master, TimeBucket(bucket), []);
    var headerCipher := new Cipher.NewWithNonce(AeadKey(lib, Aes256Gcm, headerKey), nonce);
    ok, header := headerCipher.Decrypt(sealed);
    if !ok {
      headerKey := lib.derive(Argon2, master, TimeBucket(bucket - 1), []);
      headerCipher := new Cipher.NewWithNonce(AeadKey(lib, Aes256Gcm, headerKey), nonce);
      ok, header := headerCipher.Decrypt(sealed);
      if !ok {
        return;
      }
    }
    header := header[..|header| - TAG_SIZE];
    headerCipher := new Cipher.NewWithNonce(AeadKey(lib, ChaCha20Poly1305, headerKey), nonce);
    ok, header := headerCipher.Decrypt(header);
    header := header[..KEY_SIZE + 2];
  }

  method AcceptRequest(lib: Lib, master: seq<byte>, now: nat, data: seq<byte>, stream: Transport) returns (r: Reply)
    modifies stream`inbox
    ensures r == ParseRequest(lib, master, now, data, old(stream.inbox))
    ensures r.Granted? ==>
      var total := AnnouncedLen(lib, master, now, data);
      total <= |data + old(stream.inbox)| && stream.inbox == (data + old(stream.inbox))[total..]
    ensures r.Overread? || r.DecryptError? || |data| < REQUEST_HEADER_LEN ==> stream.inbox == old(stream.inbox)
  {
    if |data| < REQUEST_HEADER_LEN {
      return NotEnough;
    }
    hide UnlockRequest;
    ghost var more := stream.inbox;
    var nonce, sealed := data[..NONCE_SIZE], data[NONCE_SIZE..REQUEST_HEADER_LEN];
    var ok, header := OpenRequest(lib, master, now / GET_PROTOCOL_MAX_CONNECT_DELAY, nonce, sealed);
    if !ok {
      return DecryptError;
    }
    var salt := header[..KEY_SIZE];
    var total := RequestLen(header);
    if total < |data| {
      return Overread;
    }
    var rest := stream.Read(total - |data|);
    if |data| + |rest| != total {
      return NotEnough;
    }
    Consumed(data, rest, stream.inbox, more);
    r := Granted(salt);
  }

  lemma Consumed(data: seq<byte>, rest: seq<byte>, left: seq<byte>, more: seq<byte>)
    requires more == rest + left
    ensures (data + more)[|data| + |rest|..] == left
  {
  }

  // ---------------------------------------------------------------------
  // The response

  function KdfCode(kdf: Kdf): byte { match kdf case Argon2 => 0 case Blake3 => 1 }

  function CipherCode(c: CipherType): byte { match c case Aes256Gcm => 0 case ChaCha20Poly1305 => 1 }

  function PutConfig(cfg: ProtocolConfig): (s: seq<byte>)
    requires cfg.Valid()
    ensures |s| == CONFIG_LEN
  {
    [KdfCode(cfg.kdf)] + [CipherCode(cfg.cipher)]
    + PutUint(cfg.maxConnectDelay, 2)
    + PutUint(cfg.headerPaddingStart, 2) + PutUint(cfg.headerPaddingEnd, 2)
    + PutUint(cfg.dataPadding.max, 2) + [cfg.dataPadding.rate]
    + PutUint(cfg.encryptionLimit, 8)
  }

  function GetConfig(master: seq<byte>, s: seq<byte>): Option<ProtocolConfig>
    requires |s| >= CONFIG_LEN
  {
    if s[0] > 1 || s[1] > 1 then None
    else Some(ProtocolConfig(
      master,
      if s[0] == 0 then Argon2 else Blake3,
      if s[1] == 0 then Aes256Gcm else ChaCha20Poly1305,
      GetUint(s[2..4]), GetUint(s[4..6]), GetUint(s[6..8]),
      DataPadding(GetUint(s[8..10]), s[10]),
      GetUint(s[11..19])))
  }

  function SealTwice(keys: KeyPair, nonceAes: seq<byte>, nonceCha: seq<byte>, plain: seq<byte>): (s: seq<byte>)
    ensures |s| == |plain| + 2 * TAG_SIZE
  {
    keys.cha.Seal(nonceCha, keys.aes.Seal(nonceAes, plain))
  }

  function OpenTwice(keys: KeyPair, nonceAes: seq<byte>, nonceCha: seq<byte>, sealed: seq<byte>): (r: Option<seq<byte>>)
    ensures r.Some? ==> |r.value| + 2 * TAG_SIZE == |sealed|
  {
    match keys.cha.Open(nonceCha, sealed)
    case None => None
    case Some(inner) => keys.aes.Open(nonceAes, inner)
  }

  lemma OpenTwiceSealTwice(keys: KeyPair, nonceAes: seq<byte>, nonceCha: seq<byte>, plain: seq<byte>)
    ensures OpenTwice(keys, nonceAes, nonceCha, SealTwice(keys, nonceAes, nonceCha, plain)) == Some(plain)
  {
    keys.cha.OpenSeal(nonceCha, keys.aes.Seal(nonceAes, plain));
    keys.aes.OpenSeal(nonceAes, plain);
  }

  function Response(lib: Lib, cfg: ProtocolConfig, salt: seq<byte>, begin: seq<byte>, end: seq<byte>): seq<byte>
    requires cfg.Valid() && |salt| == KEY_SIZE
  {
    var keys, nonceAes, nonceCha := ResponseKeys(lib, cfg.key, salt), salt[..NONCE_SIZE], salt[KEY_SIZE - NONCE_SIZE..];
    SealTwice(keys, nonceAes, nonceCha, PutUint(|begin|, 2) + PutUint(|end|, 2))
    + SealTwice(keys, AddNonce(nonceAes, 1), AddNonce(nonceCha, 1), begin + PutConfig(cfg) + end)
  }

  method BuildResponse(lib: Lib, cfg: ProtocolConfig, salt: seq<byte>, begin: seq<byte>, end: seq<byte>)
    returns (response: seq<byte>)
    requires cfg.Valid() && |salt| == KEY_SIZE
    requires |begin| <= U16_MAX && |end| <= U16_MAX
    ensures response == Response(lib, cfg, salt, begin, end)
  {
    ghost var keys := ResponseKeys(lib, cfg.key, salt);
    var responseKey := lib.derive(Argon2, cfg.key, ProtocolResponse, salt);
    var cipherAes := new Cipher.NewWithNonce(AeadKey(lib, Aes256Gcm, responseKey), salt[..NONCE_SIZE]);
    var cipherCha := new Cipher.NewWithNonce(AeadKey(lib, ChaCha20Poly1305, responseKey),
                                             salt[KEY_SIZE - NONCE_SIZE..]);

    // the lengths of both paddings
    response := PutUint(|begin|, 2) + PutUint(|end|, 2);
    response := EncryptTwice(cipherAes, cipherCha, response, 0);
    cipherAes.IncNonce(1);
    cipherCha.IncNonce(1);

    // payload between its paddings
    ghost var header := response;
    var payloadStart := |response|;
    response := response + begin;
    response := response + PutConfig(cfg);
    response := response + end;
    assert response[..payloadStart] == header && response[payloadStart..] == begin + PutConfig(cfg) + end;
    response := EncryptTwice(cipherAes, cipherCha, response, payloadStart);
  }

  /** The response but for what the two ciphers make of its parts. */
  lemma ResponseOnTheWire(lib: Lib, cfg: ProtocolConfig, salt: seq<byte>, begin: seq<byte>, end: seq<byte>)
    requires cfg.Valid() && |salt| == KEY_SIZE
    requires |begin| <= U16_MAX && |end| <= U16_MAX
    ensures var key, nonceAes, nonceCha := lib.derive(Argon2, cfg.key, ProtocolResponse, salt), salt[..12], salt[20..];
      var lengths := [|begin| / 0x100, |begin| % 0x100, |end| / 0x100, |end| % 0x100];
      Response(lib, cfg, salt, begin, end)
      == lib.seal(ChaCha20Poly1305, key, nonceCha, lib.seal(Aes256Gcm, key, nonceAes, lengths))
         + lib.seal(ChaCha20Poly1305, key, AddNonce(nonceCha, 1),
                    lib.seal(Aes256Gcm, key, AddNonce(nonceAes, 1), begin + PutConfig(cfg) + end))
  {
    TwoBytes(|begin|);
    TwoBytes(|end|);
    hide PutUint, AddNonce, PutConfig;
    assert PutUint(|begin|, 2) + PutUint(|end|, 2)
        == [|begin| / 0x100, |begin| % 0x100, |end| / 0x100, |end| % 0x100];
  }

  method EncryptTwice(cipherAes: Cipher, cipherCha: Cipher, buffer: seq<byte>, start: nat) returns (r: seq<byte>)
    requires start <= |buffer|
    ensures r == buffer[..start]
      + SealTwice(KeyPair(cipherAes.aead, cipherCha.aead), cipherAes.nonce[..], cipherCha.nonce[..], buffer[start..])
  {
    r := cipherAes.Encrypt(buffer, start);
    assert r[..start] == buffer[..start] && r[start..] == cipherAes.aead.Seal(cipherAes.nonce[..], buffer[start..]);
    r := cipherCha.Encrypt(r, start);
  }

  /** The client's reading of a response of which `header` came with the first read and `rest` after it. */
  function ParseResponse(lib: Lib, master: seq<byte>, salt: seq<byte>, header: seq<byte>,
                         rest: seq<byte>): Option<ProtocolConfig>
    requires |salt| == KEY_SIZE
  {
    var keys, nonceAes, nonceCha := ResponseKeys(lib, master, salt), salt[..NONCE_SIZE], salt[KEY_SIZE - NONCE_SIZE..];
    if |header| != RESPONSE_HEADER_LEN then None
    else
      match OpenTwice(keys, nonceAes, nonceCha, header)
      case None => None
      case Some(h) =>
        var begin, end := GetUint(h[..2]), GetUint(h[2..4]);
        var len := begin + CONFIG_LEN + end + 2 * TAG_SIZE;
        if |rest| < len then None
        else
          match OpenTwice(keys, AddNonce(nonceAes, 1), AddNonce(nonceCha, 1), rest[..len])
          case None => None
          case Some(data) => GetConfig(master, data[begin..])
  }

  method DecryptTwice(cipherAes: Cipher, cipherCha: Cipher, sealed: seq<byte>) returns (ok: bool, r: seq<byte>)
    ensures var p := OpenTwice(KeyPair(cipherAes.aead, cipherCha.aead), cipherAes.nonce[..], cipherCha.nonce[..],
                               sealed);
      && ok == p.Some?
      && (ok ==> |r| + TAG_SIZE == |sealed| && r[..|r| - TAG_SIZE] == p.value)
  {
    ok, r := cipherCha.Decrypt(sealed);
    if ok {
      r := r[..|r| - TAG_SIZE];
      ok, r := cipherAes.Decrypt(r);
    }
  }

  /** How long the sealed payload is that a response's header announces, 0 if the header does not open. */
  function PayloadLen(lib: Lib, master: seq<byte>, salt: seq<byte>, header: seq<byte>): nat
    requires |salt| == KEY_SIZE
  {
    if |header| != RESPONSE_HEADER_LEN then 0
    else
      match OpenTwice(ResponseKeys(lib, master, salt), salt[..NONCE_SIZE], salt[KEY_SIZE - NONCE_SIZE..], header)
      case None => 0
      case Some(h) => GetUint(h[..2]) + CONFIG_LEN + GetUint(h[2..4]) + 2 * TAG_SIZE
  }

  /**
    The header has to come in one read; for the rest the client waits, and `late` is what
    comes in the meantime until there is enough or the connection ends.
   */
  method ReadResponse(lib: Lib, master: seq<byte>, salt: seq<byte>, stream: Transport, late: seq<byte>)
    returns (r: Option<ProtocolConfig>)
    requires |salt| == KEY_SIZE
    modifies stream`inbox
    ensures var first := old(stream.inbox)[..Min(RESPONSE_HEADER_LEN, |old(stream.inbox)|)];
      var rest := old(stream.inbox)[|first|..] + late;
      && r == ParseResponse(lib, master, salt, first, rest)
      && (r.Some? ==>
            var len := PayloadLen(lib, master, salt, first);
            len <= |rest| && stream.inbox == rest[len..])
  {
    hide GetConfig, OpenTwice;
    var sealedHeader := stream.Read(RESPONSE_HEADER_LEN);
    stream.inbox := stream.inbox + late;
    if |sealedHeader| != RESPONSE_HEADER_LEN {
      return None;
    }
    ghost var rest := stream.inbox;
    var responseKey := lib.derive(Argon2, master, ProtocolResponse, salt);
    var cipherAes := new Cipher.NewWithNonce(AeadKey(lib, Aes256Gcm, responseKey), salt[..NONCE_SIZE]);
    var cipherCha := new Cipher.NewWithNonce(AeadKey(lib, ChaCha20Poly1305, responseKey),
                                             salt[KEY_SIZE - NONCE_SIZE..]);
    var ok, header := DecryptTwice(cipherAes, cipherCha, sealedHeader);
    if !ok {
      return None;
    }
    ghost var h := header[..4];
    assert header[..2] == h[..2] && header[2..4] == h[2..4];
    cipherAes.IncNonce(1);
    cipherCha.IncNonce(1);

    var paddingStart, paddingEnd := GetUint(header[..2]), GetUint(header[2..4]);
    var dataLen := paddingStart + CONFIG_LEN + paddingEnd + 2 * TAG_SIZE;
    var sealedData := stream.Read(dataLen);
    if |sealedData| != dataLen {
      return None;
    }
    FrontRead(sealedData, stream.inbox, rest);
    r := ReadPayload(master, cipherAes, cipherCha, sealedData, paddingStart);
  }

  lemma FrontRead(front: seq<byte>, left: seq<byte>, whole: seq<byte>)
    requires whole == front + left
    ensures whole[..|front|] == front && whole[|front|..] == left
  {
  }

  method ReadPayload(master: seq<byte>, cipherAes: Cipher, cipherCha: Cipher, sealedData: seq<byte>, paddingStart: nat)
    returns (r: Option<ProtocolConfig>)
    requires paddingStart + CONFIG_LEN + 2 * TAG_SIZE <= |sealedData|
    ensures r == match OpenTwice(KeyPair(cipherAes.aead, cipherCha.aead), cipherAes.nonce[..], cipherCha.nonce[..],
                                 sealedData)
      case None => None
      case Some(data) => GetConfig(master, data[paddingStart..])
  {
    hide GetConfig, OpenTwice;
    var ok, data := DecryptTwice(cipherAes, cipherCha, sealedData);
    if !ok {
      return None;
    }
    IgnoresTag(master, data, paddingStart);
    r := GetConfig(master, data[paddingStart..]);
  }

  /** The first cipher's tag, still at the end of the data, is not looked at. */
  lemma IgnoresTag(master: seq<byte>, data: seq<byte>, start: nat)
    requires start + CONFIG_LEN + TAG_SIZE <= |data|
    ensures GetConfig(master, data[start..]) == GetConfig(master, data[..|data| - TAG_SIZE][start..])
  {
    var a, b := data[start..], data[..|data| - TAG_SIZE][start..];
    assert a[..CONFIG_LEN] == b[..CONFIG_LEN];
    SameConfig(master, a, b);
  }

  lemma SameConfig(master: seq<byte>, a: seq<byte>, b: seq<byte>)
    requires |a| >= CONFIG_LEN && |b| >= CONFIG_LEN && a[..CONFIG_LEN] == b[..CONFIG_LEN]
    ensures GetConfig(master, a) == GetConfig(master, b)
  {
    hide GetUint;
    SameField(a, b, 2, 4);
    SameField(a, b, 4, 6);
    SameField(a, b, 6, 8);
    SameField(a, b, 8, 10);
    SameField(a, b, 11, 19);
    assert a[0] == a[..CONFIG_LEN][0] && a[1] == a[..CONFIG_LEN][1] && a[10] == a[..CONFIG_LEN][10];
  }

  lemma SameField(a: seq<byte>, b: seq<byte>, i: nat, j: nat)
    requires |a| >= CONFIG_LEN && |b| >= CONFIG_LEN && a[..CONFIG_LEN] == b[..CONFIG_LEN]
    requires i <= j <= CONFIG_LEN
    ensures a[i..j] == b[i..j]
  {
    forall k | 0 <= k < j - i ensures a[i..j][k] == b[i..j][k] {
      assert a[i + k] == a[..CONFIG_LEN][i + k] && b[i + k] == b[..CONFIG_LEN][i + k];
    }
  }

  // ---------------------------------------------------------------------
  // Both sides together

  lemma ConfigRoundTrip(cfg: ProtocolConfig, after: seq<byte>)
    requires cfg.Valid()
    ensures GetConfig(cfg.key, PutConfig(cfg) + after) == Some(cfg)
  {
    ExactRoundTrip(cfg);
    hide PutConfig, GetConfig;
    var s := PutConfig(cfg);
    assert (s + after)[..CONFIG_LEN] == s == s[..CONFIG_LEN];
    SameConfig(cfg.key, s + after, s);
  }

  /** The configuration byte by byte, but for its last field of 8 bytes. */
  lemma ConfigBytes(cfg: ProtocolConfig)
    requires cfg.Valid()
    ensures var d, a, b, m := cfg.maxConnectDelay, cfg.headerPaddingStart, cfg.headerPaddingEnd, cfg.dataPadding.max;
      PutConfig(cfg) == [if cfg.kdf.Argon2? then 0 else 1, if cfg.cipher.Aes256Gcm? then 0 else 1,
                         d / 0x100, d % 0x100, a / 0x100, a % 0x100, b / 0x100, b % 0x100,
                         m / 0x100, m % 0x100, cfg.dataPadding.rate] + PutUint(cfg.encryptionLimit, 8)
  {
    TwoBytes(cfg.maxConnectDelay);
    TwoBytes(cfg.headerPaddingStart);
    TwoBytes(cfg.headerPaddingEnd);
    TwoBytes(cfg.dataPadding.max);
    hide PutUint;
  }

  /** Only what is the form of a configuration is read as one, and nothing else is refused. */
  lemma ConfigUnique(master: seq<byte>, s: seq<byte>, cfg: ProtocolConfig)
    requires |s| >= CONFIG_LEN
    ensures GetConfig(master, s) == Some(cfg) <==> cfg.Valid() && cfg.key == master && s[..CONFIG_LEN] == PutConfig(cfg)
  {
    if cfg.Valid() && cfg.key == master && s[..CONFIG_LEN] == PutConfig(cfg) {
      ConfigRoundTrip(cfg, s[CONFIG_LEN..]);
      assert PutConfig(cfg) + s[CONFIG_LEN..] == s;
    }
    if GetConfig(master, s) == Some(cfg) {
      Rewritten(s);
    }
  }

  /** Each field, written again, is the bytes it was read from. */
  lemma Rewritten(s: seq<byte>)
    requires |s| >= CONFIG_LEN && s[0] <= 1 && s[1] <= 1
    ensures var cfg := GetConfig([], s).value;
      cfg.Valid() && s[..CONFIG_LEN] == PutConfig(cfg)
  {
    U16Field(s[2..4]);
    U16Field(s[4..6]);
    U16Field(s[6..8]);
    U16Field(s[8..10]);
    U64Field(s[11..19]);
    hide PutUint, GetUint, Power;
    Pieces(s);
    assert KdfCode(GetConfig([], s).value.kdf) == s[0] && CipherCode(GetConfig([], s).value.cipher) == s[1];
    hide KdfCode, CipherCode;
  }

  lemma U16Field(s: seq<byte>)
    requires |s| == 2
    ensures GetUint(s) <= U16_MAX && PutUint(GetUint(s), 2) == s
  {
    U16Fits(s);
    UintRoundTripBytes(s);
  }

  lemma U64Field(s: seq<byte>)
    requires |s| == 8
    ensures GetUint(s) < 0x1_0000_0000_0000_0000 && PutUint(GetUint(s), 8) == s
  {
    PowersOf256();
    UintRoundTripBytes(s);
  }

  lemma Pieces(s: seq<byte>)
    requires |s| >= CONFIG_LEN
    ensures s[..CONFIG_LEN]
         == [s[0]] + [s[1]] + s[2..4] + s[4..6] + s[6..8] + s[8..10] + [s[10]] + s[11..19]
  {
  }

  lemma ExactRoundTrip(cfg: ProtocolConfig)
    requires cfg.Valid()
    ensures GetConfig(cfg.key, PutConfig(cfg)) == Some(cfg)
  {
    hide PutUint, GetUint;
    U16RoundTrip(cfg.maxConnectDelay);
    U16RoundTrip(cfg.headerPaddingStart);
    U16RoundTrip(cfg.headerPaddingEnd);
    U16RoundTrip(cfg.dataPadding.max);
    U64RoundTrip(cfg.encryptionLimit);
    Fields(KdfCode(cfg.kdf), CipherCode(cfg.cipher), PutUint(cfg.maxConnectDelay, 2),
           PutUint(cfg.headerPaddingStart, 2),
           PutUint(cfg.headerPaddingEnd, 2), PutUint(cfg.dataPadding.max, 2), cfg.dataPadding.rate,
           PutUint(cfg.encryptionLimit, 8));
  }

  lemma Fields(k: byte, c: byte, f0: seq<byte>, f1: seq<byte>, f2: seq<byte>, f3: seq<byte>, r: byte, f4: seq<byte>)
    requires |f0| == |f1| == |f2| == |f3| == 2 && |f4| == 8
    ensures var s := [k] + [c] + f0 + f1 + f2 + f3 + [r] + f4;
      && s[0] == k && s[1] == c && s[2..4] == f0 && s[4..6] == f1 && s[6..8] == f2 && s[8..10] == f3
      && s[10] == r && s[11..19] == f4
  {
  }

  /** The client reads back the very configuration the server sent, whatever paddings were drawn. */
  lemma ResponseRoundTrip(lib: Lib, cfg: ProtocolConfig, salt: seq<byte>, begin: seq<byte>, end: seq<byte>)
    requires cfg.Valid() && |salt| == KEY_SIZE
    requires |begin| <= U16_MAX && |end| <= U16_MAX
    ensures var response := Response(lib, cfg, salt, begin, end);
      && |response| >= RESPONSE_HEADER_LEN
      && ParseResponse(lib, cfg.key, salt, response[..RESPONSE_HEADER_LEN],
                       response[RESPONSE_HEADER_LEN..]) == Some(cfg)
      && PayloadLen(lib, cfg.key, salt, response[..RESPONSE_HEADER_LEN]) == |response| - RESPONSE_HEADER_LEN
  {
    var keys, nonceAes, nonceCha := ResponseKeys(lib, cfg.key, salt), salt[..NONCE_SIZE], salt[KEY_SIZE - NONCE_SIZE..];
    var h, data := PutUint(|begin|, 2) + PutUint(|end|, 2), begin + PutConfig(cfg) + end;
    var header := SealTwice(keys, nonceAes, nonceCha, h);
    var rest := SealTwice(keys, AddNonce(nonceAes, 1), AddNonce(nonceCha, 1), data);
    OpenTwiceSealTwice(keys, nonceAes, nonceCha, h);
    OpenTwiceSealTwice(keys, AddNonce(nonceAes, 1), AddNonce(nonceCha, 1), data);
    U16RoundTrip(|begin|);
    U16RoundTrip(|end|);
    assert h[..2] == PutUint(|begin|, 2) && h[2..4] == PutUint(|end|, 2);
    assert data[|begin|..] == PutConfig(cfg) + end;
    ConfigRoundTrip(cfg, end);
    hide SealTwice, OpenTwice, GetConfig, PutConfig;
    assert (header + rest)[..|header|] == header && (header + rest)[|header|..] == rest && rest[..|rest|] == rest;
  }

  /** A request sealed in bucket `sent` says nothing under the keys of bucket `b`. */
  predicate SeparateRequest(lib: Lib, master: seq<byte>, sent: int, b: int, nonce: seq<byte>, sealed: seq<byte>) {
    b != sent ==> RequestKeys(lib, master, b).aes.Open(nonce, sealed).None?
  }

  /** There is a library in which this holds for all times that fit 64 bits. */
  lemma SomeLibrarySeparatesRequests(master: seq<byte>, sent: int, b: int, nonce: seq<byte>, salt: seq<byte>,
                                     paddingLen: nat)
    requires -1 <= sent < 0x1_0000_0000_0000_0000 && -1 <= b < 0x1_0000_0000_0000_0000
    ensures SeparateRequest(Keyed(), master, sent, b, nonce,
                            SealedRequest(RequestKeys(Keyed(), master, sent), nonce, salt, paddingLen))
  {
    if b != sent {
      var inner := RequestKeys(Keyed(), master, sent).cha.Seal(nonce, salt + PutUint(paddingLen, 2));
      KeyedSeparates(Aes256Gcm, Argon2, master, sent, b, nonce, inner);
    }
  }

  /** Of the two keys the server tries, one opens the request if it was sealed under that one, and else none. */
  lemma UnlockSealedRequest(lib: Lib, master: seq<byte>, sent: int, bucket: int, nonce: seq<byte>, salt: seq<byte>,
                            paddingLen: nat)
    requires var sealed := SealedRequest(RequestKeys(lib, master, sent), nonce, salt, paddingLen);
      && SeparateRequest(lib, master, sent, bucket, nonce, sealed)
      && (bucket - 1 <= sent <= bucket || SeparateRequest(lib, master, sent, bucket - 1, nonce, sealed))
    ensures UnlockRequest(lib, master, bucket, nonce, SealedRequest(RequestKeys(lib, master, sent), nonce, salt,
                                                                    paddingLen))
         == if bucket - 1 <= sent <= bucket then Some(salt + PutUint(paddingLen, 2)) else None
  {
    var keys := RequestKeys(lib, master, sent);
    keys.aes.OpenSeal(nonce, keys.cha.Seal(nonce, salt + PutUint(paddingLen, 2)));
    keys.cha.OpenSeal(nonce, salt + PutUint(paddingLen, 2));
  }

  /**
    The server grants a request in time if and only if the first read has brought at
    least its header and has not run into bytes behind it; and it takes exactly the
    request.
   */
  lemma RequestRoundTrip(lib: Lib, master: seq<byte>, sent: int, now: nat, nonce: seq<byte>, salt: seq<byte>,
                         padding: seq<byte>, data: seq<byte>, more: seq<byte>, following: seq<byte>)
    requires |nonce| == NONCE_SIZE && |salt| == KEY_SIZE && |padding| <= U16_MAX
    requires var bucket := now / GET_PROTOCOL_MAX_CONNECT_DELAY; bucket - 1 <= sent <= bucket
    requires SeparateRequest(lib, master, sent, now / GET_PROTOCOL_MAX_CONNECT_DELAY, nonce,
                             SealedRequest(RequestKeys(lib, master, sent), nonce, salt, |padding|))
    requires data + more == Request(RequestKeys(lib, master, sent), nonce, salt, padding) + following
    ensures ParseRequest(lib, master, now, data, more) == Granted(salt)
       <==> REQUEST_HEADER_LEN <= |data| <= |Request(RequestKeys(lib, master, sent), nonce, salt, padding)|
    ensures |data| >= REQUEST_HEADER_LEN ==>
      AnnouncedLen(lib, master, now, data) == |Request(RequestKeys(lib, master, sent), nonce, salt, padding)|
  {
    if |data| < REQUEST_HEADER_LEN {
      return;
    }
    RequestSplits(RequestKeys(lib, master, sent), nonce, salt, padding, data, more, following);
    UnlockSealedRequest(lib, master, sent, now / GET_PROTOCOL_MAX_CONNECT_DELAY, nonce, salt, |padding|);
    U16RoundTrip(|padding|);
    var plain := salt + PutUint(|padding|, 2);
    assert plain[..KEY_SIZE] == salt && plain[KEY_SIZE..] == PutUint(|padding|, 2);
    assert |data| + |more| == REQUEST_HEADER_LEN + |padding| + |following|;
  }

  /** What the first read has of a request, if it has at least its header. */
  lemma RequestSplits(keys: KeyPair, nonce: seq<byte>, salt: seq<byte>, padding: seq<byte>,
                      data: seq<byte>, more: seq<byte>, following: seq<byte>)
    requires |nonce| == NONCE_SIZE && |salt| == KEY_SIZE && |data| >= REQUEST_HEADER_LEN
    requires data + more == Request(keys, nonce, salt, padding) + following
    ensures data[..NONCE_SIZE] == nonce
    ensures data[NONCE_SIZE..REQUEST_HEADER_LEN] == SealedRequest(keys, nonce, salt, |padding|)
    ensures |data| + |more| == REQUEST_HEADER_LEN + |padding| + |following|
  {
    var sealed := SealedRequest(keys, nonce, salt, |padding|);
    assert (nonce + sealed + padding) + following == nonce + (sealed + (padding + following));
    Slices(nonce, sealed, padding + following, data, more);
  }

  /** What else the server makes of a request in time. */
  lemma RequestOutcomes(lib: Lib, master: seq<byte>, sent: int, now: nat, nonce: seq<byte>, salt: seq<byte>,
                        padding: seq<byte>, data: seq<byte>, more: seq<byte>, following: seq<byte>,
                        missing: seq<byte>)
    requires |nonce| == NONCE_SIZE && |salt| == KEY_SIZE && |padding| <= U16_MAX
    requires var bucket := now / GET_PROTOCOL_MAX_CONNECT_DELAY; bucket - 1 <= sent <= bucket
    requires SeparateRequest(lib, master, sent, now / GET_PROTOCOL_MAX_CONNECT_DELAY, nonce,
                             SealedRequest(RequestKeys(lib, master, sent), nonce, salt, |padding|))
    requires data + more + missing == Request(RequestKeys(lib, master, sent), nonce, salt, padding) + following
    requires missing == [] || following == []
    ensures ParseRequest(lib, master, now, data, more)
         == if |data| < 78 then NotEnough
            else if |data| > 78 + |padding| then Overread
            else if missing != [] then NotEnough
            else Granted(salt)
  {
    if |data| >= REQUEST_HEADER_LEN {
      Regroup([], data, more, missing);
      RequestSplits(RequestKeys(lib, master, sent), nonce, salt, padding, data, more + missing, following);
      UnlockSealedRequest(lib, master, sent, now / GET_PROTOCOL_MAX_CONNECT_DELAY, nonce, salt, |padding|);
      U16RoundTrip(|padding|);
      var plain := salt + PutUint(|padding|, 2);
      assert plain[..KEY_SIZE] == salt && plain[KEY_SIZE..] == PutUint(|padding|, 2);
    }
  }

  /**
    With its header in the first read and nothing behind it, a request is granted if and
    only if it was sealed in this time bucket or the one before; any other fails to open.
   */
  lemma RequestWindowDecides(lib: Lib, master: seq<byte>, sent: int, now: nat, nonce: seq<byte>, salt: seq<byte>,
                             padding: seq<byte>, data: seq<byte>, more: seq<byte>, following: seq<byte>)
    requires |nonce| == NONCE_SIZE && |salt| == KEY_SIZE && |padding| <= U16_MAX
    requires var bucket, sealed := now / 30000, SealedRequest(RequestKeys(lib, master, sent), nonce, salt, |padding|);
      && SeparateRequest(lib, master, sent, bucket, nonce, sealed)
      && SeparateRequest(lib, master, sent, bucket - 1, nonce, sealed)
    requires data + more == Request(RequestKeys(lib, master, sent), nonce, salt, padding) + following
    requires 78 <= |data| <= |Request(RequestKeys(lib, master, sent), nonce, salt, padding)|
    ensures ParseRequest(lib, master, now, data, more)
         == if now / 30000 - 1 <= sent <= now / 30000 then Granted(salt) else DecryptError
  {
    RequestSplits(RequestKeys(lib, master, sent), nonce, salt, padding, data, more, following);
    UnlockSealedRequest(lib, master, sent, now / 30000, nonce, salt, |padding|);
    if now / 30000 - 1 <= sent <= now / 30000 {
      RequestRoundTrip(lib, master, sent, now, nonce, salt, padding, data, more, following);
    }
  }

  /** In milliseconds: up to half a minute of age a request is granted, from a minute on it fails to open. */
  lemma RequestWindow(lib: Lib, master: seq<byte>, sentAt: nat, now: nat, nonce: seq<byte>, salt: seq<byte>,
                      padding: seq<byte>, data: seq<byte>, more: seq<byte>, following: seq<byte>)
    requires sentAt <= now
    requires |nonce| == NONCE_SIZE && |salt| == KEY_SIZE && |padding| <= U16_MAX
    requires var sealed := SealedRequest(RequestKeys(lib, master, sentAt / 30000), nonce, salt, |padding|);
      && SeparateRequest(lib, master, sentAt / 30000, now / 30000, nonce, sealed)
      && SeparateRequest(lib, master, sentAt / 30000, now / 30000 - 1, nonce, sealed)
    requires data + more == Request(RequestKeys(lib, master, sentAt / 30000), nonce, salt, padding) + following
    requires 78 <= |data| <= |Request(RequestKeys(lib, master, sentAt / 30000), nonce, salt, padding)|
    ensures now - sentAt <= 30000 ==> ParseRequest(lib, master, now, data, more) == Granted(salt)
    ensures now - sentAt >= 60000 ==> ParseRequest(lib, master, now, data, more) == DecryptError
  {
    RequestWindowDecides(lib, master, sentAt / 30000, now, nonce, salt, padding, data, more, following);
  }

  /**
    The whole exchange: a request that is not taken for a tunnel header reaches
    the special parser with exactly the bytes read, is granted, and the answer
    gives the client the server's configuration.
   */
  lemma Exchange(lib: Lib, cfg: ProtocolConfig, sent: int, now: nat, nonce: seq<byte>, salt: seq<byte>,
                 padding: seq<byte>,
                 first: seq<byte>, more: seq<byte>, begin: seq<byte>, end: seq<byte>)
    requires cfg.Valid() && cfg.maxConnectDelay > 0
    requires |nonce| == NONCE_SIZE && |salt| == KEY_SIZE && |padding| <= U16_MAX
    requires |begin| <= U16_MAX && |end| <= U16_MAX
    requires var bucket := now / GET_PROTOCOL_MAX_CONNECT_DELAY; bucket - 1 <= sent <= bucket
    requires SeparateRequest(lib, cfg.key, sent, now / GET_PROTOCOL_MAX_CONNECT_DELAY, nonce,
                             SealedRequest(RequestKeys(lib, cfg.key, sent), nonce, salt, |padding|))
    requires first + more == Request(RequestKeys(lib, cfg.key, sent), nonce, salt, padding)
    requires REQUEST_HEADER_LEN <= |first| <= MinHeaderLen(cfg)
    requires |first| == MinHeaderLen(cfg) ==>
      Unlock(lib, cfg, Bucket(cfg, now), nonce, first[NONCE_SIZE..MAIN_HEADER_LEN]).None?
    ensures Parse(lib, cfg, now, first, more) == Special(first)
    ensures ParseRequest(lib, cfg.key, now, first, more) == Granted(salt)
    ensures var response := Response(lib, cfg, salt, begin, end);
      && |response| >= RESPONSE_HEADER_LEN
      && ParseResponse(lib, cfg.key, salt, response[..RESPONSE_HEADER_LEN],
                       response[RESPONSE_HEADER_LEN..]) == Some(cfg)
  {
    var request := Request(RequestKeys(lib, cfg.key, sent), nonce, salt, padding);
    assert request + [] == request && |first| <= |request|;
    assert first[..NONCE_SIZE] == request[..NONCE_SIZE] == nonce;
    RequestRoundTrip(lib, cfg.key, sent, now, nonce, salt, padding, first, more, []);
    ResponseRoundTrip(lib, cfg, salt, begin, end);
  }
}
