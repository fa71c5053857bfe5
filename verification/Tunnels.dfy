/** A whole tunnel: handshake, then the encrypted streams it sets up at both ends. */
module Tunnels {
  import opened Bytes
  import opened Library
  import opened Ciphers
  import opened Endings
  import opened Frames
  import opened Transports
  import opened Readers
  import opened Streams
  import opened Sessions
  import opened Handshake

  function StreamKey(lib: Lib, cfg: ProtocolConfig, purpose: Purpose, salt: seq<byte>): AeadKey {
    AeadKey(lib, cfg.cipher, lib.derive(cfg.kdf, cfg.key, purpose, salt))
  }

  /** Both ends derive the same two ciphers from the salt. */
  method NewClientServer(lib: Lib, cfg: ProtocolConfig, salt: seq<byte>) returns (client: Cipher, server: Cipher)
    requires |salt| == KEY_SIZE
    ensures fresh(client) && fresh(server) && fresh(client.nonce) && fresh(server.nonce)
    ensures client.nonce != server.nonce
    ensures client.nonce.Length == server.nonce.Length == NONCE_SIZE
    ensures client.aead.key == lib.derive(cfg.kdf, cfg.key, ClientStream, salt)
    ensures server.aead.key == lib.derive(cfg.kdf, cfg.key, ServerStream, salt)
    ensures client.aead.kind == server.aead.kind == cfg.cipher
    ensures client.aead.lib == server.aead.lib == lib
    ensures SeparatesKeys(lib) ==> client.aead.key != server.aead.key
    ensures client.nonce[..] == salt[..12] && server.nonce[..] == salt[20..]
  {
    var clientKey := lib.derive(cfg.kdf, cfg.key, ClientStream, salt);
    client := new Cipher.NewWithNonce(AeadKey(lib, cfg.cipher, clientKey), salt[..NONCE_SIZE]);

    var serverKey := lib.derive(cfg.kdf, cfg.key, ServerStream, salt);
    server := new Cipher.NewWithNonce(AeadKey(lib, cfg.cipher, serverKey), salt[KEY_SIZE - NONCE_SIZE..]);
  }

  /** No two streams have a key in common, be they of one tunnel or of tunnels with different salts. */
  lemma StreamKeysApart(lib: Lib, cfg: ProtocolConfig, u: Purpose, v: Purpose, salt: seq<byte>, other: seq<byte>)
    requires |salt| == |other| == KEY_SIZE && !u.TimeBucket? && !v.TimeBucket? && SeparatesKeys(lib)
    ensures StreamKey(lib, cfg, u, salt).key == StreamKey(lib, cfg, v, other).key <==> u == v && salt == other
    ensures forall bucket :: StreamKey(lib, cfg, u, salt).key != HeaderKey(lib, cfg, bucket).key
  {
  }

  /** The client: sends the first packet and turns the connection into an encrypted stream. */
  method OpenTunnel(lib: Lib, cfg: ProtocolConfig, now: nat, host: seq<byte>, stream: Transport,
                    nonce: seq<byte>, salt: seq<byte>, padding: seq<byte>) returns (client: EncryptedStream)
    requires cfg.maxConnectDelay > 0
    requires |nonce| == NONCE_SIZE && |salt| == KEY_SIZE
    requires cfg.headerPaddingStart <= |padding| < cfg.headerPaddingEnd <= U16_MAX
    modifies stream`sent
    ensures fresh(client) && client.inner == stream && client.Valid() && client.Nonces()
    ensures fresh(client.readCipher.nonce) && fresh(client.writeCipher.nonce)
    ensures client.padding == cfg.dataPadding && client.encLimit == cfg.encryptionLimit
    ensures client.writeCipher.aead == StreamKey(lib, cfg, ClientStream, salt)
    ensures client.readCipher.aead == StreamKey(lib, cfg, ServerStream, salt)
    ensures stream.sent == old(stream.sent)
                           + Packet(HeaderKey(lib, cfg, Bucket(cfg, now)), nonce, salt, host, padding)
    ensures client.wireStart == |stream.sent| && client.frames == [] && client.writeBuffer == []
    ensures client.writeStart == Cursor(0, salt[..NONCE_SIZE])
    ensures client.Reading() == Reader(Header, [], Cursor(0, salt[KEY_SIZE - NONCE_SIZE..]))
  {
    var packet := BuildPacket(lib, cfg, now, host, nonce, salt, padding);
    stream.WriteAll(packet);
    var clientCipher, serverCipher := NewClientServer(lib, cfg, salt);
    client := new EncryptedStream.FromStream(stream, serverCipher, clientCipher, cfg.dataPadding, cfg.encryptionLimit);
  }

  /** The server: reads the first packet and, if it is good, wraps the connection likewise. */
  method AcceptTunnel(lib: Lib, cfg: ProtocolConfig, now: nat, stream: Transport, late: seq<byte>)
    returns (outcome: Outcome, server: EncryptedStream?)
    requires cfg.maxConnectDelay > 0
    modifies stream`inbox
    ensures var first := old(stream.inbox)[..Min(MinHeaderLen(cfg), |old(stream.inbox)|)];
      var more := old(stream.inbox)[|first|..] + late;
      && outcome == Parse(lib, cfg, now, first, more)
      && (outcome.Accepted? ==>
            var consumed := MAIN_HEADER_LEN + |outcome.host| + TAG_SIZE + outcome.padding;
            consumed <= |first + more| && stream.inbox == (first + more)[consumed..])
    ensures server != null <==> outcome.Accepted?
    ensures server != null ==>
      && fresh(server) && server.inner == stream && server.Valid()
      && fresh(server.readCipher.nonce) && fresh(server.writeCipher.nonce)
      && server.padding == cfg.dataPadding && server.encLimit == cfg.encryptionLimit
      && |outcome.salt| == KEY_SIZE
      && server.readCipher.aead == StreamKey(lib, cfg, ClientStream, outcome.salt)
      && server.writeCipher.aead == StreamKey(lib, cfg, ServerStream, outcome.salt)
      && server.wireStart == |stream.sent| && server.frames == [] && server.writeBuffer == []
      && server.writeStart == Cursor(0, outcome.salt[KEY_SIZE - NONCE_SIZE..])
      && server.Reading() == Reader(Header, [], Cursor(0, outcome.salt[..NONCE_SIZE]))
  {
    outcome := AcceptHeader(lib, cfg, now, stream, late);
    server := null;
    if outcome.Accepted? {
      var clientCipher, serverCipher := NewClientServer(lib, cfg, outcome.salt);
      server := new EncryptedStream.FromStream(stream, clientCipher, serverCipher, cfg.dataPadding,
                                               cfg.encryptionLimit);
    }
  }

  /** The client writes without waiting for the server. */
  method WriteEarly(client: EncryptedStream, early: seq<seq<byte>>)
    returns (accepted: seq<byte>, failed: bool, emptyWrite: bool)
    requires client.WriteValid() && client.padding.max <= U16_MAX && client.frames == []
    modifies client`writeBuffer, client`writePos, client`written, client`frames, client.writeCipher.nonce
    modifies client.inner`sent, client.inner`stalls, client.inner`faults
    ensures client.WriteValid() && old(client.inner.sent) <= client.inner.sent
    ensures !failed ==> accepted == Payload(client.frames)
    ensures !emptyWrite ==> NoEmpty(client.frames)
    ensures emptyWrite ==> [] in early
  {
    hide Payload, EncryptedStream.WriteValid;
    accepted, failed, emptyWrite := [], false, false;
    NothingWritten();
    hide NoEmpty;
    for i := 0 to |early|
      invariant client.WriteValid() && old(client.inner.sent) <= client.inner.sent
      invariant !failed ==> accepted == Payload(client.frames)
      invariant !emptyWrite ==> NoEmpty(client.frames)
      invariant emptyWrite ==> [] in early
    {
      ghost var frames := client.frames;
      var random: Random := *;
      var r, more := client.PollWrite(early[i], random);
      Link.PayloadGrows(frames, more, early[i]);
      assert early[i] in early;
      emptyWrite := emptyWrite || (early[i] == [] && !r.Stuck?);
      if r.Done? {
        accepted := accepted + early[i][..r.value];
      } else if r.Broken? {
        failed := true;
      }
    }
  }

  lemma NothingWritten()
    ensures Payload([]) == [] && NoEmpty([])
  {
  }

  /** When at least the packet has arrived, the server accepts it and the rest of what arrived stays unread. */
  lemma HeaderArrives(lib: Lib, cfg: ProtocolConfig, sent: int, now: nat, nonce: seq<byte>, salt: seq<byte>,
                      host: seq<byte>, padding: seq<byte>, packet: seq<byte>, wire: seq<byte>, carried: nat)
    requires cfg.maxConnectDelay > 0 && |nonce| == NONCE_SIZE && |salt| == KEY_SIZE
    requires cfg.headerPaddingStart <= |padding| <= U16_MAX
    requires MIN_HOST_LEN <= |host| <= MAX_HOST_LEN && lib.utf8(host)
    requires Bucket(cfg, now) - 1 <= sent <= Bucket(cfg, now)
    requires Separate(lib, cfg, sent, Bucket(cfg, now), nonce, SealedMain(HeaderKey(lib, cfg, sent), nonce, salt, host,
        padding))
    requires packet == Packet(HeaderKey(lib, cfg, sent), nonce, salt, host, padding)
    requires packet <= wire && |packet| <= carried <= |wire|
    ensures var first := wire[..carried][..Min(MinHeaderLen(cfg), carried)];
      var more := wire[..carried][|first|..] + [];
      && Parse(lib, cfg, now, first, more) == Accepted(salt, |padding|, host)
      && |packet| == MAIN_HEADER_LEN + |host| + TAG_SIZE + |padding|
      && (first + more)[|packet|..] == wire[|packet|..carried]
  {
    PacketLength(HeaderKey(lib, cfg, sent), nonce, salt, host, padding);
    var first := wire[..carried][..Min(MinHeaderLen(cfg), carried)];
    var more := wire[..carried][|first|..] + [];
    var following := wire[|packet|..carried];
    assert first + more == wire[..carried] == packet + following;
    PacketRoundTrip(lib, cfg, sent, now, nonce, salt, host, padding, first, more, following);
  }

  /** The server's side of the handshake, once `carried` bytes of the client's output have arrived. */
  method AcceptArrived(lib: Lib, cfg: ProtocolConfig, ghost sent: int, now: nat, ghost nonce: seq<byte>,
                       ghost salt: seq<byte>,
                       ghost host: seq<byte>, ghost padding: seq<byte>, ghost packet: seq<byte>,
                       wire: seq<byte>, carried: nat) returns (outcome: Outcome, server: EncryptedStream)
    requires cfg.maxConnectDelay > 0 && |nonce| == NONCE_SIZE && |salt| == KEY_SIZE
    requires cfg.headerPaddingStart <= |padding| <= U16_MAX
    requires MIN_HOST_LEN <= |host| <= MAX_HOST_LEN && lib.utf8(host)
    requires Bucket(cfg, now) - 1 <= sent <= Bucket(cfg, now)
    requires Separate(lib, cfg, sent, Bucket(cfg, now), nonce, SealedMain(HeaderKey(lib, cfg, sent), nonce, salt, host,
        padding))
    requires packet == Packet(HeaderKey(lib, cfg, sent), nonce, salt, host, padding)
    requires packet <= wire && |packet| <= carried <= |wire|
    ensures outcome == Accepted(salt, |padding|, host)
    ensures fresh(server) && fresh(server.inner) && server.Valid()
    ensures fresh(server.readCipher.nonce) && fresh(server.writeCipher.nonce)
    ensures server.padding == cfg.dataPadding && server.encLimit == cfg.encryptionLimit
    ensures server.readCipher.aead == StreamKey(lib, cfg, ClientStream, salt)
    ensures server.writeCipher.aead == StreamKey(lib, cfg, ServerStream, salt)
    ensures server.inner.inbox == wire[|packet|..carried] && !server.inner.ended
    ensures server.wireStart == |server.inner.sent| && server.frames == []
    ensures server.writeStart == Cursor(0, salt[KEY_SIZE - NONCE_SIZE..])
    ensures server.Reading() == Reader(Header, [], Cursor(0, salt[..NONCE_SIZE]))
  {
    hide Packet, Parse, SealedMain, Separate, Encode, Settled, Bucket, HeaderKey, StreamKey;
    hide EncryptedStream.ReadValid, EncryptedStream.WriteValid;
    HeaderArrives(lib, cfg, sent, now, nonce, salt, host, padding, packet, wire, carried);
    var far := new Transport();
    far.inbox := wire[..carried];
    var accepted: EncryptedStream?;
    outcome, accepted := AcceptTunnel(lib, cfg, now, far, []);
    server := accepted;
  }

  /** The two directions between a client that may have written already and a fresh server. */
  method Join(client: EncryptedStream, server: EncryptedStream, carried: nat,
              accepted: seq<byte>, failed: bool, emptyWrite: bool)
    returns (up: Link, down: Link)
    requires client.Valid() && server.Valid() && client != server && client.inner != server.inner
    requires client.padding == server.padding && client.encLimit == server.encLimit && client.padding.max <= U16_MAX
    requires client.writeCipher.aead == server.readCipher.aead && client.readCipher.aead == server.writeCipher.aead
    requires client.writeCipher.nonce != server.readCipher.nonce && client.readCipher.nonce != server.writeCipher.nonce
    requires client.writeCipher.nonce != server.writeCipher.nonce && client.readCipher.nonce != server.readCipher.nonce
    requires client.wireStart <= carried <= |client.inner.sent|
    requires server.inner.inbox == client.inner.sent[client.wireStart..carried] && client.inner.inbox == []
    requires server.Reading() == Reader(Header, [], client.writeStart)
    requires client.Reading() == Reader(Header, [], server.writeStart)
    requires !failed ==> accepted == Payload(client.frames)
    requires !emptyWrite ==> NoEmpty(client.frames)
    requires server.frames == [] && server.wireStart == |server.inner.sent|
    ensures fresh(up) && fresh(down) && up.Valid() && down.Valid() && Opposite(up, down)
    ensures up.writer == down.reader == client && up.reader == down.writer == server
    ensures up.emptyWrite == emptyWrite && !down.emptyWrite && up.delivered == down.delivered == []
  {
    hide Encode, Settled, Link.Valid;
    up := new Link(client, server, carried, accepted, failed, emptyWrite);
    down := new Link(server, client, |server.inner.sent|, [], false, false);
  }

  /** The handshake, up to the two directions of an established tunnel. */
  method Connect(lib: Lib, cfg: ProtocolConfig, host: seq<byte>, sentAt: nat, now: nat,
                 nonce: seq<byte>, salt: seq<byte>, padding: seq<byte>, early: seq<seq<byte>>, arrived: nat)
    returns (outcome: Outcome, up: Link, down: Link)
    requires cfg.maxConnectDelay > 0 && cfg.Valid()
    requires |nonce| == NONCE_SIZE && |salt| == KEY_SIZE
    requires cfg.headerPaddingStart <= |padding| < cfg.headerPaddingEnd
    requires MIN_HOST_LEN <= |host| <= MAX_HOST_LEN && lib.utf8(host)
    requires Bucket(cfg, now) - 1 <= Bucket(cfg, sentAt) <= Bucket(cfg, now)
    requires var k := HeaderKey(lib, cfg, Bucket(cfg, sentAt));
      Separate(lib, cfg, Bucket(cfg, sentAt), Bucket(cfg, now), nonce, SealedMain(k, nonce, salt, host, padding))
    requires MAIN_HEADER_LEN + |host| + TAG_SIZE + |padding| <= arrived
    ensures outcome == Accepted(salt, |padding|, host)
    ensures up.Valid() && down.Valid() && Opposite(up, down)
    ensures up.emptyWrite ==> [] in early
    ensures !up.reader.inner.ended && !down.reader.inner.ended
    ensures !down.emptyWrite && up.delivered == down.delivered == []
    ensures fresh(up) && fresh(down) && fresh(up.writer) && fresh(up.reader)
    ensures fresh(up.writer.inner) && fresh(up.reader.inner)
    ensures fresh(up.writer.readCipher.nonce) && fresh(up.writer.writeCipher.nonce)
    ensures fresh(up.reader.readCipher.nonce) && fresh(up.reader.writeCipher.nonce)
  {
    hide Packet, SealedMain, Separate, Bucket, HeaderKey, Link.Valid;
    hide EncryptedStream.ReadValid, EncryptedStream.WriteValid, Payload, NoEmpty, Opposite;
    var near := new Transport();
    var client := OpenTunnel(lib, cfg, sentAt, host, near, nonce, salt, padding);
    ghost var packet := near.sent;
    assert packet == Packet(HeaderKey(lib, cfg, Bucket(cfg, sentAt)), nonce, salt, host, padding);
    var accepted, failed, emptyWrite := WriteEarly(client, early);

    PacketLength(HeaderKey(lib, cfg, Bucket(cfg, sentAt)), nonce, salt, host, padding);
    var carried := Min(arrived, |near.sent|);
    var server;
    outcome, server := AcceptArrived(lib, cfg, Bucket(cfg, sentAt), now, nonce, salt, host, padding, packet, near.sent,
                                     carried);
    up, down := Join(client, server, carried, accepted, failed, emptyWrite);
  }

  /**
    A tunnel from its first packet on. The client draws `nonce`, `salt` and
    `padding`, may write at once, and the network has delivered `arrived` bytes
    when the server reads the header: at least the packet, which the server
    expects in one piece. If the host has a length the header can hold and the
    packet is in time, the server knows it, and then every schedule of events in
    both directions keeps the tunnel the identity on bytes: each side has received
    a prefix of what the other has written, and all of it once nothing is under way.
    Unless there was an empty write no caller hears of an end on a connection that was
    not cut, and what is heard after a cut is right.
   */
  method Tunnel(lib: Lib, cfg: ProtocolConfig, host: seq<byte>, sentAt: nat, now: nat,
                nonce: seq<byte>, salt: seq<byte>, padding: seq<byte>,
                early: seq<seq<byte>>, arrived: nat, schedule: seq<Event>)
    returns (outcome: Outcome, up: Link, down: Link)
    requires cfg.maxConnectDelay > 0 && cfg.Valid()
    requires |nonce| == NONCE_SIZE && |salt| == KEY_SIZE
    requires cfg.headerPaddingStart <= |padding| < cfg.headerPaddingEnd
    requires MIN_HOST_LEN <= |host| <= MAX_HOST_LEN && lib.utf8(host)
    requires Bucket(cfg, now) - 1 <= Bucket(cfg, sentAt) <= Bucket(cfg, now)
    requires var k := HeaderKey(lib, cfg, Bucket(cfg, sentAt));
      Separate(lib, cfg, Bucket(cfg, sentAt), Bucket(cfg, now), nonce, SealedMain(k, nonce, salt, host, padding))
    requires MAIN_HEADER_LEN + |host| + TAG_SIZE + |padding| <= arrived
    ensures outcome == Accepted(salt, |padding|, host)
    ensures up.Valid() && down.Valid() && Opposite(up, down)
    ensures up.delivered <= Payload(up.writer.frames) && down.delivered <= Payload(down.writer.frames)
    ensures !up.writeFailed ==> up.delivered <= up.accepted && (up.Quiet() ==> up.delivered == up.accepted)
    ensures !down.writeFailed ==> down.delivered <= down.accepted && (down.Quiet() ==> down.delivered == down.accepted)
    ensures up.HeardEnd() ==> up.reader.inner.ended && up.HeardRight()
    ensures down.HeardEnd() ==> down.reader.inner.ended && down.HeardRight()
    ensures up.emptyWrite ==> [] in early || Event(true, Write([])) in schedule
    ensures down.emptyWrite ==> Event(false, Write([])) in schedule
    ensures up.reader.inner.ended ==> Event(true, Cut) in schedule
    ensures down.reader.inner.ended ==> Event(false, Cut) in schedule
    ensures fresh(up) && fresh(down) && fresh(up.writer) && fresh(up.reader)
    ensures fresh(up.writer.inner) && fresh(up.reader.inner)
    ensures fresh(up.writer.readCipher.nonce) && fresh(up.writer.writeCipher.nonce)
    ensures fresh(up.reader.readCipher.nonce) && fresh(up.reader.writeCipher.nonce)
  {
    outcome, up, down := Connect(lib, cfg, host, sentAt, now, nonce, salt, padding, early, arrived);
    hide Separate, SealedMain, Link.Valid, Link.HeardRight;
    Session(up, down, schedule);
  }

  /**
    The same tunnel, not cut and at last drained: everything written is received on the
    other side, in both directions, unless a transport has said Pending, has failed or has
    taken nothing of what it was offered.
   */
  method DrainedTunnel(lib: Lib, cfg: ProtocolConfig, host: seq<byte>, sentAt: nat, now: nat,
                       nonce: seq<byte>, salt: seq<byte>, padding: seq<byte>,
                       early: seq<seq<byte>>, arrived: nat, schedule: seq<Event>, room: nat)
    returns (up: Link, down: Link, upDone: bool, downDone: bool)
    requires cfg.maxConnectDelay > 0 && cfg.Valid()
    requires |nonce| == NONCE_SIZE && |salt| == KEY_SIZE
    requires cfg.headerPaddingStart <= |padding| < cfg.headerPaddingEnd
    requires MIN_HOST_LEN <= |host| <= MAX_HOST_LEN && lib.utf8(host)
    requires Bucket(cfg, now) - 1 <= Bucket(cfg, sentAt) <= Bucket(cfg, now)
    requires var k := HeaderKey(lib, cfg, Bucket(cfg, sentAt));
      Separate(lib, cfg, Bucket(cfg, sentAt), Bucket(cfg, now), nonce, SealedMain(k, nonce, salt, host, padding))
    requires MAIN_HEADER_LEN + |host| + TAG_SIZE + |padding| <= arrived
    requires Event(true, Cut) !in schedule && Event(false, Cut) !in schedule && room > 0
    ensures up.Valid() && down.Valid() && Opposite(up, down)
    ensures upDone && !up.writeFailed ==> up.delivered == up.accepted
    ensures downDone && !down.writeFailed ==> down.delivered == down.accepted
    ensures !upDone || !downDone ==> up.Troubles() > 0
  {
    var outcome;
    outcome, up, down := Tunnel(lib, cfg, host, sentAt, now, nonce, salt, padding, early, arrived, schedule);
    hide Separate, SealedMain, Link.Valid, Link.HeardRight;
    upDone, downDone := Settle(up, down, room);
  }
}
