/** The upgrade in front of the tunnel: one connection holds the request, the first packet and the frames. */
module UpgradedTunnels {
  import opened Bytes
  import opened Library
  import opened Frames
  import opened Handshake
  import opened Readers
  import opened Streams
  import opened Transports
  import opened Tunnels
  import Upgrade

  /**
    The server behind an upgrade. If host and path of the request are short enough it is
    answered, the packet behind it is accepted, and of everything that has arrived
    exactly the frames are left for the stream, which starts at the first of them.
   */
  method AcceptUpgraded(lib: Lib, cfg: ProtocolConfig, now: nat, stream: Transport,
                        urlHost: seq<byte>, urlPath: seq<byte>,
                        ghost sent: int, ghost nonce: seq<byte>, ghost salt: seq<byte>, ghost host: seq<byte>,
                        ghost padding: seq<byte>, ghost frames: seq<byte>)
    returns (upgraded: Upgrade.Outcome, outcome: Outcome, server: EncryptedStream?)
    requires Upgrade.LF !in urlHost && Upgrade.LF !in urlPath
    requires cfg.maxConnectDelay > 0 && |nonce| == NONCE_SIZE && |salt| == KEY_SIZE
    requires cfg.headerPaddingStart <= |padding| <= U16_MAX
    requires MIN_HOST_LEN <= |host| <= MAX_HOST_LEN && lib.utf8(host)
    requires Bucket(cfg, now) - 1 <= sent <= Bucket(cfg, now)
    requires Separate(lib, cfg, sent, Bucket(cfg, now), nonce,
                      SealedMain(HeaderKey(lib, cfg, sent), nonce, salt, host, padding))
    requires stream.inbox == Upgrade.UpgradeRequest(urlHost, urlPath)
                             + (Packet(HeaderKey(lib, cfg, sent), nonce, salt, host, padding) + frames)
    modifies stream`inbox, stream`sent
    ensures upgraded.Switched? <==> |urlHost| + |urlPath| < 188
    ensures upgraded.Switched? ==>
      && stream.sent == old(stream.sent) + Upgrade.SwitchingProtocols()
      && stream.inbox == frames
      && outcome == Accepted(salt, |padding|, host)
      && server != null && fresh(server) && server.inner == stream && server.Valid()
      && server.Reading() == Reader(Header, [], Cursor(0, salt[..NONCE_SIZE]))
      && server.readCipher.aead == StreamKey(lib, cfg, ClientStream, salt)
      && server.wireStart == |stream.sent|
    ensures !upgraded.Switched? ==> server == null && stream.sent == old(stream.sent)
  {
    hide Packet, Parse, SealedMain, Separate, Bucket, HeaderKey, Upgrade.UpgradeRequest, Upgrade.SwitchingProtocols;
    ghost var packet := Packet(HeaderKey(lib, cfg, sent), nonce, salt, host, padding);
    outcome, server := SliceOutOfRange, null;
    upgraded := Upgrade.AnswerRequest(stream, urlHost, urlPath, packet + frames);
    if upgraded.Switched? {
      AllArrived(lib, cfg, sent, now, nonce, salt, host, padding, packet, frames, stream.inbox);
      outcome, server := AcceptTunnel(lib, cfg, now, stream, []);
    }
  }

  /** With packet and frames there in one piece, the packet is accepted and the frames are left. */
  lemma AllArrived(lib: Lib, cfg: ProtocolConfig, sent: int, now: nat, nonce: seq<byte>, salt: seq<byte>,
                   host: seq<byte>, padding: seq<byte>, packet: seq<byte>, frames: seq<byte>, wire: seq<byte>)
    requires cfg.maxConnectDelay > 0 && |nonce| == NONCE_SIZE && |salt| == KEY_SIZE
    requires cfg.headerPaddingStart <= |padding| <= U16_MAX
    requires MIN_HOST_LEN <= |host| <= MAX_HOST_LEN && lib.utf8(host)
    requires Bucket(cfg, now) - 1 <= sent <= Bucket(cfg, now)
    requires Separate(lib, cfg, sent, Bucket(cfg, now), nonce,
                      SealedMain(HeaderKey(lib, cfg, sent), nonce, salt, host, padding))
    requires packet == Packet(HeaderKey(lib, cfg, sent), nonce, salt, host, padding)
    requires wire == packet + frames
    ensures var first := wire[..Min(MinHeaderLen(cfg), |wire|)];
      var more := wire[|first|..] + [];
      && Parse(lib, cfg, now, first, more) == Accepted(salt, |padding|, host)
      && |packet| == MAIN_HEADER_LEN + |host| + TAG_SIZE + |padding|
      && (first + more)[|packet|..] == frames
  {
    HeaderArrives(lib, cfg, sent, now, nonce, salt, host, padding, packet, wire, |wire|);
    hide Packet, Parse, SealedMain, Separate, Bucket, HeaderKey;
    assert wire[..|wire|] == wire && wire[|packet|..|wire|] == frames;
  }
}
