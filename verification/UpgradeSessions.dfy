/** The upgrade shim in use: every schedule of events from the first write on. */
module UpgradeSessions {
  import opened Bytes
  import opened Transports
  import opened Upgrade

  datatype Event = Write(data: seq<byte>) | Read(room: nat) | Arrive(n: nat) | Cut

  /** Some header block of at most 255 bytes begins the answer. */
  predicate HasBlock(answer: seq<byte>) { exists n: nat :: n <= MAX_UPGRADE_RESPONSE && IsBlock(answer, n) }

  /** A scan that has not ended has not got beyond the block. */
  lemma FitsBlock(answer: seq<byte>, n: nat, response: seq<byte>)
    requires IsBlock(answer, n) && Runs(response) && response <= answer
    ensures |response| <= n
  {
    ScannerFindsBlock(answer, n);
    hide LfInRow, IsBlock;
    NotBeyond(answer, n, response);
  }

  lemma NotBeyond(total: seq<byte>, n: nat, front: seq<byte>)
    requires Stops(total, n) && Runs(front) && front <= total
    ensures |front| <= n
  {
    var m := Min(n, |front|);
    assert front[..m] == total[..m];
  }

  /** A stream that has sent nothing has seen nothing. */
  lemma AtStart(stream: UpgradeStream)
    requires stream.Valid() && stream.state == SendRequest(0)
    ensures stream.payload == [] && stream.response == [] && stream.emptyPolls == 0
  {
  }

  lemma Scanned(arrived: seq<byte>, response: seq<byte>, delivered: seq<byte>, inbox: seq<byte>,
                block: seq<byte>, value: seq<byte>, rest: seq<byte>)
    requires arrived == response + delivered + inbox && inbox == block + value + rest
    requires block == [] || delivered == []
    ensures arrived == (response + block) + (delivered + value) + rest
    ensures response + block <= arrived
  {
  }

  lemma HandedOver(response: seq<byte>, delivered: seq<byte>, inbox: seq<byte>, total: seq<byte>, arrived: nat)
    requires arrived <= |total| && total[..arrived] == response + delivered + inbox
    requires IsBlock(response, |response|)
    ensures IsBlock(total, |response|) && delivered <= total[|response|..]
  {
    assert response <= total[..arrived] <= total;
    BlockOfFront(response, total);
    hide IsBlock;
    assert delivered == total[|response|..|response| + |delivered|];
  }

  /** The scan runs over its limit only if the connection was cut or there is no block to be found. */
  lemma WhyItFails(stream: UpgradeStream, total: seq<byte>)
    requires Runs(stream.response) && |stream.response| + stream.emptyPolls == MAX_UPGRADE_RESPONSE + 1
    requires stream.response <= total
    ensures stream.emptyPolls > 0 || !HasBlock(total)
  {
    if n: nat :| n <= MAX_UPGRADE_RESPONSE && IsBlock(total, n) {
      FitsBlock(total, n, stream.response);
    }
  }

  lemma UpgradedBlock(stream: UpgradeStream)
    requires stream.ReadValid() && stream.state.Upgraded?
    ensures IsBlock(stream.response, |stream.response|) && |stream.response| <= MAX_UPGRADE_RESPONSE
  {
  }

  /** What has arrived is scanned, delivered or waiting, in this order. */
  ghost predicate Underway(stream: UpgradeStream, total: seq<byte>, delivered: seq<byte>, arrived: nat)
    reads stream, stream.inner
  {
    && arrived <= |total| && total[..arrived] == stream.response + delivered + stream.inner.inbox
    && (!stream.state.Upgraded? ==> delivered == [])
    && (stream.state.SendRequest? ==> arrived == 0)
    && (stream.emptyPolls > 0 ==> stream.inner.ended)
  }

  method ReadOnce(stream: UpgradeStream, total: seq<byte>, room: nat, before: seq<byte>, ghost arrived: nat)
    returns (delivered: seq<byte>, failed: bool, empty: bool)
    requires stream.Valid() && Underway(stream, total, before, arrived)
    modifies stream`state, stream`response, stream`emptyPolls
    modifies stream.inner`inbox, stream.inner`stalls, stream.inner`faults
    ensures stream.WriteValid() && Underway(stream, total, delivered, arrived)
    ensures !failed ==> stream.ReadValid()
    ensures failed ==> !stream.state.Upgraded? && (stream.inner.ended || !HasBlock(total))
    ensures delivered == before && room > 0 && !failed && !empty ==>
      stream.inner.stalls > old(stream.inner.stalls) || stream.inner.faults > old(stream.inner.faults)
    ensures empty ==> stream.inner.ended && stream.inner.inbox == []
    ensures old(stream.inner.inbox) == [] ==> stream.inner.inbox == []
  {
    hide IsBlock, Runs, LfInRow, UpgradeStream.WriteValid, UpgradeStream.ReadValid;
    ghost var response, inbox := stream.response, stream.inner.inbox;
    var r;
    ghost var block;
    r, block := stream.PollRead(room);
    var value := if r.Done? then r.value else [];
    delivered := before + value;
    Scanned(total[..arrived], response, before, inbox, block, value, stream.inner.inbox);
    failed, empty := r == Broken(Invalid), room > 0 && r == Done([]);
    if failed {
      WhyItFails(stream, total);
    }
  }

  /** The network brings `n` more bytes of the answer, if the server has the request. */
  method Bring(stream: UpgradeStream, total: seq<byte>, n: nat, ghost delivered: seq<byte>, before: nat)
    returns (arrived: nat)
    requires Underway(stream, total, delivered, before)
    modifies stream.inner`inbox
    ensures Underway(stream, total, delivered, arrived)
    ensures stream.inner.ended ==> stream.inner.inbox == old(stream.inner.inbox)
  {
    arrived := before;
    if !stream.state.SendRequest? && !stream.inner.ended && arrived + n <= |total| {
      stream.inner.inbox := stream.inner.inbox + total[arrived..arrived + n];
      Adjoin(total, 0, arrived, arrived + n);
      arrived := arrived + n;
    }
  }

  /**
    Any schedule of writes, reads, arrivals and a cut, with any answer `total`, whose
    bytes arrive only after the other side has the whole request. The request is
    sent once and whole before what was written. The stream is upgraded only behind a
    header block of at most 255 bytes, which is the answer's own, and everything behind
    that block is delivered unchanged; without such a block nothing is. The scan
    fails only if there is none or on a connection that was cut. A read of no bytes
    where there was room is heard only after a cut, when everything that arrived is
    scanned or delivered.
   */
  method Converse(stream: UpgradeStream, total: seq<byte>, schedule: seq<Event>)
    returns (accepted: seq<byte>, delivered: seq<byte>, arrived: nat, failed: bool, emptyRead: bool)
    requires stream.Valid() && stream.state == SendRequest(0) && stream.inner.inbox == []
    modifies stream, stream.inner
    ensures stream.WriteValid() && accepted == stream.payload
    ensures arrived <= |total| && total[..arrived] == stream.response + delivered + stream.inner.inbox
    ensures stream.state.Upgraded? ==>
      && |stream.response| <= MAX_UPGRADE_RESPONSE && IsBlock(total, |stream.response|)
      && delivered <= total[|stream.response|..]
    ensures !stream.state.Upgraded? ==> delivered == []
    ensures !HasBlock(total) ==> !stream.state.Upgraded? && delivered == []
    ensures failed ==> !stream.state.Upgraded? && (stream.inner.ended || !HasBlock(total))
    ensures emptyRead ==> stream.inner.ended && total[..arrived] == stream.response + delivered
    ensures emptyRead ==> Cut in schedule || old(stream.inner.ended)
  {
    AtStart(stream);
    hide IsBlock, Runs, LfInRow, UpgradeStream.WriteValid, UpgradeStream.ReadValid;
    accepted, delivered, arrived, failed, emptyRead := [], [], 0, false, false;
    var i := 0;
    while i < |schedule| && !failed
      invariant stream.WriteValid() && accepted == stream.payload
      invariant !failed ==> stream.ReadValid()
      invariant Underway(stream, total, delivered, arrived)
      invariant failed ==> !stream.state.Upgraded? && (stream.inner.ended || !HasBlock(total))
      invariant emptyRead ==> stream.inner.ended && stream.inner.inbox == []
      invariant stream.inner.ended ==> Cut in schedule || old(stream.inner.ended)
    {
      assert schedule[i] in schedule;
      match schedule[i] {
        case Write(data) =>
          var r := stream.PollWrite(data);
          if r.Done? {
            accepted := accepted + data[..r.value];
          }
        case Read(room) =>
          var empty;
          delivered, failed, empty := ReadOnce(stream, total, room, delivered, arrived);
          emptyRead := emptyRead || empty;
        case Arrive(n) =>
          arrived := Bring(stream, total, n, delivered, arrived);
        case Cut =>
          stream.inner.ended := true;
      }
      i := i + 1;
    }
    if stream.state.Upgraded? {
      UpgradedBlock(stream);
      HandedOver(stream.response, delivered, stream.inner.inbox, total, arrived);
    }
  }

  /** With the server's own answer, scanned and delivered are exactly the answer and what follows it. */
  lemma ServerAnswers(response: seq<byte>, delivered: seq<byte>, after: seq<byte>)
    requires IsBlock(SwitchingProtocols() + after, |response|)
    requires response + delivered <= SwitchingProtocols() + after
    ensures HasBlock(SwitchingProtocols() + after)
    ensures response == SwitchingProtocols() && delivered <= after
  {
    var answer := SwitchingProtocols();
    ReplyIsScanned(after);
    hide SwitchingProtocols;
    UniqueBlock(answer + after, |response|, |answer|);
    assert response == (response + delivered)[..|answer|] == (answer + after)[..|answer|] == answer;
    assert delivered == (response + delivered)[|answer|..];
  }
}
