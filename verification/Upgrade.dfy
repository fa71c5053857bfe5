/**
  The HTTP upgrade (section 7.8 of RFC 9110) in front of the tunnel: a request
  before the first payload byte, and a scanner that skips the answer.
 */
module Upgrade {
  import opened Bytes
  import opened Transports

  const LF: byte := 10
  const CR: byte := 13
  const MAX_UPGRADE_RESPONSE: nat := 255

  // ---------------------------------------------------------------------
  // Scanning for the blank line

  function CountLf(lfInRow: nat, b: byte): nat {
    if b == LF then lfInRow + 1 else if b == CR then lfInRow else 0
  }

  /** The scanner's `lf_in_row` after the bytes of `s`. */
  function LfInRow(s: seq<byte>): nat {
    if s == [] then 0 else CountLf(LfInRow(s[..|s| - 1]), s[|s| - 1])
  }

  predicate Crs(s: seq<byte>) { forall b <- s :: b == CR }

  /** `s` ends in a line feed, with carriage returns at most behind it. */
  predicate EndsLine(s: seq<byte>) { exists i: nat :: i < |s| && EndsLineAt(s, i) }

  predicate EndsLineAt(s: seq<byte>, i: nat) { i < |s| && s[i] == LF && Crs(s[i + 1..]) }

  /** `s` ends in a blank line: two line feeds with at most carriage returns between them. */
  predicate EndsBlank(s: seq<byte>) { s != [] && s[|s| - 1] == LF && EndsLine(s[..|s| - 1]) }

  /** The header block at the front of `s`: everything through its first blank line. */
  predicate IsBlock(s: seq<byte>, n: nat) {
    n <= |s| && EndsBlank(s[..n]) && forall m: nat :: m < n ==> !EndsBlank(s[..m])
  }

  /** What the scanners compute: they stop at the first `n` where two line feeds are in a row. */
  predicate Stops(s: seq<byte>, n: nat) {
    n <= |s| && LfInRow(s[..n]) >= 2 && Runs(s[..n])
  }

  /** No proper prefix makes the scanner stop. */
  predicate Runs(s: seq<byte>) { forall m: nat :: m < |s| ==> LfInRow(s[..m]) < 2 }

  /** What a byte more makes of the end of a line. */
  lemma EndsLineAppend(front: seq<byte>, last: byte)
    ensures EndsLine(front + [last]) <==> last == LF || (last == CR && EndsLine(front))
  {
    var s := front + [last];
    forall i: nat | i < |front| ensures EndsLineAt(s, i) <==> EndsLineAt(front, i) && last == CR {
      assert s[i + 1..] == front[i + 1..] + [last];
      CrsAppend(front[i + 1..], last);
    }
    assert s[|front| + 1..] == [];
    assert EndsLineAt(s, |front|) <==> last == LF;
  }

  lemma {:induction false} CountsEndsLine(s: seq<byte>)
    ensures LfInRow(s) >= 1 <==> EndsLine(s)
  {
    if s != [] {
      var front, last := s[..|s| - 1], s[|s| - 1];
      CountsEndsLine(front);
      assert s == front + [last];
      hide EndsLine;
      EndsLineAppend(front, last);
    }
  }

  lemma CrsAppend(s: seq<byte>, b: byte)
    ensures Crs(s + [b]) <==> Crs(s) && b == CR
  {
    if Crs(s + [b]) {
      forall x | x in s ensures x == CR { assert x in s + [b]; }
      assert b in s + [b];
    }
  }

  /** The scanner stops exactly at the end of the header block. */
  lemma ScannerFindsBlock(s: seq<byte>, n: nat)
    ensures Stops(s, n) <==> IsBlock(s, n)
  {
    if n <= |s| {
      if Stops(s, n) {
        forall m: nat | m < n ensures !EndsBlank(s[..m]) {
          assert s[..n][..m] == s[..m];
          if EndsBlank(s[..m]) { BlankStops(s[..m]); }
        }
        assert s[..n][..n - 1] == s[..n - 1];
        StopsAtBlank(s[..n]);
      }
      if IsBlock(s, n) {
        BlankStops(s[..n]);
        NoBlankRuns(s, n);
      }
    }
  }

  lemma BlankStops(s: seq<byte>)
    requires EndsBlank(s)
    ensures LfInRow(s) >= 2
  {
    CountsEndsLine(s[..|s| - 1]);
  }

  lemma StopsAtBlank(s: seq<byte>)
    requires s != [] && LfInRow(s) >= 2 && LfInRow(s[..|s| - 1]) < 2
    ensures EndsBlank(s)
  {
    CountsEndsLine(s[..|s| - 1]);
  }

  lemma {:induction false} NoBlankRuns(s: seq<byte>, n: nat)
    requires n <= |s| && forall m: nat :: m < n ==> !EndsBlank(s[..m])
    ensures Runs(s[..n])
  {
    if n > 0 {
      NoBlankRuns(s, n - 1);
      forall m: nat | m < n ensures LfInRow(s[..n][..m]) < 2 {
        assert s[..n][..m] == s[..m];
        if m < n - 1 {
          assert s[..n - 1][..m] == s[..m];
        } else if m > 0 {
          assert s[..n - 1][..m - 1] == s[..m][..m - 1] == s[..m - 1];
          if LfInRow(s[..m]) >= 2 { StopsAtBlank(s[..m]); }
        }
      }
    }
  }

  // ---------------------------------------------------------------------
  // The client's shim

  datatype UpgradeState =
    | SendRequest(pos: nat)
    | WaitResponse(lfInRow: nat, size: nat)
    | Upgraded

  class UpgradeStream {
    const inner: Transport
    const request: seq<byte>
    var state: UpgradeState
    ghost const wireStart: nat     // where this stream's output starts in `inner.sent`
    ghost var payload: seq<byte>   // what the callers have written
    ghost var response: seq<byte>  // what the scanner has consumed
    ghost var emptyPolls: nat      // how often it found the transport ended

    /** The request goes out whole and once, before any payload. */
    ghost predicate WriteValid()
      reads this`state, this`payload, inner`sent
    {
      && wireStart <= |inner.sent|
      && if state.SendRequest? then
           state.pos <= |request| && payload == [] && inner.sent[wireStart..] == request[..state.pos]
         else inner.sent[wireStart..] == request + payload
    }

    /** The scanner consumes the response's header block and nothing else. */
    ghost predicate ReadValid()
      reads this`state, this`response, this`emptyPolls
    {
      match state
      case SendRequest(_) => response == [] && emptyPolls == 0
      case WaitResponse(lfInRow, size) =>
        && Runs(response) && LfInRow(response) == lfInRow < 2
        && size == |response| + emptyPolls <= MAX_UPGRADE_RESPONSE
      case Upgraded => IsBlock(response, |response|) && |response| + emptyPolls <= MAX_UPGRADE_RESPONSE
    }

    ghost predicate Valid()
      reads this, inner`sent
    {
      WriteValid() && ReadValid()
    }

    constructor (inner: Transport, request: seq<byte>)
      ensures Valid() && this.inner == inner && this.request == request
      ensures state == SendRequest(0) && payload == [] && wireStart == |inner.sent|
    {
      this.inner, this.request, this.state := inner, request, SendRequest(0);
      wireStart, payload, response, emptyPolls := |inner.sent|, [], [], 0;
    }

    method PollWrite(data: seq<byte>) returns (r: Poll<nat>)
      requires Valid()
      modifies this`state, this`payload, inner`sent, inner`stalls, inner`faults
      ensures Valid() && old(inner.sent) <= inner.sent
      ensures r.Done? ==> r.value <= |data| && !state.SendRequest? && payload == old(payload) + data[..r.value]
      ensures !r.Done? ==> payload == old(payload)
      ensures r.Stuck? ==> inner.stalls > old(inner.stalls)
      ensures r.Broken? ==> inner.faults > old(inner.faults)
      ensures !old(state).SendRequest? ==> state == old(state)
    {
      if state.SendRequest? {
        while state.pos < |request|
          invariant state.SendRequest? && WriteValid() && payload == []
          invariant old(inner.sent) <= inner.sent
          invariant inner.stalls == old(inner.stalls) && inner.faults == old(inner.faults)
          decreases |request| - state.pos
        {
          var n := inner.PollWrite(request[state.pos..]);
          match n {
            case Stuck => return Stuck;
            case Broken(e) => return Broken(e);
            case Done(taken) =>
              assert request[..state.pos + taken] == request[..state.pos] + request[state.pos..][..taken];
              state := SendRequest(state.pos + taken);
              if taken == 0 {
                return Broken(Eof);
              }
          }
        }
        assert request[..state.pos] == request + [];
        state := WaitResponse(0, 0);
        assert LfInRow(response) == 0;
      }
      r := inner.PollWrite(data);
      if r.Done? {
        payload := payload + data[..r.value];
      }
    }

    ghost predicate Waiting()
      reads this`state, this`response, this`emptyPolls
    {
      state.WaitResponse? && Runs(response) && LfInRow(response) == state.lfInRow
      && state.size == |response| + emptyPolls <= MAX_UPGRADE_RESPONSE
    }

    /** One byte of the response, if the transport has it. */
    method ScanByte() returns (stop: Option<Poll<seq<byte>>>, ghost block: seq<byte>)
      requires Waiting() && state.lfInRow < 2
      modifies this`state, this`response, this`emptyPolls, inner`inbox, inner`stalls, inner`faults
      ensures state.WaitResponse?
      ensures response == old(response) + block && old(inner.inbox) == block + inner.inbox
      ensures stop == Some(Broken(Invalid)) ==> |response| + emptyPolls == MAX_UPGRADE_RESPONSE + 1 && Runs(response)
      ensures stop != Some(Broken(Invalid)) ==> Waiting() && (stop.Some? ==> ReadValid())
      ensures stop.None? ==> state.size == old(state.size) + 1
      ensures stop.Some? && stop.value.Done? ==> stop.value.value == [] && inner.ended && inner.inbox == []
      ensures emptyPolls != old(emptyPolls) ==> inner.ended
      ensures inner.stalls == old(inner.stalls) + (if stop == Some(Stuck) then 1 else 0)
      ensures inner.faults == old(inner.faults) + (if stop == Some(Broken(Io)) then 1 else 0)
      ensures stop.Some? && stop.value.Broken? ==> stop.value == Broken(Io) || stop.value == Broken(Invalid)
    {
      block := [];
      var byteBuff := inner.PollRead(1);
      match byteBuff {
        case Stuck => return Some(Stuck), block;
        case Broken(e) => return Some(Broken(e)), block;
        case Done(filled) =>
          RunsOn(response, filled);
          response, block := response + filled, filled;
          if filled == [] { emptyPolls := emptyPolls + 1; }
          state := WaitResponse(state.lfInRow, state.size + 1);
          if state.size > MAX_UPGRADE_RESPONSE {
            return Some(Broken(Invalid)), block;
          }
          if filled == [] {
            return Some(Done([])), block;
          }
          if filled[0] == LF {
            state := WaitResponse(state.lfInRow + 1, state.size);
          } else if filled[0] != CR {
            state := WaitResponse(0, state.size);
          }
          stop := None;
      }
    }

    /** `block` is the part of the response this poll has scanned. */
    method PollRead(room: nat) returns (r: Poll<seq<byte>>, ghost block: seq<byte>)
      requires Valid()
      modifies this`state, this`response, this`emptyPolls, inner`inbox, inner`stalls, inner`faults
      ensures WriteValid()
      ensures response == old(response) + block
      ensures old(inner.inbox) == block + (if r.Done? then r.value else []) + inner.inbox
      ensures r != Broken(Invalid) ==> ReadValid()
      ensures r == Broken(Invalid) ==>
        state.WaitResponse? && |response| + emptyPolls == MAX_UPGRADE_RESPONSE + 1 && Runs(response)
      ensures r.Stuck? ==> inner.stalls > old(inner.stalls)
      ensures r.Broken? && r != Broken(Invalid) ==> inner.faults > old(inner.faults)
      ensures r == Done([]) && room > 0 ==> inner.ended && inner.inbox == []
      ensures if old(state).WaitResponse? then !state.SendRequest? else state == old(state) && block == []
      ensures emptyPolls != old(emptyPolls) ==> inner.ended
      ensures old(state).WaitResponse? && r.Done? && r.value != [] ==> state.Upgraded?
      ensures state.WaitResponse? && r.Done? ==> inner.ended && inner.inbox == []
    {
      hide IsBlock, Runs, LfInRow;
      block := [];
      if state.WaitResponse? {
        while state.lfInRow < 2
          invariant Waiting() && WriteValid()
          invariant emptyPolls != old(emptyPolls) ==> inner.ended
          invariant response == old(response) + block && old(inner.inbox) == block + inner.inbox
          invariant inner.stalls == old(inner.stalls) && inner.faults == old(inner.faults)
          decreases MAX_UPGRADE_RESPONSE - state.size
        {
          var stop, more := ScanByte();
          block := block + more;
          if stop.Some? {
            return stop.value, block;
          }
        }
        assert response[..|response|] == response;
        ScannerFindsBlock(response, |response|);
        state := Upgraded;
      }
      r := inner.PollRead(room);
    }
  }

  lemma RunsOn(s: seq<byte>, more: seq<byte>)
    requires Runs(s) && LfInRow(s) < 2 && |more| <= 1
    ensures Runs(s + more)
    ensures more == [] ==> s + more == s
    ensures more != [] ==> LfInRow(s + more) == CountLf(LfInRow(s), more[0])
  {
    forall m: nat | m < |s + more| ensures LfInRow((s + more)[..m]) < 2 {
      assert (s + more)[..m] == s[..m];
      assert s[..|s|] == s;
    }
    if more != [] { assert (s + more)[..|s|] == s; }
  }

  // ---------------------------------------------------------------------
  // The server's scanner

  datatype Outcome = Switched | TooBig | WrongRequest | Ended

  predicate Contains(s: seq<byte>, part: seq<byte>) {
    exists i :: 0 <= i <= |s| && part <= s[i..]
  }

  lemma ContainsMeans(s: seq<byte>, part: seq<byte>)
    ensures Contains(s, part) <==> exists a: seq<byte>, b: seq<byte> :: s == a + part + b
  {
    if i :| 0 <= i <= |s| && part <= s[i..] {
      assert s == s[..i] + part + s[i + |part|..];
    }
    if a: seq<byte>, b: seq<byte> :| s == a + part + b {
      assert s[|a|..] == part + b;
    }
  }

  /**
    The server's reading of an upgrade request: the request is the header block,
    and it has to be shorter than the buffer.
   */
  predicate Upgrades(inbox: seq<byte>, path: seq<byte>, n: nat) {
    IsBlock(inbox, n) && n < MAX_UPGRADE_RESPONSE && Contains(inbox[..n], path)
  }

  /** No header block that the server's buffer can hold begins the text. */
  predicate NoBlockWithin(s: seq<byte>) { forall n: nat :: n < MAX_UPGRADE_RESPONSE ==> !IsBlock(s, n) }

  /** The next byte, if there is one, goes from the transport to the request. */
  method TakeByte(stream: Transport, reqBytes: seq<byte>) returns (byte: seq<byte>, taken: seq<byte>)
    modifies stream`inbox
    ensures |byte| <= 1 && taken == reqBytes + byte
    ensures reqBytes + old(stream.inbox) == taken + stream.inbox
    ensures byte == [] ==> stream.inbox == [] && taken == reqBytes
  {
    byte := stream.Read(1);
    taken := reqBytes + byte;
  }

  /** Reads byte by byte up to the blank line; the buffer must not fill up. */
  method ReadRequest(stream: Transport) returns (failure: Option<Outcome>, reqBytes: seq<byte>)
    modifies stream`inbox
    ensures old(stream.inbox) == reqBytes + stream.inbox
    ensures failure.None? ==> IsBlock(old(stream.inbox), |reqBytes|) && |reqBytes| < MAX_UPGRADE_RESPONSE
    ensures failure.Some? ==> failure == Some(TooBig) || failure == Some(Ended)
    ensures failure.Some? ==> NoBlockWithin(old(stream.inbox))
    ensures failure == Some(TooBig) ==> |reqBytes| == MAX_UPGRADE_RESPONSE && Runs(reqBytes)
    ensures failure == Some(Ended) ==> stream.inbox == [] && |reqBytes| < MAX_UPGRADE_RESPONSE
  {
    hide IsBlock, Runs, LfInRow, NoBlockWithin;
    ghost var inbox := stream.inbox;
    var lfInRow := 0;
    reqBytes := [];
    NothingScanned();
    while lfInRow < 2
      invariant inbox == reqBytes + stream.inbox
      invariant |reqBytes| < MAX_UPGRADE_RESPONSE
      invariant Runs(reqBytes) && LfInRow(reqBytes) == lfInRow
      decreases MAX_UPGRADE_RESPONSE - |reqBytes|
    {
      var byte, taken := TakeByte(stream, reqBytes);
      if byte == [] {
        NoneArrived(inbox, reqBytes);
        return Some(Ended), reqBytes;
      }
      RunsOn(reqBytes, byte);
      if byte[0] == LF {
        lfInRow := lfInRow + 1;
      } else if byte[0] != CR {
        lfInRow := 0;
      }
      reqBytes := taken;
      if |reqBytes| >= MAX_UPGRADE_RESPONSE {
        NoneFits(inbox, reqBytes);
        return Some(TooBig), reqBytes;
      }
    }
    Complete(inbox, reqBytes);
    failure := None;
  }

  /** A request at whose end two line feeds are in a row is the header block of what arrived. */
  lemma Complete(inbox: seq<byte>, front: seq<byte>)
    requires front <= inbox && Runs(front) && LfInRow(front) >= 2
    ensures IsBlock(inbox, |front|)
  {
    assert inbox[..|front|] == front;
    ScannerFindsBlock(inbox, |front|);
  }

  method ProcessHttpUpgrade(stream: Transport, urlPath: seq<byte>) returns (r: Outcome, ghost block: seq<byte>)
    modifies stream`inbox, stream`sent
    ensures old(stream.inbox) == block + stream.inbox
    ensures r.Switched? <==> exists n: nat :: Upgrades(old(stream.inbox), urlPath, n)
    ensures r.Switched? ==> Upgrades(old(stream.inbox), urlPath, |block|)
    ensures r.WrongRequest? ==> IsBlock(old(stream.inbox), |block|) && !Contains(block, urlPath)
    ensures r.TooBig? || r.Ended? ==> NoBlockWithin(old(stream.inbox))
    ensures r.TooBig? ==> |block| == MAX_UPGRADE_RESPONSE && Runs(block)
    ensures r.Ended? ==> stream.inbox == [] && |block| < MAX_UPGRADE_RESPONSE
    ensures stream.sent == old(stream.sent) + if r.Switched? then SwitchingProtocols() else []
  {
    ghost var inbox := stream.inbox;
    var failure, req := ReadRequest(stream);
    block := req;
    hide IsBlock, Runs, Contains, SwitchingProtocols, NoBlockWithin, Upgrades;
    if failure.Some? {
      NothingToAnswer(inbox, urlPath);
      return failure.value, block;
    }
    BlockEnd(inbox, |block|);
    OneBlock(inbox, urlPath, block);
    if !Contains(req, urlPath) || req[|req| - 1] != LF {
      return WrongRequest, block;
    }
    stream.WriteAll(SwitchingProtocols());
    r := Switched;
  }

  lemma NothingToAnswer(inbox: seq<byte>, path: seq<byte>)
    requires NoBlockWithin(inbox)
    ensures forall n: nat :: !Upgrades(inbox, path, n)
  {
  }

  /** The one header block decides. */
  lemma OneBlock(inbox: seq<byte>, path: seq<byte>, block: seq<byte>)
    requires block <= inbox && IsBlock(inbox, |block|) && |block| < MAX_UPGRADE_RESPONSE
    ensures Upgrades(inbox, path, |block|) <==> Contains(block, path)
    ensures forall n: nat :: Upgrades(inbox, path, n) ==> n == |block|
  {
    hide IsBlock, Contains;
    assert inbox[..|block|] == block;
    forall n: nat | Upgrades(inbox, path, n) ensures n == |block| {
      UniqueBlock(inbox, n, |block|);
    }
  }

  /**
    The client's request, with whatever follows it, is answered and exactly consumed
    if and only if host and path are short enough together.
   */
  method AnswerRequest(stream: Transport, host: seq<byte>, path: seq<byte>, ghost rest: seq<byte>) returns (r: Outcome)
    requires LF !in host && LF !in path
    requires stream.inbox == UpgradeRequest(host, path) + rest
    modifies stream`inbox, stream`sent
    ensures r.Switched? <==> |host| + |path| < 188
    ensures r.Switched? ==> stream.inbox == rest && stream.sent == old(stream.sent) + SwitchingProtocols()
    ensures !r.Switched? ==> stream.sent == old(stream.sent)
  {
    hide Upgrades, UpgradeRequest, SwitchingProtocols, IsBlock, NoBlockWithin, Runs, Contains;
    ghost var request, inbox := UpgradeRequest(host, path), stream.inbox;
    ghost var block;
    r, block := ProcessHttpUpgrade(stream, path);
    forall n: nat ensures Upgrades(inbox, path, n) <==> n == |request| && |host| + |path| < 188 {
      RequestIsScanned(host, path, rest, n);
    }
    if r.Switched? {
      SameSplit(block, stream.inbox, request, rest);
    } else {
      assert !Upgrades(inbox, path, |request|);
    }
  }

  lemma SameSplit(a: seq<byte>, b: seq<byte>, c: seq<byte>, d: seq<byte>)
    requires a + b == c + d && |a| == |c|
    ensures a == c && b == d
  {
    assert a == (a + b)[..|a|] && b == (a + b)[|a|..];
  }

  lemma BlockEnd(s: seq<byte>, n: nat)
    requires IsBlock(s, n)
    ensures n > 0 && s[n - 1] == LF
  {
  }

  lemma NothingScanned()
    ensures Runs([]) && LfInRow([]) == 0
  {
  }

  /** A scan that has not stopped has passed no header block. */
  lemma NoneBefore(inbox: seq<byte>, front: seq<byte>, n: nat)
    requires front <= inbox && Runs(front)
    requires n < |front| || (n == |front| && LfInRow(front) < 2)
    ensures !IsBlock(inbox, n)
  {
    assert inbox[..n] == front[..n];
    if n == |front| { assert front[..n] == front; }
    ScannerFindsBlock(inbox, n);
  }

  lemma NoneArrived(inbox: seq<byte>, front: seq<byte>)
    requires front == inbox && Runs(front) && LfInRow(front) < 2
    ensures NoBlockWithin(inbox)
  {
    forall n: nat | n <= |front| ensures !IsBlock(inbox, n) {
      NoneBefore(inbox, front, n);
    }
  }

  lemma NoneFits(inbox: seq<byte>, front: seq<byte>)
    requires front <= inbox && Runs(front) && |front| >= MAX_UPGRADE_RESPONSE
    ensures NoBlockWithin(inbox)
  {
    forall n: nat | n < |front| ensures !IsBlock(inbox, n) {
      NoneBefore(inbox, front, n);
    }
  }

  // ---------------------------------------------------------------------
  // What the two sides send

  function Ascii(s: string): (a: seq<byte>)
    ensures |a| == |s| && forall i :: 0 <= i < |s| && s[i] as int < 0x100 ==> a[i] == s[i] as int
  {
    seq(|s|, i requires 0 <= i < |s| => s[i] as int % 0x100)
  }

  /** A header line: no line feed in it, and not blank. */
  predicate IsLine(s: seq<byte>) { LF !in s && !Crs(s) }

  function Lines(lines: seq<seq<byte>>): seq<byte> {
    if lines == [] then [] else Lines(lines[..|lines| - 1]) + lines[|lines| - 1] + [CR, LF]
  }

  /** Header lines, each ended by CRLF, and a blank line. */
  function Block(lines: seq<seq<byte>>): seq<byte> { Lines(lines) + [CR, LF] }

  function SwitchingProtocols(): seq<byte> {
    Block([Ascii("HTTP/1.1 101 Switching Protocols"), Ascii("Upgrade: cconnect"), Ascii("Connection: Upgrade")])
  }

  function UpgradeRequest(host: seq<byte>, path: seq<byte>): seq<byte> {
    Block([Ascii("GET /") + path + Ascii(" HTTP/1.1"), Ascii("Host: ") + host,
           Ascii("Connection: upgrade"), Ascii("Upgrade: websocket")])
  }

  /** Within a line the scanner forgets the line feed before it. */
  lemma {:induction false} ScanLine(front: seq<byte>, line: seq<byte>)
    requires Runs(front) && LfInRow(front) < 2 && LF !in line
    ensures Runs(front + line)
    ensures LfInRow(front + line) == if Crs(line) then LfInRow(front) else 0
  {
    if line == [] {
      assert front + line == front;
    } else {
      var init, last := line[..|line| - 1], line[|line| - 1];
      assert line == init + [last] && last in line;
      ScanLine(front, init);
      RunsOn(front + init, [last]);
      assert front + line == (front + init) + [last];
      CrsAppend(init, last);
    }
  }

  lemma ScanCrLf(front: seq<byte>)
    requires Runs(front) && LfInRow(front) < 2
    ensures Runs(front + [CR, LF]) && LfInRow(front + [CR, LF]) == LfInRow(front) + 1
  {
    RunsOn(front, [CR]);
    RunsOn(front + [CR], [LF]);
    assert (front + [CR]) + [LF] == front + [CR, LF];
  }

  lemma {:induction false} ScanLines(lines: seq<seq<byte>>)
    requires forall l <- lines :: IsLine(l)
    ensures Runs(Lines(lines)) && LfInRow(Lines(lines)) == if lines == [] then 0 else 1
  {
    if lines != [] {
      var init, last := lines[..|lines| - 1], lines[|lines| - 1];
      ScanLines(init);
      assert IsLine(last);
      ScanLine(Lines(init), last);
      ScanCrLf(Lines(init) + last);
    }
  }

  /** A block of lines is its own header block, whatever comes after it. */
  lemma BlockIsBlock(lines: seq<seq<byte>>, after: seq<byte>)
    requires lines != [] && forall l <- lines :: IsLine(l)
    ensures IsBlock(Block(lines) + after, |Block(lines)|)
  {
    ScanLines(lines);
    ScanCrLf(Lines(lines));
    assert (Block(lines) + after)[..|Block(lines)|] == Block(lines);
    ScannerFindsBlock(Block(lines) + after, |Block(lines)|);
  }

  lemma UniqueBlock(s: seq<byte>, m: nat, n: nat)
    requires IsBlock(s, m) && IsBlock(s, n)
    ensures m == n
  {
  }

  predicate Printable(s: string) { forall i :: 0 <= i < |s| ==> ' ' <= s[i] <= '~' }

  lemma PrintableLine(s: string)
    requires Printable(s) && s != ""
    ensures IsLine(Ascii(s))
  {
    NotBlank(Ascii(s));
  }

  lemma ConstantLines()
    ensures IsLine(Ascii("HTTP/1.1 101 Switching Protocols"))
    ensures IsLine(Ascii("Upgrade: cconnect"))
    ensures IsLine(Ascii("Connection: Upgrade"))
    ensures IsLine(Ascii("Connection: upgrade"))
    ensures IsLine(Ascii("Upgrade: websocket"))
  {
    hide Ascii, IsLine;
    PrintableLine("HTTP/1.1 101 Switching Protocols");
    PrintableLine("Upgrade: cconnect");
    PrintableLine("Connection: Upgrade");
    PrintableLine("Connection: upgrade");
    PrintableLine("Upgrade: websocket");
  }

  lemma NotBlank(s: seq<byte>)
    requires s != [] && s[0] != CR
    ensures !Crs(s)
  {
    assert s[0] in s;
  }

  lemma ThreeLines(a: seq<byte>, b: seq<byte>, c: seq<byte>)
    ensures Lines([a, b, c]) == a + [CR, LF] + b + [CR, LF] + c + [CR, LF]
  {
    assert [a, b, c][..2] == [a, b] && [a, b][..1] == [a] && [a][..0] == [];
    assert Lines([a]) == Lines([]) + a + [CR, LF];
    assert Lines([a, b]) == Lines([a]) + b + [CR, LF];
  }

  lemma FourLines(a: seq<byte>, b: seq<byte>, c: seq<byte>, d: seq<byte>)
    ensures Lines([a, b, c, d]) == a + [CR, LF] + b + [CR, LF] + c + [CR, LF] + d + [CR, LF]
  {
    assert [a, b, c, d][..3] == [a, b, c] && [a, b, c][..2] == [a, b] && [a, b][..1] == [a] && [a][..0] == [];
    assert Lines([a]) == a + [CR, LF];
    assert Lines([a, b]) == Lines([a]) + b + [CR, LF];
    assert Lines([a, b, c]) == Lines([a, b]) + c + [CR, LF];
  }

  /** The request as it goes out: path and host in their places, line after line. */
  lemma RequestText(host: seq<byte>, path: seq<byte>)
    ensures UpgradeRequest(host, path)
         == Ascii("GET /") + path + Ascii(" HTTP/1.1") + [CR, LF] + Ascii("Host: ") + host + [CR, LF]
            + Ascii("Connection: upgrade") + [CR, LF] + Ascii("Upgrade: websocket") + [CR, LF] + [CR, LF]
  {
    var get, to := Ascii("GET /") + path + Ascii(" HTTP/1.1"), Ascii("Host: ") + host;
    FourLines(get, to, Ascii("Connection: upgrade"), Ascii("Upgrade: websocket"));
    hide Lines, Ascii;
    assert get + [CR, LF] + to == get + [CR, LF] + Ascii("Host: ") + host;
  }

  /** The reply, its status line first. */
  lemma ReplyText()
    ensures SwitchingProtocols()
         == Ascii("HTTP/1.1 101 Switching Protocols") + [CR, LF] + Ascii("Upgrade: cconnect") + [CR, LF]
            + Ascii("Connection: Upgrade") + [CR, LF] + [CR, LF]
  {
    ThreeLines(Ascii("HTTP/1.1 101 Switching Protocols"), Ascii("Upgrade: cconnect"), Ascii("Connection: Upgrade"));
    hide Lines, Ascii;
  }

  /** The client's scanner takes exactly the server's answer and nothing of what follows. */
  lemma ReplyIsScanned(after: seq<byte>)
    ensures IsBlock(SwitchingProtocols() + after, |SwitchingProtocols()|)
    ensures |SwitchingProtocols()| <= MAX_UPGRADE_RESPONSE
  {
    ConstantLines();
    var lines := [Ascii("HTTP/1.1 101 Switching Protocols"), Ascii("Upgrade: cconnect"), Ascii("Connection: Upgrade")];
    BlockIsBlock(lines, after);
    ThreeLines(lines[0], lines[1], lines[2]);
  }

  /** A header block at the front of a text is the header block of the text. */
  lemma BlockOfFront(front: seq<byte>, total: seq<byte>)
    requires IsBlock(front, |front|) && front <= total
    ensures IsBlock(total, |front|)
  {
    forall m: nat | m <= |front| ensures total[..m] == front[..m] {
      assert total[..|front|][..m] == total[..m];
    }
  }

  /** A scan that has ended has consumed exactly the answer, whatever answer it was. */
  lemma HandOff(response: seq<byte>, answer: seq<byte>, after: seq<byte>)
    requires IsBlock(response, |response|) && response <= answer + after
    requires IsBlock(answer + after, |answer|)
    ensures response == answer
  {
    BlockOfFront(response, answer + after);
    UniqueBlock(answer + after, |response|, |answer|);
    assert (answer + after)[..|answer|] == answer;
  }

  /**
    The client's request, arriving as it was sent, is consumed exactly and
    answered if and only if host and path leave it shorter than the server's buffer.
   */
  lemma RequestIsScanned(host: seq<byte>, path: seq<byte>, after: seq<byte>, n: nat)
    requires LF !in host && LF !in path
    ensures IsBlock(UpgradeRequest(host, path) + after, |UpgradeRequest(host, path)|)
    ensures Upgrades(UpgradeRequest(host, path) + after, path, n)
       <==> n == |UpgradeRequest(host, path)| && |host| + |path| < 188
  {
    var get, to := Ascii("GET /") + path + Ascii(" HTTP/1.1"), Ascii("Host: ") + host;
    var lines := [get, to, Ascii("Connection: upgrade"), Ascii("Upgrade: websocket")];
    var request := Block(lines);
    ConstantLines();
    VariableLines(host, path);
    FourLines(get, to, lines[2], lines[3]);
    assert |request| == 67 + |host| + |path|;
    hide Lines, Block, IsLine, IsBlock, Ascii, Contains;
    BlockIsBlock(lines, after);
    PathInside(path, request, after);
    if IsBlock(request + after, n) {
      UniqueBlock(request + after, n, |request|);
    }
  }

  lemma VariableLines(host: seq<byte>, path: seq<byte>)
    requires LF !in host && LF !in path
    ensures IsLine(Ascii("GET /") + path + Ascii(" HTTP/1.1")) && IsLine(Ascii("Host: ") + host)
  {
    PrintableLine("GET /");
    PrintableLine(" HTTP/1.1");
    PrintableLine("Host: ");
    NotBlank(Ascii("GET /") + path + Ascii(" HTTP/1.1"));
    NotBlank(Ascii("Host: ") + host);
  }

  lemma PathInside(path: seq<byte>, request: seq<byte>, after: seq<byte>)
    requires |request| >= 5 && path <= request[5..]
    ensures (request + after)[..|request|] == request && Contains(request, path)
  {
  }
}
