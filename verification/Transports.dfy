/** The transport under a stream: it takes and gives any number of bytes, or none, at each poll. */
module Transports {
  import opened Bytes

  /** `Stuck`: nothing could be done now (`Poll::Pending`); `Broken`: an error. */
  datatype Poll<+T> = Stuck | Done(value: T) | Broken(error: Error)

  datatype Error = Io | Eof | Invalid

  class Transport {
    var inbox: seq<byte>  // arrived and not yet read
    var ended: bool       // nothing will arrive after the inbox
    var sent: seq<byte>   // everything the transport has taken, in order
    ghost var stalls: nat // how many polls were answered with `Stuck`
    ghost var faults: nat // how many polls were answered with `Broken`, or took nothing of what they were offered

    constructor ()
      ensures inbox == [] && sent == [] && !ended
    {
      inbox, sent, ended, stalls, faults := [], [], false, 0, 0;
    }

    /** No bytes, where there is room for some, mean that the transport has ended. */
    method PollRead(limit: nat) returns (r: Poll<seq<byte>>)
      modifies this`inbox, this`stalls, this`faults
      ensures r.Done? ==> |r.value| <= limit && old(inbox) == r.value + inbox
      ensures r.Done? && r.value == [] ==> limit == 0 || (inbox == [] && ended)
      ensures !r.Done? ==> inbox == old(inbox)
      ensures r.Broken? ==> r.error == Io
      ensures stalls == old(stalls) + (if r.Stuck? then 1 else 0)
      ensures faults == old(faults) + (if r.Broken? then 1 else 0)
    {
      if * {
        r, faults := Broken(Io), faults + 1;
      } else if * {
        r, stalls := Stuck, stalls + 1;
      } else if limit == 0 {
        r := Done([]);
        assert old(inbox) == [] + inbox;
      } else if inbox != [] {
        assert 1 <= limit && 1 <= |inbox|;
        var n: nat :| 0 < n && n <= limit && n <= |inbox|;
        r, inbox := Done(inbox[..n]), inbox[n..];
      } else if ended {
        r := Done([]);
      } else {
        r, stalls := Stuck, stalls + 1;
      }
    }

    method PollWrite(data: seq<byte>) returns (r: Poll<nat>)
      modifies this`sent, this`stalls, this`faults
      ensures r.Done? ==> r.value <= |data| && sent == old(sent) + data[..r.value]
      ensures !r.Done? ==> sent == old(sent)
      ensures r.Broken? ==> r.error == Io
      ensures stalls == old(stalls) + (if r.Stuck? then 1 else 0)
      ensures faults == old(faults) + (if r.Broken? || (r == Done(0) && data != []) then 1 else 0)
    {
      if * {
        r, faults := Broken(Io), faults + 1;
      } else if * {
        r, stalls := Stuck, stalls + 1;
      } else {
        var n :| 0 <= n <= |data|;
        r, sent := Done(n), sent + data[..n];
        if n == 0 && data != [] { faults := faults + 1; }
      }
    }

    method PollFlush() returns (r: Poll<()>)
      modifies this`stalls, this`faults
      ensures r.Broken? ==> r.error == Io
      ensures stalls == old(stalls) + (if r.Stuck? then 1 else 0)
      ensures faults == old(faults) + (if r.Broken? then 1 else 0)
    {
      if * {
        r, faults := Broken(Io), faults + 1;
      } else if * {
        r, stalls := Stuck, stalls + 1;
      } else {
        r := Done(());
      }
    }

    /** A plain read takes what has arrived, up to `limit` bytes. */
    method Read(limit: nat) returns (bytes: seq<byte>)
      modifies this`inbox
      ensures bytes == old(inbox)[..Min(limit, |old(inbox)|)]
      ensures old(inbox) == bytes + inbox
    {
      bytes := inbox[..Min(limit, |inbox|)];
      inbox := inbox[|bytes|..];
    }

    method WriteAll(data: seq<byte>)
      modifies this`sent
      ensures sent == old(sent) + data
    {
      sent := sent + data;
    }
  }
}
