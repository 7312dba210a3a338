/** The kernel side of the servers: open descriptors, the epoll interest set, and the answers system
    calls give. The answers are scripts fixed by nobody: every property holds for all of them. */
module Kernel {
  import opened Text

  datatype Errno = NoError | Again | Interrupted | OtherError

  /** What one recv into a buffer of 1024 bytes (one kept for the terminator) can deliver. */
  type Chunk = s: string | 0 < |s| < 1024 witness "x"

  datatype RecvResult = Data(bytes: Chunk) | Eof | RecvFailed(errno: Errno)
  datatype SendResult = Took(n: nat) | SendFailed(errno: Errno)
  datatype AcceptResult = Incoming | AcceptFailed(errno: Errno)

  /** An epoll event mask: EPOLLIN, EPOLLOUT, EPOLLET. */
  datatype Mask = Mask(rd: bool, wr: bool, et: bool)

  /** One entry epoll_wait fills in. */
  datatype Ready = Ready(fd: int, rd: bool, wr: bool, hup: bool, err: bool)

  predicate DistinctFds(batch: seq<Ready>) {
    forall i, j | 0 <= i < j < |batch| :: batch[i].fd != batch[j].fd
  }

  lemma {:induction false} FreshDescriptor(open: set<int>) returns (fd: int)
    ensures 0 <= fd && forall d | d in open :: d < fd
    decreases open
  {
    if d :| d in open {
      fd := FreshDescriptor(open - {d});
      assert forall e | e in open :: e == d || e in open - {d};
      if fd <= d {
        fd := d + 1;
      }
    } else {
      fd := 0;
    }
  }

  /** The answers still to come. */
  datatype Scripts = Scripts(recvs: seq<RecvResult>, sends: seq<SendResult>, accepts: seq<AcceptResult>)

  /** What went over a descriptor between its opening and its closing. */
  datatype Stream = Stream(rx: seq<string>, tx: string)

  /** One return of epoll_wait: the answers left over when it was called, those there are afterwards, and
      the events. */
  datatype Waited = Waited(leftOver: Scripts, toCome: Scripts, events: seq<Ready>)

  /** The kernel's own record: for each descriptor the chunks recv delivered and the bytes send took since it
      was opened; the streams that ended, in order; the descriptors recv was called on and how often accept
      was; what epoll_wait, and what select or poll, reported. */
  datatype Record = Record(
    recvd: map<int, seq<string>>, sent: map<int, string>, ended: seq<Stream>,
    asked: seq<int>, acceptCalls: nat, waits: seq<Waited>, reports: seq<set<int>>)
  {
    function RecvdOn(fd: int): seq<string> { if fd in recvd then recvd[fd] else [] }

    function SentOn(fd: int): string { if fd in sent then sent[fd] else "" }

    function Received(fd: int, bytes: string): Record { this.(recvd := recvd[fd := RecvdOn(fd) + [bytes]]) }

    function Took(fd: int, bytes: string): Record { this.(sent := sent[fd := SentOn(fd) + bytes]) }

    function Opened(fd: int): Record { this.(recvd := recvd - {fd}, sent := sent - {fd}) }

    function Closed(fd: int): Record {
      this.(recvd := recvd - {fd}, sent := sent - {fd}, ended := ended + [Stream(RecvdOn(fd), SentOn(fd))])
    }
  }

  /** Between the two records `bytes` went out on `fd`, and nothing else happened. */
  ghost predicate OnlySent(before: Record, after: Record, fd: int, bytes: string) {
    && after.(sent := before.sent) == before
    && after.SentOn(fd) == before.SentOn(fd) + bytes
    && forall g | g != fd :: after.SentOn(g) == before.SentOn(g)
  }

  /** Between them `chunks` came in on `fd`, recv was called on it and on no other, and nothing else happened. */
  ghost predicate OnlyReceived(before: Record, after: Record, fd: int, chunks: seq<string>) {
    && after.(recvd := before.recvd, asked := before.asked) == before
    && after.RecvdOn(fd) == before.RecvdOn(fd) + chunks
    && (forall g | g != fd :: after.RecvdOn(g) == before.RecvdOn(g))
    && before.asked <= after.asked && forall d | d in after.asked[|before.asked|..] :: d == fd
  }

  lemma NothingSentYet(before: Record, fd: int, tx: string)
    ensures OnlySent(before, before, fd, tx[|tx|..])
  {}

  lemma SentMore(before: Record, after: Record, fd: int, start: nat, tx: string, bytes: string)
    requires start <= |tx| && OnlySent(before, after, fd, tx[start..])
    ensures OnlySent(before, after.Took(fd, bytes), fd, (tx + bytes)[start..])
  {
    assert (tx + bytes)[start..] == tx[start..] + bytes;
    assert before.SentOn(fd) + tx[start..] + bytes == before.SentOn(fd) + (tx[start..] + bytes);
  }

  lemma NothingReceivedYet(before: Record, fd: int, rx: seq<string>)
    ensures OnlyReceived(before, before, fd, rx[|rx|..])
  {}

  lemma ReceivedMore(before: Record, after: Record, fd: int, start: nat, rx: seq<string>, bytes: string)
    requires start <= |rx| && OnlyReceived(before, after, fd, rx[start..])
    ensures var asked := after.(asked := after.asked + [fd]);
            && OnlyReceived(before, asked, fd, rx[start..])
            && OnlyReceived(before, asked.Received(fd, bytes), fd, (rx + [bytes])[start..])
  {
    assert (rx + [bytes])[start..] == rx[start..] + [bytes];
    assert before.RecvdOn(fd) + rx[start..] + [bytes] == before.RecvdOn(fd) + (rx[start..] + [bytes]);
    assert (after.asked + [fd])[|before.asked|..] == after.asked[|before.asked|..] + [fd];
  }

  const NO_RECORD: Record := Record(map[], map[], [], [], 0, [], [])

  class Sockets {
    var open: set<int>
    var interest: map<int, Mask>
    var recvs: seq<RecvResult>
    var sends: seq<SendResult>
    var accepts: seq<AcceptResult>
    ghost var record: Record

    constructor (listenfd: int)
      ensures open == {listenfd} && interest == map[] && record == NO_RECORD
    {
      open, interest, recvs, sends, accepts, record := {listenfd}, map[], [], [], [], NO_RECORD;
    }

    ghost function ToCome(): Scripts
      reads `recvs, `sends, `accepts
    {
      Scripts(recvs, sends, accepts)
    }

    /** recv; no answer means that the call has not come back (yet). */
    method Recv(fd: int) returns (r: Option<RecvResult>)
      requires fd in open
      modifies `recvs, `record
      ensures if r.None? then old(recvs) == recvs == [] else old(recvs) == [r.value] + recvs
      ensures var asked := old(record).(asked := old(record).asked + [fd]);
              record == if r.Some? && r.value.Data? then asked.Received(fd, r.value.bytes) else asked
    {
      record := record.(asked := record.asked + [fd]);
      if recvs == [] {
        return None;
      }
      r := Some(recvs[0]);
      recvs := recvs[1..];
      if r.value.Data? {
        record := record.Received(fd, r.value.bytes);
      }
    }

    /** send: takes a prefix of `buf`, perhaps short, or fails. */
    method Send(fd: int, buf: string) returns (r: Option<SendResult>)
      requires fd in open
      modifies `sends, `record
      ensures if r.None? then old(sends) == sends == []
              else |old(sends)| > 0 && sends == old(sends)[1..] && r.value == Clip(old(sends)[0], |buf|)
      ensures record == if r.Some? && r.value.Took? then old(record).Took(fd, buf[..r.value.n]) else old(record)
    {
      if sends == [] {
        return None;
      }
      r := Some(Clip(sends[0], |buf|));
      sends := sends[1..];
      if r.value.Took? {
        record := record.Took(fd, buf[..r.value.n]);
      }
    }

    /** accept: a descriptor number that is not in use, any such number. */
    method Accept() returns (r: Option<AcceptResult>, fd: int)
      modifies `accepts, `open, `record
      ensures if r.None? then old(accepts) == accepts == [] else old(accepts) == [r.value] + accepts
      ensures if r == Some(Incoming) then 0 <= fd && fd !in old(open) && open == old(open) + {fd}
              else fd == -1 && open == old(open)
      ensures var called := old(record).(acceptCalls := old(record).acceptCalls + 1);
              record == if r == Some(Incoming) then called.Opened(fd) else called
    {
      record := record.(acceptCalls := record.acceptCalls + 1);
      fd := -1;
      if accepts == [] {
        return None, fd;
      }
      r := Some(accepts[0]);
      accepts := accepts[1..];
      if r.value == Incoming {
        ghost var unused := FreshDescriptor(open);
        assert unused !in open;
        fd :| 0 <= fd && fd !in open;
        open := open + {fd};
        record := record.Opened(fd);
      }
    }

    /** close also takes the descriptor out of the epoll set. */
    method Close(fd: int)
      requires fd in open
      modifies `open, `interest, `record
      ensures open == old(open) - {fd} && interest == old(interest) - {fd}
      ensures record == old(record).Closed(fd)
    {
      open, interest, record := open - {fd}, interest - {fd}, record.Closed(fd);
    }

    /** EPOLL_CTL_ADD refuses a descriptor that is closed or already watched. */
    method Add(fd: int, m: Mask) returns (ok: bool)
      modifies `interest
      ensures ok <==> fd in open && fd !in old(interest)
      ensures interest == if ok then old(interest)[fd := m] else old(interest)
    {
      ok := fd in open && fd !in interest;
      if ok {
        interest := interest[fd := m];
      }
    }

    /** EPOLL_CTL_MOD refuses a descriptor that is not watched. */
    method Mod(fd: int, m: Mask) returns (ok: bool)
      modifies `interest
      ensures ok <==> fd in old(interest)
      ensures interest == if ok then old(interest)[fd := m] else old(interest)
    {
      ok := fd in interest;
      if ok {
        interest := interest[fd := m];
      }
    }

    method Del(fd: int) returns (ok: bool)
      modifies `interest
      ensures ok <==> fd in old(interest)
      ensures interest == old(interest) - {fd}
    {
      ok := fd in interest;
      interest := interest - {fd};
    }

    /** Time passes: the next system calls may answer anything. */
    method Elapse()
      modifies `recvs, `sends, `accepts
    {
      recvs, sends, accepts := *, *, *;
    }

    /** epoll_wait: distinct watched descriptors, at most `most` of them. */
    method Wait(most: nat) returns (batch: seq<Ready>)
      modifies `recvs, `sends, `accepts, `record
      ensures |batch| <= most && DistinctFds(batch)
      ensures forall r | r in batch :: r.fd in interest
      ensures record == old(record).(waits := old(record).waits + [Waited(old(ToCome()), ToCome(), batch)])
    {
      Elapse();
      batch := *;
      if |batch| > most || !DistinctFds(batch) || exists r | r in batch :: r.fd !in interest {
        batch := [];
      }
      record := record.(waits := record.waits + [Waited(old(ToCome()), ToCome(), batch)]);
    }

    /** select, or poll: some of the descriptors asked about are readable. */
    method Select(asked: set<int>) returns (ready: set<int>)
      modifies `recvs, `sends, `accepts, `record
      ensures ready <= asked
      ensures record == old(record).(reports := old(record).reports + [ready])
    {
      Elapse();
      ready := *;
      ready := ready * asked;
      record := record.(reports := record.reports + [ready]);
    }
  }

  function Clip(r: SendResult, size: nat): SendResult {
    if r.Took? && r.n > size then Took(size) else r
  }
}
