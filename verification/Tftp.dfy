/** The TFTP client: lock-step block transfer into a buffer that slides over
    the remote file. */
module Tftp {
  import opened Bytes
  import opened TftpCount
  import opened TftpDirectory
  import opened TftpMachine
  import opened TftpOack
  import opened TftpProtocol
  import opened TftpReader
  import opened TftpTracks

  class Client {
    const buf: array<byte>
    var block: nat
    var prevblock: nat
    var bcounter: nat
    var packetsize: int
    var bufEof: bool
    var bufRead: nat
    var savedFilepos: nat
    var filepos: nat
    var filemax: int
    var retry: nat
    var errnum: Errnum
    /** The replies still to come for the current request, and for later ones. */
    var net: seq<Reply>
    var sessions: seq<Session>
    /** The answers given and the options read in this transfer, and the block
        size the server uses. */
    ghost var sent: seq<Sent>
    ghost var options: seq<OackOption>
    ghost var blksize: nat

    /** A client whose requests will be answered by the sessions, in turn. */
    constructor (sessions: seq<Session>)
      ensures buf.Length == FSYS_BUFLEN && fresh(buf) && this.sessions == sessions && filepos == 0
    {
      buf := new byte[FSYS_BUFLEN](_ => 0);
      block, prevblock, bcounter, packetsize, bufEof, bufRead := 0, 0, 0, TFTP_DEFAULTSIZE_PACKET, false, 0;
      savedFilepos, filepos, filemax, retry, errnum, net := 0, 0, -1, 0, NoError, [];
      this.sessions, sent, options, blksize := sessions, [], [], TFTP_DEFAULTSIZE_PACKET;
    }

    ghost predicate Shape() reads this {
      && buf.Length == FSYS_BUFLEN && bufRead <= FSYS_BUFLEN
      && prevblock == bcounter && (!bufEof ==> block == prevblock)
    }

    ghost function State(): Transfer
      requires bufRead <= buf.Length
      reads this, buf
    {
      Transfer(buf[..bufRead], prevblock, packetsize, bufEof, filemax, retry, net, sent, options)
    }

    ghost function Now(): Reader
      requires bufRead <= buf.Length
      reads this, buf
    {
      Reader(State(), savedFilepos, filepos, sessions, blksize)
    }

    ghost predicate Valid() reads this, buf {
      Shape() && Sound(State())
    }

    // -------------------------------------------------------------------- one packet

    /** Goes along with one option, or not. */
    method ParseOption(o: OackOption) returns (ok: bool)
      modifies this`packetsize, this`filemax, this`options
      ensures ok <==> Acceptable(o)
      ensures Terms(packetsize, filemax) == ReadOption(Terms(old(packetsize), old(filemax)), o)
      ensures options == old(options) + [o]
    {
      options := options + [o];
      match o {
        case Blksize(n) =>
          packetsize := n;
          if n < TFTP_DEFAULTSIZE_PACKET { return false; }
        case Tsize(n) =>
          filemax := n;
          if n < 0 { filemax := -1; return false; }
        case Unknown =>
          return false;
      }
      ok := true;
    }

    /** Reads the text of an OACK option by option; an unacceptable one ends the
        transfer. */
    method ParseOack(udpLen: nat, data: string) returns (ok: bool)
      modifies this`packetsize, this`filemax, this`options
      ensures var list := OptionsIn(data, udpLen);
        && (ok <==> AllAcceptable(list))
        && Terms(packetsize, filemax) == TermsAfter(Terms(old(packetsize), old(filemax)), OptionsRead(list))
        && options == old(options) + OptionsRead(list)
    {
      ghost var start := Terms(packetsize, filemax);
      UnfoldOptions(data, udpLen);
      var len := OackLength(udpLen);
      if len > TFTP_MAX_PACKET {
        OneMoreRead([Unknown], start, options, [], Unknown, [Unknown]);
        assert options + [] == options;
        ok := ParseOption(Unknown);
      } else {
        ok := ParseText(data, len, OptionsFrom(data, len, 0));
      }
    }

    /** The loop over the text, which ends before e. */
    method ParseText(data: string, e: nat, ghost list: seq<OackOption>) returns (ok: bool)
      requires list == OptionsFrom(data, e, 0)
      modifies this`packetsize, this`filemax, this`options
      ensures ok <==> AllAcceptable(list)
      ensures Terms(packetsize, filemax) == TermsAfter(Terms(old(packetsize), old(filemax)), OptionsRead(list))
      ensures options == old(options) + OptionsRead(list)
    {
      ghost var start, before := Terms(packetsize, filemax), options;
      ghost var done, rest: seq<OackOption> := [], list;
      var p: nat := 0;
      while !AtEnd(data, e, p)
        invariant rest == OptionsFrom(data, e, p) && list == done + rest && AllAcceptable(done)
        invariant options == before + done && Terms(packetsize, filemax) == TermsAfter(start, done)
        decreases |data| - p
      {
        var o, q := ReadOptionAt(data, e, p);
        FromNext(data, e, p, o, q);
        OneMoreRead(list, start, before, done, o, rest);
        var accepted := ParseOption(o);
        if !accepted { return false; }
        done, rest, p := done + [o], rest[1..], q;
      }
      FromEnd(data, e, p);
      if p > e {
        OneMoreRead(list, start, before, done, Unknown, rest);
        ok := ParseOption(Unknown);
      } else {
        assert list == done;
        AllRead(list);
        ok := true;
      }
    }

    /** Takes the len bytes of block prevblock + 1 into the buffer. */
    method Append(download: seq<byte>, len: nat)
      requires buf.Length == FSYS_BUFLEN && prevblock == bcounter && block == prevblock + 1
      requires bufRead + len <= FSYS_BUFLEN && len <= |download| && !bufEof
      modifies this`prevblock, this`bcounter, this`bufEof, this`bufRead, this`retry, buf
      ensures Shape() && prevblock == block && bufEof == (len < packetsize) && retry == 0
      ensures buf[..bufRead] == old(buf[..bufRead]) + download[..len]
    {
      prevblock := block;
      retry := 0;
      bcounter := bcounter + 1;
      CopyInto(buf, bufRead, download, len);
      Joined(buf[..], bufRead, bufRead + len);
      assert buf[..][0..bufRead] == buf[..bufRead];
      bufRead := bufRead + len;
      if len < packetsize { bufEof := true; }
    }

    /** Puts block back in order, answers and, if it is the next one, stores its
        len bytes. An OACK comes here with block 0. */
    method Acknowledge(download: seq<byte>, len: nat, abort: bool)
      requires buf.Length == FSYS_BUFLEN && bufRead <= FSYS_BUFLEN && prevblock == bcounter < 0x10000 && block < 0x10000 && !bufEof
      requires len <= |download| && (block == prevblock + 1 && !abort ==> bufRead + len <= FSYS_BUFLEN)
      modifies this`block, this`prevblock, this`bcounter, this`bufEof, this`bufRead, this`retry, this`sent, buf
      ensures Shape() && State() == Answer(old(State()), old(block), download[..len], abort).0
    {
      if (block != 0 || bcounter != 0) && block != prevblock + 1 {
        block := prevblock;
      }
      sent := sent + [if abort then Quit else Ack(block)];
      if abort {
        bufEof := true;
        return;
      }
      if (block - prevblock) % 0x10000 != 1 { return; }
      Append(download, len);
    }

    /** No packet came. The first request is sent again a limited number of
        times; the network is quiet when there are no replies left. */
    method AwaitFailed() returns (fate: Fate)
      requires Valid() && !bufEof && (net == [] || net[0].Timeout?)
      modifies this`retry, this`net
      ensures Shape() && (State(), fate) == Wait(old(State()))
    {
      var t := if net == [] then Timeout(false, true) else net[0];
      if net != [] { net := net[1..]; }
      if t.aborted { return Done(false); }
      if block != 0 { return Done(false); }
      retry := retry + 1;
      fate := if retry <= MAX_TFTP_RETRIES && t.resent then Again else Done(false);
    }

    method ReceiveOack(udpLen: nat, data: string, abort: bool) returns (fate: Fate)
      requires Valid() && !bufEof
      modifies this`block, this`prevblock, this`bcounter, this`packetsize, this`bufEof, this`bufRead,
        this`filemax, this`retry, this`sent, this`options, buf
      ensures Shape() && (State(), fate) == TakeOack(old(State()), OptionsIn(data, udpLen), abort)
    {
      if prevblock != 0 { return Again; }
      var accepted := ParseOack(udpLen, data);
      if !accepted {
        sent := sent + [Refusal];
        return Done(false);
      }
      block := 0;
      Acknowledge([], 0, abort);
      fate := if abort then Done(true) else Again;
    }

    method ReceiveData(k: nat, udpLen: nat, download: seq<byte>, abort: bool) returns (fate: Fate)
      requires Valid() && WellFormed(Data(k, udpLen, download)) && Wants(State())
      modifies this`block, this`prevblock, this`bcounter, this`bufEof, this`bufRead, this`retry, this`sent, buf
      ensures Shape() && (State(), fate) == TakeData(old(State()), k, udpLen, download, abort)
    {
      var len := DataLength(udpLen);
      if len > packetsize { return Again; }
      block := k;
      Acknowledge(download, len, abort);
      fate := if abort then Done(true) else Again;
    }

    /** Waits for a packet and processes it. */
    method Receive(abort: bool) returns (fate: Fate)
      requires Valid() && Wants(State())
      modifies this`block, this`prevblock, this`bcounter, this`packetsize, this`bufEof, this`bufRead,
        this`filemax, this`retry, this`net, this`sent, this`options, buf
      ensures Shape() && (State(), fate) == Step(old(State()), abort)
    {
      if net == [] || net[0].Timeout? {
        fate := AwaitFailed();
        return;
      }
      RestWellFormed(net);
      var tr := net[0];
      net := net[1..];
      match tr {
        case Error => return Done(false);
        case Oack(udpLen, data) => fate := ReceiveOack(udpLen, data, abort);
        case Data(k, udpLen, download) => fate := ReceiveData(k, udpLen, download, abort);
        case _ => return Done(true);
      }
    }

    // ------------------------------------------------------------- filling the buffer

    /** Receives into the buffer until it is full or the file has ended; with
        abort, ends the transfer instead. */
    method BufFill(abort: bool) returns (ok: bool)
      requires Valid()
      modifies this`block, this`prevblock, this`bcounter, this`packetsize, this`bufEof, this`bufRead,
        this`filemax, this`retry, this`net, this`sent, this`options, buf
      ensures Valid() && Follows(old(State()), State())
      ensures (State(), ok) == Filled(old(State()), abort)
    {
      ghost var start := State();
      FilledKeeps(start, abort);
      while !bufEof && bufRead + packetsize <= FSYS_BUFLEN
        invariant Valid() && Filled(State(), abort) == Filled(start, abort)
        decreases |net|, if retry <= MAX_TFTP_RETRIES then MAX_TFTP_RETRIES - retry + 1 else 0
      {
        ghost var t := State();
        StepKeeps(t, abort);
        StepShrinks(t, abort);
        FilledStep(t, abort);
        var fate := Receive(abort);
        if fate.Done? { return fate.ok; }
      }
      FilledStep(State(), abort);
      ok := true;
    }

    /** Starts a transfer of the file from its beginning. */
    method SendRrq() returns (ok: bool)
      requires buf.Length == FSYS_BUFLEN && WellFormedSessions(sessions)
      modifies this`retry, this`block, this`prevblock, this`packetsize, this`bcounter, this`bufEof, this`bufRead,
        this`savedFilepos, this`net, this`sessions, this`sent, this`options, this`blksize
      ensures Valid() && savedFilepos == 0 && sessions == LaterSessions(old(sessions))
      ensures var s := NextSession(old(sessions)); State() == Opened(s, filemax) && ok == s.sent && blksize == s.blksize
    {
      OpenedReady(sessions, filemax);
      var s := NextSession(sessions);
      sessions := LaterSessions(sessions);
      net, ok := s.replies, s.sent;
      retry, block, prevblock, packetsize, bcounter := 0, 0, 0, TFTP_DEFAULTSIZE_PACKET, 0;
      bufEof, bufRead, savedFilepos := false, 0, 0;
      sent, options, blksize := [], [], s.blksize;
      assert buf[..0] == [];
    }

    // ------------------------------------------------------------------------ reading

    /** Makes room: the second half of the buffer becomes the first. */
    method Slide()
      requires Valid() && bufRead >= FSYS_BUFLEN / 2
      modifies this`bufRead, this`savedFilepos, buf
      ensures Valid() && Now() == Dropped(old(Now()), FSYS_BUFLEN / 2)
    {
      ghost var was := buf[..];
      CopyInto(buf, 0, buf[FSYS_BUFLEN / 2..], FSYS_BUFLEN / 2);
      MovedDown(buf[..], was, FSYS_BUFLEN / 2, bufRead);
      assert buf[..bufRead - FSYS_BUFLEN / 2] == was[..bufRead][FSYS_BUFLEN / 2..];
      bufRead := bufRead - FSYS_BUFLEN / 2;
      savedFilepos := savedFilepos + FSYS_BUFLEN / 2;
    }

    /** Drops the whole buffer. */
    method Skip()
      requires Valid()
      modifies this`bufRead, this`savedFilepos
      ensures Valid() && Now() == Dropped(old(Now()), old(bufRead))
    {
      assert buf[..bufRead][bufRead..] == buf[..0];
      savedFilepos := savedFilepos + bufRead;
      bufRead := 0;
    }

    /** Takes up to left bytes at filepos from the buffer to addr[at..]; if
        there are none, the buffer is dropped. */
    method TakeBuffered(addr: array<byte>, at: nat, left: nat) returns (amt: nat, ghost bytes: seq<byte>)
      requires Valid() && filepos >= savedFilepos && addr != buf && left > 0 && at + left <= addr.Length
      modifies this`bufRead, this`savedFilepos, this`filepos, buf, addr
      ensures Valid() && Take(old(Now()), left) == (Now(), bytes) && amt == |bytes| <= left
      ensures addr[..] == old(addr[..at]) + bytes + old(addr[at + amt..])
    {
      ghost var r := Now();
      var n := bufRead + savedFilepos - filepos;
      if n > left { n := left; }
      if n > 0 {
        amt := n;
        bytes := CopyOut(addr, at, filepos - savedFilepos, n);
        filepos := filepos + n;
        if filepos - savedFilepos > FSYS_BUFLEN / 2 { Slide(); }
      } else {
        amt, bytes := 0, [];
        assert addr[..] == addr[..at] + [] + addr[at..];
        Skip();
      }
    }

    /** Copies n bytes from the buffer's off-th on. */
    method CopyOut(addr: array<byte>, at: nat, off: nat, n: nat) returns (ghost bytes: seq<byte>)
      requires addr != buf && bufRead <= buf.Length && off + n <= bufRead && at + n <= addr.Length
      modifies addr
      ensures bytes == buf[..bufRead][off..off + n]
      ensures addr[..] == old(addr[..at]) + bytes + old(addr[at + n..])
    {
      bytes := buf[..bufRead][off..off + n];
      SliceOfTake(buf[..], bufRead, off, off + n);
      CopyInto(addr, at, buf[off..], n);
      ThreeParts(addr[..], at, n);
    }

    /** One round of a read: takes what is buffered, then refills the buffer if
        more is wanted; an empty one is an error. */
    method ReadRound(addr: array<byte>, at: nat, left: nat) returns (amt: nat, ok: bool, ghost bytes: seq<byte>)
      requires Valid() && WellFormedSessions(sessions) && filepos >= savedFilepos
      requires addr != buf && left > 0 && at + left <= addr.Length
      modifies this`block, this`prevblock, this`bcounter, this`packetsize, this`bufEof, this`bufRead, this`filemax,
        this`retry, this`net, this`sent, this`options, this`errnum, this`savedFilepos, this`filepos, buf, addr
      ensures Valid() && Round(old(Now()), left) == (Now(), bytes, ok) && amt == |bytes| <= left
      ensures addr[..] == old(addr[..at]) + bytes + old(addr[at + amt..])
      ensures !ok ==> errnum == ErrRead
    {
      ghost var r := Now();
      amt, bytes := TakeBuffered(addr, at, left);
      RoundIs(r, left, Now(), bytes);
      ok := true;
      if left > amt { ok := Refill(); }
    }

    /** Refills the buffer; an empty one is an error. */
    method Refill() returns (ok: bool)
      requires Valid()
      modifies this`block, this`prevblock, this`bcounter, this`packetsize, this`bufEof, this`bufRead, this`filemax,
        this`retry, this`net, this`sent, this`options, this`errnum, buf
      ensures Valid() && State() == Filled(old(State()), false).0
      ensures ok == (Filled(old(State()), false).1 && State().content != [])
      ensures !ok ==> errnum == ErrRead
    {
      ok := BufFill(false);
      if !ok || bufRead == 0 {
        errnum := ErrRead;
        return false;
      }
    }

    /** Starts over if filepos has been moved back before the buffer. */
    method Reopen() returns (ok: bool)
      requires Valid() && WellFormedSessions(sessions)
      modifies this`block, this`prevblock, this`bcounter, this`packetsize, this`bufEof, this`bufRead, this`filemax,
        this`retry, this`net, this`sent, this`options, this`savedFilepos, this`sessions, this`blksize, buf
      ensures Valid() && WellFormedSessions(sessions)
      ensures (Now(), ok) == if filepos >= old(savedFilepos) then (old(Now()), true) else Reopened(old(Now()))
    {
      ok := true;
      if filepos < savedFilepos {
        bufRead := 0;
        assert buf[..0] == [];
        var _ := BufFill(true);
        ok := SendRrq();
      }
    }

    /** Reads size bytes at filepos into addr. It gives all of them, or nothing;
        under an honest server they are those of the file. */
    method TftpRead(ghost file: seq<byte>, addr: array<byte>, size: nat) returns (ret: nat)
      requires Valid() && WellFormedSessions(sessions) && addr != buf && size <= addr.Length
      modifies this, buf, addr
      ensures Valid() && WellFormedSessions(sessions)
      ensures var (r, out) := Read(old(Now()), size);
        && Now() == r && ret == (if out.Some? then size else 0)
        && (out.Some? ==> |out.value| == size && addr[..size] == out.value)
        && (out.None? ==> errnum == if old(filepos < savedFilepos) && !NextSession(old(sessions)).sent then ErrWrite else ErrRead)
      ensures ret == size ==> filepos == old(filepos) + size
      ensures addr[size..] == old(addr[size..])
      ensures old(Positioned(file, Now())) ==> Positioned(file, Now())
      ensures old(Positioned(file, Now())) && ret > 0 ==>
        filepos == old(filepos) + size <= |file| && addr[..size] == file[old(filepos)..filepos]
      ensures old(Positioned(file, Now()) && Reachable(file, Now())) && old(filepos) + size <= |file| ==> ret == size
      ensures old(Positioned(file, Now()) && filemax == |file|) ==> filemax == |file|
    {
      ghost var start := Now();
      ReadKeeps(start, size);
      if Positioned(file, start) {
        ReadGivesTheFile(file, start, size);
        if filemax == |file| { ReadKeepsSize(file, start, size); }
      }
      ret := ReadInto(addr, size);
    }

    /** The same, for all packets. */
    method ReadInto(addr: array<byte>, size: nat) returns (ret: nat)
      requires Valid() && WellFormedSessions(sessions) && addr != buf && size <= addr.Length
      modifies this, buf, addr
      ensures Valid()
      ensures var (r, out) := Read(old(Now()), size);
        && Now() == r && ret == (if out.Some? then size else 0)
        && (out.Some? ==> addr[..size] == out.value)
        && (out.None? ==> errnum == if old(filepos < savedFilepos) && !NextSession(old(sessions)).sent then ErrWrite else ErrRead)
      ensures addr[size..] == old(addr[size..])
    {
      ret := 0;
      var reopened := Reopen();
      if !reopened {
        errnum := ErrWrite;
        return 0;
      }
      ret := ReadAll(addr, size);
    }

    /** The loop of a read. */
    method ReadAll(addr: array<byte>, size: nat) returns (ret: nat)
      requires Valid() && WellFormedSessions(sessions) && filepos >= savedFilepos && addr != buf && size <= addr.Length
      modifies this`block, this`prevblock, this`bcounter, this`packetsize, this`bufEof, this`bufRead, this`filemax,
        this`retry, this`net, this`sent, this`options, this`errnum, this`savedFilepos, this`filepos, buf, addr
      ensures Valid()
      ensures var (r, out) := ReadLoop(old(Now()), size);
        && Now() == r && ret == (if out.Some? then size else 0)
        && (out.Some? ==> addr[..size] == out.value)
        && (out.None? ==> errnum == ErrRead)
      ensures addr[size..] == old(addr[size..])
    {
      ghost var all := ReadLoop(Now(), size);
      ghost var after := addr[size..];
      ret := 0;
      RestStart(all);
      assert addr[..0] == [];
      while ret < size
        invariant Valid() && ret <= size && filepos >= savedFilepos && addr[size..] == after
        invariant Rest(all, addr[..ret], ReadLoop(Now(), size - ret))
        decreases size - ret, |net|
      {
        ghost var r, was := Now(), addr[..];
        var amt, ok, bytes := ReadRound(addr, ret, size - ret);
        Replaced(addr[..], was, ret, bytes, size);
        LoopRound(all, was[..ret], r, size - ret, Now(), bytes, ok);
        if !ok { return 0; }
        ret := ret + amt;
      }
      LoopEnd(Now());
      assert addr[..ret] + [] == addr[..ret];
    }

    // ------------------------------------------------------------- opening and closing

    /** Receives the rest of the file, counting and discarding it. The code has
        no test for the verdict Endless: in such a state its loop goes on
        forever, see TftpCount.EndlessIsForever. */
    method CountFile() returns (verdict: Verdict)
      requires Valid()
      modifies this`block, this`prevblock, this`bcounter, this`packetsize, this`bufEof, this`bufRead, this`filemax,
        this`retry, this`net, this`sent, this`options, this`errnum, buf
      ensures Valid() && (State(), verdict) == CountLoop(old(State()).(filemax := 0))
      ensures verdict.Fails? ==> errnum == verdict.err
    {
      filemax := 0;
      ghost var all := CountLoop(State());
      while true
        invariant Valid() && CountLoop(State()) == all
        decreases |net|
      {
        CountStep(State());
        var ok := CountRound();
        if !ok {
          errnum := ErrRead;
          return Fails(ErrRead);
        }
        if bufEof { break; }
        if packetsize > FSYS_BUFLEN { return Endless; }
      }
      filemax := filemax + bufRead;
      verdict := Fine;
    }

    /** Counts what is in the buffer, discards it and fills the buffer again. */
    method CountRound() returns (ok: bool)
      requires Valid()
      modifies this`block, this`prevblock, this`bcounter, this`packetsize, this`bufEof, this`bufRead, this`filemax,
        this`retry, this`net, this`sent, this`options, buf
      ensures Valid() && (State(), ok) == Filled(old(Emptied(State())), false)
    {
      filemax := filemax + bufRead;
      bufRead := 0;
      assert buf[..0] == [];
      ok := BufFill(false);
    }

    /** The part of tftp_dir from the label reopen to the first fill. */
    method Open() returns (verdict: Verdict)
      requires buf.Length == FSYS_BUFLEN && WellFormedSessions(sessions)
      modifies this`block, this`prevblock, this`bcounter, this`packetsize, this`bufEof, this`bufRead, this`filemax,
        this`retry, this`net, this`sent, this`options, this`savedFilepos, this`sessions, this`blksize, this`errnum, buf
      ensures Valid() && WellFormedSessions(sessions) && savedFilepos == 0
      ensures sessions == LaterSessions(old(sessions)) && blksize == NextSession(old(sessions)).blksize
      ensures var s, o := NextSession(old(sessions)), Opened(NextSession(old(sessions)), old(filemax));
        && Sound(o)
        && State() == (if s.sent then Filled(o, false).0 else o)
        && verdict == if !s.sent then Fails(ErrWrite) else if !Filled(o, false).1 then Fails(ErrFileNotFound) else Fine
      ensures verdict.Fails? ==> errnum == verdict.err
    {
      OpenedReady(sessions, filemax);
      var ok := SendRrq();
      if !ok {
        errnum := ErrWrite;
        return Fails(ErrWrite);
      }
      ok := BufFill(false);
      if !ok {
        errnum := ErrFileNotFound;
        return Fails(ErrFileNotFound);
      }
      verdict := Fine;
    }

    /** Opens the file and finds out its size: from the server if it tells,
        otherwise by receiving the file once and opening it again. */
    method FindSize() returns (verdict: Verdict)
      requires buf.Length == FSYS_BUFLEN && WellFormedSessions(sessions)
      modifies this`block, this`prevblock, this`bcounter, this`packetsize, this`bufEof, this`bufRead, this`filemax,
        this`retry, this`net, this`sent, this`options, this`savedFilepos, this`sessions, this`blksize, this`errnum, buf
      ensures Valid() && savedFilepos == 0 && WellFormedSessions(sessions)
      ensures Directory(State(), sessions, blksize, verdict) == Dir(old(sessions))
      ensures verdict.Fails? ==> errnum == verdict.err
    {
      filemax := -1;
      ghost var start := sessions;
      while true
        invariant WellFormedSessions(sessions) && filemax >= -1 && DirFrom(sessions, filemax) == Dir(start)
        decreases filemax == -1
      {
        ghost var o := Opened(NextSession(sessions), filemax);
        DirStep(sessions, filemax);
        verdict := Open();
        if !verdict.Fine? || filemax != -1 { return; }
        verdict := CountFile();
        if !verdict.Fine? { return; }
      }
    }

    /** tftp_dir. It ends but for servers that make the client agree on blocks
        larger than its buffer; with an honest server, the file is then open at
        its start and its size known, if no packet of another kind disturbs. */
    method TftpDir(ghost file: seq<byte>) returns (verdict: Verdict)
      requires buf.Length == FSYS_BUFLEN && WellFormedSessions(sessions)
      modifies this`block, this`prevblock, this`bcounter, this`packetsize, this`bufEof, this`bufRead, this`filemax,
        this`retry, this`net, this`sent, this`options, this`savedFilepos, this`sessions, this`blksize, this`errnum, buf
      ensures Valid() && savedFilepos == 0 && WellFormedSessions(sessions)
      ensures Directory(State(), sessions, blksize, verdict) == Dir(old(sessions))
      ensures verdict.Fails? ==> errnum == verdict.err
      ensures var s := NextSession(old(sessions));
        && WellFormedReplies(s.replies)
        && (verdict.Endless? <==> s.sent && Overlarge(s.replies, Terms(TFTP_DEFAULTSIZE_PACKET, -1), 0, true))
      ensures HonestSessions(file, old(sessions)) ==> !verdict.Endless?
      ensures HonestSessions(file, old(sessions)) && verdict.Fine? ==>
        && Positioned(file, Now())
        && filemax == SizeFound(file, old(sessions))
        && (sessions == LaterSessions(old(sessions)) || |file| < 0xFFFF * NextSession(old(sessions)).blksize)
    {
      EndlessIff(sessions);
      if HonestSessions(file, sessions) {
        DirHonest(file, sessions, filepos);
        if Dir(sessions).verdict.Fine? { CountedIsSmall(file, sessions); }
      }
      verdict := FindSize();
    }

    /** Ends the transfer. If it was under way, the server is told with an error
        if and only if a packet comes that the client would answer. */
    method TftpClose()
      requires Valid()
      modifies this`block, this`prevblock, this`bcounter, this`packetsize, this`bufEof, this`bufRead, this`filemax,
        this`retry, this`net, this`sent, this`options, buf
      ensures Valid() && bufRead == 0
      ensures var t := old(State()).(content := []);
        && (State(), Filled(t, true).1) == Filled(t, true)
        && Sound(t)
        && (Wants(t) ==> (bufEof <==> Tellable(t.net, t.prevblock, t.packetsize, t.retry)))
        && (Wants(t) && bufEof ==> sent == old(sent) + [Quit])
        && (!Wants(t) ==> sent == old(sent))
    {
      bufRead := 0;
      assert buf[..0] == [];
      FilledKeeps(State(), true);
      if Wants(State()) { FilledQuits(State()); }
      var _ := BufFill(true);
    }
  }
}
