/** A file opened once and then read in any way. */
module TftpRuns {
  import opened Bytes
  import opened Options
  import opened Tftp
  import opened TftpDirectory
  import opened TftpProtocol
  import opened TftpReader
  import opened TftpSupply

  /** What a user of the file does: set filepos, or read from there. */
  datatype Request = Seek(pos: nat) | Fetch(size: nat)

  /** Where filepos was, and the bytes read if the read succeeded. */
  datatype Result = Result(place: nat, bytes: Option<seq<byte>>)

  /** The place after a request that did not fail. */
  function PlaceAfter(q: Request, r: Result): nat {
    match q
    case Seek(pos) => pos
    case Fetch(size) => r.place + size
  }

  /** The i-th result is right: a read that succeeds gives the bytes of the file
      at its place, and moves it by their number. */
  ghost predicate Right(file: seq<byte>, requests: seq<Request>, results: seq<Result>, i: nat)
    requires i < |results| && |results| <= |requests|
  {
    && (i == 0 ==> results[i].place == 0)
    && (i > 0 && (requests[i - 1].Seek? || results[i - 1].bytes.Some?) ==>
          results[i].place == PlaceAfter(requests[i - 1], results[i - 1]))
    && Answers(file, requests[i], results[i])
  }

  /** Only reads give bytes, and only those of the file at their place. */
  ghost predicate Answers(file: seq<byte>, q: Request, r: Result) {
    r.bytes.Some? ==> q.Fetch? && IsSlice(file, r.place, q.size, r.bytes.value)
  }

  ghost predicate IsSlice(file: seq<byte>, place: nat, size: nat, bytes: seq<byte>) {
    |bytes| == size && (size > 0 ==> place + size <= |file| && bytes == file[place..place + size])
  }

  ghost predicate AllRight(file: seq<byte>, requests: seq<Request>, results: seq<Result>) {
    |results| <= |requests| && forall i :: 0 <= i < |results| ==> Right(file, requests, results, i)
  }

  /** The place where the next request finds filepos, if that is known. */
  ghost predicate Continues(requests: seq<Request>, results: seq<Result>, place: nat)
    requires |results| <= |requests|
  {
    var n := |results|;
    && (n == 0 ==> place == 0)
    && (n > 0 && (requests[n - 1].Seek? || results[n - 1].bytes.Some?) ==> place == PlaceAfter(requests[n - 1], results[n - 1]))
  }

  lemma {:induction false} OneMoreRight(file: seq<byte>, requests: seq<Request>, results: seq<Result>, r: Result)
    requires AllRight(file, requests, results) && |results| < |requests| && Continues(requests, results, r.place)
    requires Answers(file, requests[|results|], r)
    ensures AllRight(file, requests, results + [r])
  {
    var all := results + [r];
    forall i | 0 <= i < |all| ensures Right(file, requests, all, i) {
      if i < |results| {
        assert Right(file, requests, results, i);
        assert all[i] == results[i] && (i > 0 ==> all[i - 1] == results[i - 1]);
      }
    }
  }

  /** Every read of bytes that are in the file succeeds. */
  ghost predicate AllGranted(file: seq<byte>, requests: seq<Request>, results: seq<Result>) {
    |results| <= |requests| && forall i :: 0 <= i < |results| ==> Granted(file, requests[i], results[i])
  }

  ghost predicate Granted(file: seq<byte>, q: Request, r: Result) {
    q.Fetch? && r.place + q.size <= |file| ==> r.bytes.Some?
  }

  lemma {:induction false} OneMoreGranted(file: seq<byte>, requests: seq<Request>, results: seq<Result>, r: Result)
    requires AllGranted(file, requests, results) && |results| < |requests| && Granted(file, requests[|results|], r)
    ensures AllGranted(file, requests, results + [r])
  {}

  /** Opens the file and serves the requests. Every read gives exactly the bytes
      of the file at its place, or nothing, however the packets of an honest
      server come and however seeks and reads are mixed. If the packets needed
      arrive, the file is opened, and every read of bytes in the file succeeds. */
  method UseFile(sessions: seq<Session>, ghost file: seq<byte>, requests: seq<Request>)
    returns (isOpen: bool, results: seq<Result>)
    requires WellFormedSessions(sessions) && HonestSessions(file, sessions)
    ensures isOpen <==> Dir(sessions).verdict.Fine?
    ensures |results| == if isOpen then |requests| else 0
    ensures AllRight(file, requests, results)
    ensures Plenty(file, sessions, |requests| + 2) ==> isOpen && AllGranted(file, requests, results)
  {
    ghost var plenty := Plenty(file, sessions, |requests| + 2);
    if plenty { DirSupplied(file, sessions, 0, |requests|); }
    var c := new Client(sessions);
    var verdict := c.TftpDir(file);
    isOpen, results := verdict.Fine?, [];
    if isOpen { results := ServeAll(c, file, requests, plenty); }
  }

  /** Serves the requests, one after the other. */
  method ServeAll(c: Client, ghost file: seq<byte>, requests: seq<Request>, ghost plenty: bool) returns (results: seq<Result>)
    requires c.Valid() && WellFormedSessions(c.sessions) && Positioned(file, c.Now()) && c.filepos == 0
    requires plenty ==> Supplied(file, c.Now(), |requests|)
    modifies c, c.buf
    ensures |results| == |requests| && AllRight(file, requests, results)
    ensures plenty ==> AllGranted(file, requests, results)
  {
    results := [];
    for i := 0 to |requests|
      invariant c.Valid() && WellFormedSessions(c.sessions) && Positioned(file, c.Now())
      invariant |results| == i && AllRight(file, requests, results) && Continues(requests, results, c.filepos)
      invariant plenty ==> Supplied(file, c.Now(), |requests| - i) && AllGranted(file, requests, results)
    {
      var r := Serve(c, file, requests[i], if plenty then |requests| - i else 0);
      OneMoreRight(file, requests, results, r);
      if plenty { OneMoreGranted(file, requests, results, r); }
      results := results + [r];
    }
  }

  /** Serves one request; n openings to come are supplied, if n is not zero. */
  method Serve(c: Client, ghost file: seq<byte>, q: Request, ghost n: nat) returns (r: Result)
    requires c.Valid() && WellFormedSessions(c.sessions) && Positioned(file, c.Now())
    requires n > 0 ==> Supplied(file, c.Now(), n)
    modifies c, c.buf
    ensures c.Valid() && WellFormedSessions(c.sessions) && Positioned(file, c.Now())
    ensures r.place == old(c.filepos) && (q.Seek? || r.bytes.Some? ==> c.filepos == PlaceAfter(q, r))
    ensures Answers(file, q, r)
    ensures n > 0 ==> Supplied(file, c.Now(), n - 1) && Granted(file, q, r)
  {
    ghost var start := c.Now();
    var place := c.filepos;
    match q {
      case Seek(pos) =>
        c.filepos := pos;
        r := Result(place, None);
      case Fetch(size) =>
        if n > 0 { ReadSupplied(file, start, size, n - 1); }
        var addr := new byte[size](_ => 0);
        var ret := c.TftpRead(file, addr, size);
        r := Result(place, if ret == size then Some(addr[..]) else None);
        assert addr[..] == addr[..size];
    }
  }
}
