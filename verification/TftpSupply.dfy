/** When the packets that a whole use of a file needs arrive. */
module TftpSupply {
  import opened Bytes
  import opened Options
  import opened TftpCount
  import opened TftpDirectory
  import opened TftpMachine
  import opened TftpProtocol
  import opened TftpReader
  import opened TftpTracks

  /** At least n openings will be answered, each with all packets it needs. */
  ghost predicate Plenty(file: seq<byte>, sessions: seq<Session>, n: nat) {
    |sessions| >= n && forall i :: 0 <= i < |sessions| ==> Delivers(file, sessions[i])
  }

  /** The packets still needed by the transfer under way will arrive. */
  ghost predicate Coming(file: seq<byte>, b: nat, t: Transfer) {
    Serves(file, b, t.prevblock + 1, t.net)
  }

  ghost predicate Supplied(file: seq<byte>, r: Reader, n: nat) {
    Coming(file, r.blksize, r.t) && Plenty(file, r.sessions, n)
  }

  lemma {:induction false} PlentyLater(file: seq<byte>, sessions: seq<Session>, n: nat)
    requires Plenty(file, sessions, n + 1)
    ensures Delivers(file, NextSession(sessions)) && Plenty(file, LaterSessions(sessions), n)
  {
    forall i | 0 <= i < |sessions| - 1 ensures Delivers(file, sessions[1..][i]) { assert sessions[1..][i] == sessions[i + 1]; }
  }

  /** A round takes from the supply of the transfer under way only. */
  lemma {:induction false} RoundSupplied(file: seq<byte>, r: Reader, left: nat)
    requires Positioned(file, r) && r.filepos >= r.saved && left > 0 && Coming(file, r.blksize, r.t)
    ensures var r' := Round(r, left).0;
      Coming(file, r'.blksize, r'.t) && r'.blksize == r.blksize && r'.sessions == r.sessions
  {
    TakeKeeps(r, left);
    TakePositioned(file, r, left);
    var (r1, bytes) := Take(r, left);
    RoundIs(r, left, r1, bytes);
    FilledTracks(file, r1.blksize, r1.saved, r1.t);
  }

  lemma {:induction false} LoopSupplied(file: seq<byte>, r: Reader, left: nat)
    requires Positioned(file, r) && r.filepos >= r.saved && Coming(file, r.blksize, r.t)
    ensures var r' := ReadLoop(r, left).0;
      Coming(file, r'.blksize, r'.t) && r'.sessions == r.sessions
    decreases left, |r.t.net|
  {
    if left == 0 {
      LoopEnd(r);
    } else {
      LoopStep(r, left);
      RoundKeeps(r, left);
      RoundPositioned(file, r, left);
      RoundSupplied(file, r, left);
      var (r', bytes, ok) := Round(r, left);
      if ok { LoopSupplied(file, r', left - |bytes|); }
    }
  }

  /** A read needs one more opening at most, whether it succeeds or not; it
      succeeds if its bytes are in the file. */
  lemma {:induction false} ReadSupplied(file: seq<byte>, r: Reader, size: nat, n: nat)
    requires Positioned(file, r) && Supplied(file, r, n + 1)
    ensures var (r', out) := Read(r, size);
      Supplied(file, r', n) && (r.filepos + size <= |file| ==> out.Some?)
  {
    PlentyLater(file, r.sessions, n);
    ReadGivesTheFile(file, r, size);
    if r.filepos >= r.saved {
      LoopSupplied(file, r, size);
    } else {
      ReopenedPositioned(file, r);
      LoopSupplied(file, Reopened(r).0, size);
    }
  }

  /** Opening needs two sessions at most. */
  lemma {:induction false} DirSupplied(file: seq<byte>, sessions: seq<Session>, filepos: nat, n: nat)
    requires HonestSessions(file, sessions) && WellFormedSessions(sessions) && Plenty(file, sessions, n + 2)
    ensures var d := Dir(sessions);
      d.verdict.Fine? && Supplied(file, Reader(d.t, 0, filepos, d.sessions, d.blksize), n)
  {
    var s, later := NextSession(sessions), LaterSessions(sessions);
    PlentyLater(file, sessions, n + 1);
    PlentyLater(file, later, n);
    DirServed(file, sessions);
    FirstFill(file, sessions);
    DirStep(sessions, -1);
    var t := Filled(Opened(s, -1), false).0;
    if t.filemax == -1 {
      var size := CountLoop(t.(filemax := 0)).0.filemax;
      OpenedTracks(file, sessions, -1);
      OpenedTracks(file, later, size);
      SecondTime(later, size);
      FilledTracks(file, NextSession(later).blksize, 0, Opened(NextSession(later), size));
    }
  }
}
