/** Reading through the buffer that slides over the remote file, on values. */
module TftpReader {
  import opened Bytes
  import opened Folding
  import opened Options
  import opened TftpMachine
  import opened TftpOack
  import opened TftpProtocol
  import opened TftpTracks

  /** The transfer, the place in the file of the start of the buffer, the place
      to read from, and what will answer later requests. */
  datatype Reader = Reader(t: Transfer, saved: nat, filepos: nat, sessions: seq<Session>, blksize: nat)

  predicate Ready(r: Reader) {
    Sound(r.t) && WellFormedSessions(r.sessions)
  }

  /** Takes up to left bytes at filepos from the buffer. Half of the buffer is
      dropped when most of it has been read, all of it when it is of no use. */
  function Take(r: Reader, left: nat): (Reader, seq<byte>)
    requires r.filepos >= r.saved
  {
    var buffered := |r.t.content| + r.saved - r.filepos;
    var n := if buffered > left then left else buffered;
    if n > 0 then
      var off := r.filepos - r.saved;
      var r' := r.(filepos := r.filepos + n);
      (if off + n > FSYS_BUFLEN / 2 then Dropped(r', FSYS_BUFLEN / 2) else r', r.t.content[off..off + n])
    else (Dropped(r, |r.t.content|), [])
  }

  /** The buffer without its first n bytes. */
  function Dropped(r: Reader, n: nat): Reader
    requires n <= |r.t.content|
  {
    r.(t := r.t.(content := r.t.content[n..]), saved := r.saved + n)
  }

  /** One round of a read: takes what is buffered, then fills the buffer if more
      is wanted; an empty buffer is an error. */
  ghost function Round(r: Reader, left: nat): (Reader, seq<byte>, bool)
    requires Ready(r) && r.filepos >= r.saved
  {
    var (r', bytes) := Take(r, left);
    if left > |bytes| then
      var (t, ok) := Filled(r'.t, false);
      (r'.(t := t), bytes, ok && t.content != [])
    else (r', bytes, true)
  }

  lemma TakeKeeps(r: Reader, left: nat)
    requires Ready(r) && r.filepos >= r.saved && left > 0
    ensures var (r', bytes) := Take(r, left);
      && Ready(r') && |bytes| <= left && r'.filepos == r.filepos + |bytes| >= r'.saved
      && r'.t.net == r.t.net && r'.t.prevblock == r.t.prevblock && (|bytes| < left ==> (bytes == [] <==> r'.t.content == []))
      && r'.sessions == r.sessions && r'.blksize == r.blksize
  {}

  /** A round that gives nothing has used up packets. */
  lemma {:induction false} RoundKeeps(r: Reader, left: nat)
    requires Ready(r) && r.filepos >= r.saved && left > 0
    ensures var (r', bytes, ok) := Round(r, left);
      && Ready(r') && |bytes| <= left && r'.filepos == r.filepos + |bytes| >= r'.saved
      && |r'.t.net| <= |r.t.net| && (ok && bytes == [] ==> |r'.t.net| < |r.t.net|)
      && r'.sessions == r.sessions && r'.blksize == r.blksize
  {
    TakeKeeps(r, left);
    var (r1, bytes) := Take(r, left);
    RoundIs(r, left, r1, bytes);
    FilledKeeps(r1.t, false);
  }

  /** The loop of tftp_read: all left bytes, or nothing. It ends for every
      packet sequence. */
  ghost function Rounds(r: Reader, left: nat): (Reader, Option<seq<byte>>)
    requires Ready(r) && r.filepos >= r.saved
    decreases left, |r.t.net|
  {
    if left == 0 then (r, Some([])) else
      RoundKeeps(r, left);
      var (r', bytes, ok) := Round(r, left);
      if !ok then (r', None) else
        var (r'', more) := Rounds(r', left - |bytes|);
        (r'', if more.None? then None else Some(bytes + more.value))
  }

  ghost predicate IsRounds(r: Reader, left: nat, out: (Reader, Option<seq<byte>>))
    requires Ready(r) && r.filepos >= r.saved
  {
    forall b {:trigger Key(b)} :: Key(b) ==> out == Rounds(r, left)
  }

  /** Rounds, kept folded; UnfoldLoop gives its value. */
  ghost function ReadLoop(r: Reader, left: nat): (Reader, Option<seq<byte>>)
    requires Ready(r) && r.filepos >= r.saved
  {
    assert IsRounds(r, left, Rounds(r, left));
    var out :| IsRounds(r, left, out);
    out
  }

  lemma {:induction false} UnfoldLoop(r: Reader, left: nat)
    requires Ready(r) && r.filepos >= r.saved
    ensures ReadLoop(r, left) == Rounds(r, left)
  {
    assert IsRounds(r, left, ReadLoop(r, left));
    assert Key(true);
  }

  /** What a read has found so far, done, and what is still to come. */
  ghost predicate Rest(all: (Reader, Option<seq<byte>>), done: seq<byte>, rest: (Reader, Option<seq<byte>>)) {
    all == (rest.0, if rest.1.None? then None else Some(done + rest.1.value))
  }

  lemma {:induction false} LoopStep(r: Reader, left: nat)
    requires Ready(r) && r.filepos >= r.saved && left > 0
    ensures var (r', bytes, ok) := Round(r, left);
      && Ready(r') && r'.filepos >= r'.saved && |bytes| <= left
      && if ok then Rest(ReadLoop(r, left), bytes, ReadLoop(r', left - |bytes|)) else ReadLoop(r, left) == (r', None)
  {
    RoundKeeps(r, left);
    UnfoldLoop(r, left);
    var (r', bytes, ok) := Round(r, left);
    if ok { UnfoldLoop(r', left - |bytes|); }
  }

  lemma {:induction false} LoopEnd(r: Reader)
    requires Ready(r) && r.filepos >= r.saved
    ensures ReadLoop(r, 0) == (r, Some([]))
  {
    UnfoldLoop(r, 0);
  }

  lemma {:induction false} RestStart(all: (Reader, Option<seq<byte>>))
    ensures Rest(all, [], all)
  {
    if all.1.Some? { assert [] + all.1.value == all.1.value; }
  }

  lemma {:induction false} RestStep(all: (Reader, Option<seq<byte>>), done: seq<byte>, bytes: seq<byte>,
                                    now: (Reader, Option<seq<byte>>), rest: (Reader, Option<seq<byte>>))
    requires Rest(all, done, now) && Rest(now, bytes, rest)
    ensures Rest(all, done + bytes, rest)
  {
    if rest.1.Some? { assert done + (bytes + rest.1.value) == done + bytes + rest.1.value; }
  }

  /** What a round does to a read under way. */
  lemma {:induction false} LoopRound(all: (Reader, Option<seq<byte>>), done: seq<byte>, r: Reader, left: nat,
                                     r': Reader, bytes: seq<byte>, ok: bool)
    requires Ready(r) && r.filepos >= r.saved && left > 0 && Rest(all, done, ReadLoop(r, left))
    requires Round(r, left) == (r', bytes, ok)
    ensures Ready(r') && r'.filepos >= r'.saved && |bytes| <= left
    ensures |r'.t.net| <= |r.t.net| && (ok && bytes == [] ==> |r'.t.net| < |r.t.net|)
    ensures if ok then Rest(all, done + bytes, ReadLoop(r', left - |bytes|)) else all == (r', None)
  {
    RoundKeeps(r, left);
    LoopStep(r, left);
    if ok { RestStep(all, done, bytes, ReadLoop(r, left), ReadLoop(r', left - |bytes|)); }
  }

  /** A backward seek ends the transfer and opens the file again. */
  ghost function Reopened(r: Reader): (Reader, bool)
    requires Ready(r)
  {
    var s, t := NextSession(r.sessions), Filled(r.t.(content := []), true).0;
    (Reader(Opened(s, t.filemax), 0, r.filepos, LaterSessions(r.sessions), s.blksize), s.sent)
  }

  /** tftp_read: the file is opened again only to go back. */
  ghost function Read(r: Reader, size: nat): (Reader, Option<seq<byte>>)
    requires Ready(r)
  {
    if r.filepos >= r.saved then ReadLoop(r, size) else
      OpenedReady(r.sessions, Filled(r.t.(content := []), true).0.filemax);
      var (r', ok) := Reopened(r);
      if ok then ReadLoop(r', size) else (r', None)
  }

  lemma {:induction false} OpenedReady(sessions: seq<Session>, filemax: int)
    requires WellFormedSessions(sessions)
    ensures var s := NextSession(sessions);
      WellFormedReplies(s.replies) && WellFormedSessions(LaterSessions(sessions)) && Sound(Opened(s, filemax))
  {
    Opening([], sessions);
  }

  // -------------------------------------------------------------- what a read promises

  /** The buffer is where tftp_read believes it is, now and after opening again. */
  ghost predicate Positioned(file: seq<byte>, r: Reader) {
    Ready(r) && Tracks(file, r.blksize, r.saved, r.t) && HonestSessions(file, r.sessions)
  }

  /** The network will deliver what reading from filepos needs. */
  ghost predicate Reachable(file: seq<byte>, r: Reader) {
    if r.filepos >= r.saved then Serves(file, r.blksize, r.t.prevblock + 1, r.t.net)
    else Delivers(file, NextSession(r.sessions))
  }

  lemma {:induction false} DroppedPositioned(file: seq<byte>, r: Reader, n: nat)
    requires Positioned(file, r) && n <= |r.t.content|
    ensures Positioned(file, Dropped(r, n))
  {
    WindowSlides(file, r.blksize, r.saved, r.t.content, r.t.prevblock, r.t.eof, n);
  }

  lemma {:induction false} TakePositioned(file: seq<byte>, r: Reader, left: nat)
    requires Positioned(file, r) && r.filepos >= r.saved
    ensures Positioned(file, Take(r, left).0)
  {
    var buffered := |r.t.content| + r.saved - r.filepos;
    var n := if buffered > left then left else buffered;
    if n <= 0 {
      DroppedPositioned(file, r, |r.t.content|);
    } else if r.filepos - r.saved + n > FSYS_BUFLEN / 2 {
      DroppedPositioned(file, r.(filepos := r.filepos + n), FSYS_BUFLEN / 2);
    }
  }

  /** What is taken are the bytes of the file at filepos. */
  lemma {:induction false} TakeIsFile(file: seq<byte>, r: Reader, left: nat)
    requires Positioned(file, r) && r.filepos >= r.saved
    ensures var (r', bytes) := Take(r, left);
      bytes != [] ==> r'.filepos <= |file| && bytes == file[r.filepos..r'.filepos]
  {
    var buffered := |r.t.content| + r.saved - r.filepos;
    var n := if buffered > left then left else buffered;
    if n > 0 { WindowPart(file, r.blksize, r.saved, r.t.content, r.t.prevblock, r.t.eof, r.filepos - r.saved, n); }
  }

  lemma {:induction false} RoundPositioned(file: seq<byte>, r: Reader, left: nat)
    requires Positioned(file, r) && r.filepos >= r.saved && left > 0
    ensures var (r', bytes, ok) := Round(r, left);
      && Positioned(file, r') && |bytes| <= left && r'.filepos == r.filepos + |bytes| >= r'.saved
      && (bytes != [] ==> r'.filepos <= |file| && bytes == file[r.filepos..r'.filepos])
  {
    RoundKeeps(r, left);
    TakePositioned(file, r, left);
    TakeIsFile(file, r, left);
    var r1 := Take(r, left).0;
    FilledTracks(file, r1.blksize, r1.saved, r1.t);
  }

  lemma {:induction false} Joint(file: seq<byte>, i: nat, j: nat, k: nat, a: seq<byte>, b: seq<byte>)
    requires i <= j <= k && |a| == j - i && |b| == k - j
    requires a != [] ==> j <= |file| && a == file[i..j]
    requires b != [] ==> k <= |file| && b == file[j..k]
    ensures a + b != [] ==> k <= |file| && a + b == file[i..k]
  {
    if a == [] { assert a + b == b; }
    if b == [] { assert a + b == a; }
  }

  /** A read that succeeds gives exactly the bytes of the file at filepos. */
  lemma {:induction false} LoopGivesTheFile(file: seq<byte>, r: Reader, left: nat)
    requires Positioned(file, r) && r.filepos >= r.saved
    ensures var (r', out) := ReadLoop(r, left);
      && Positioned(file, r')
      && (out.Some? ==> |out.value| == left && r'.filepos == r.filepos + left)
      && (out.Some? && left > 0 ==> r'.filepos <= |file| && out.value == file[r.filepos..r'.filepos])
    decreases left, |r.t.net|
  {
    if left == 0 {
      LoopEnd(r);
    } else {
      LoopStep(r, left);
      RoundKeeps(r, left);
      RoundPositioned(file, r, left);
      var (r', bytes, ok) := Round(r, left);
      if ok {
        LoopGivesTheFile(file, r', left - |bytes|);
        var (r'', more) := ReadLoop(r', left - |bytes|);
        if more.Some? { Joint(file, r.filepos, r'.filepos, r''.filepos, bytes, more.value); }
      }
    }
  }

  /** Before the end of the file, a buffer that wants nothing is not empty. */
  lemma FilledNotEmpty(file: seq<byte>, b: nat, base: nat, t: Transfer)
    requires Tracks(file, b, base, t) && !Wants(t) && base < |file|
    ensures t.content != []
  {}

  /** In a round that is served, running out of bytes means the end of the file. */
  lemma {:induction false} RoundServed(file: seq<byte>, r: Reader, left: nat, r': Reader, out: (seq<byte>, bool))
    requires Positioned(file, r) && r.filepos >= r.saved && left > 0 && r.filepos + left <= |file|
    requires Serves(file, r.blksize, r.t.prevblock + 1, r.t.net) && Round(r, left) == (r', out.0, out.1)
    ensures out.1 && Serves(file, r'.blksize, r'.t.prevblock + 1, r'.t.net)
  {
    TakeKeeps(r, left);
    TakePositioned(file, r, left);
    var (r1, bytes) := Take(r, left);
    RoundIs(r, left, r1, bytes);
    if left > |bytes| {
      FillServed(file, r1.blksize, r1.saved, r1.t);
      assert r'.t == Filled(r1.t, false).0;
    } else {
      assert r' == r1 && Serves(file, r1.blksize, r1.t.prevblock + 1, r1.t.net);
    }
  }

  /** A round, when what is taken is known. */
  lemma RoundIs(r: Reader, left: nat, r1: Reader, bytes: seq<byte>)
    requires Ready(r) && r.filepos >= r.saved && Take(r, left) == (r1, bytes) && WellFormedReplies(r1.t.net)
    ensures Round(r, left) ==
      if left > |bytes| then (r1.(t := Filled(r1.t, false).0), bytes, Filled(r1.t, false).1 && Filled(r1.t, false).0.content != [])
      else (r1, bytes, true)
  {}

  lemma {:induction false} FillServed(file: seq<byte>, b: nat, base: nat, t: Transfer)
    requires Sound(t) && Tracks(file, b, base, t) && Serves(file, b, t.prevblock + 1, t.net)
    requires t.content != [] || base < |file|
    ensures var (t', ok) := Filled(t, false); ok && t'.content != [] && Serves(file, b, t'.prevblock + 1, t'.net)
  {
    FilledTracks(file, b, base, t);
    if t.content == [] { FilledNotEmpty(file, b, base, Filled(t, false).0); }
  }

  lemma {:induction false} LoopServed(file: seq<byte>, r: Reader, left: nat)
    requires Positioned(file, r) && r.filepos >= r.saved && r.filepos + left <= |file|
    requires Serves(file, r.blksize, r.t.prevblock + 1, r.t.net)
    ensures ReadLoop(r, left).1.Some?
    decreases left, |r.t.net|
  {
    if left == 0 {
      LoopEnd(r);
    } else {
      LoopStep(r, left);
      RoundKeeps(r, left);
      RoundPositioned(file, r, left);
      var (r', bytes, ok) := Round(r, left);
      RoundServed(file, r, left, r', (bytes, ok));
      LoopServed(file, r', left - |bytes|);
    }
  }

  lemma {:induction false} ReopenedPositioned(file: seq<byte>, r: Reader)
    requires Positioned(file, r)
    ensures var (r', ok) := Reopened(r);
      && Positioned(file, r') && r'.saved == 0
      && (Delivers(file, NextSession(r.sessions)) ==> ok && Serves(file, r'.blksize, r'.t.prevblock + 1, r'.t.net))
  {
    OpenedReady(r.sessions, Filled(r.t.(content := []), true).0.filemax);
    Opening(file, r.sessions);
  }

  /** A read that succeeds gives exactly the bytes asked for, through any mix of
      skips, slides and openings; if they are in the file and the packets needed
      arrive, it succeeds. */
  lemma {:induction false} ReadGivesTheFile(file: seq<byte>, r: Reader, size: nat)
    requires Positioned(file, r)
    ensures var (r', out) := Read(r, size);
      && Positioned(file, r')
      && (out.Some? ==> |out.value| == size && r'.filepos == r.filepos + size)
      && (out.Some? && size > 0 ==> r'.filepos <= |file| && out.value == file[r.filepos..r'.filepos])
      && (Reachable(file, r) && r.filepos + size <= |file| ==> out.Some?)
  {
    var u := if r.filepos >= r.saved then r else Reopened(r).0;
    if r.filepos < r.saved { ReopenedPositioned(file, r); }
    LoopGivesTheFile(file, u, size);
    if Reachable(file, r) && r.filepos + size <= |file| { LoopServed(file, u, size); }
  }

  // ------------------------------------------------------------------ the size stays

  /** Ending a transfer, an honest server's OACK may still be read. */
  lemma {:induction false} EndKeepsSize(file: seq<byte>, b: nat, t: Transfer)
    requires Sound(t) && Honest(file, b, t.net) && b >= TFTP_DEFAULTSIZE_PACKET && t.filemax == |file|
    ensures Filled(t, true).0.filemax == |file|
    decreases |t.net|, if t.retry <= MAX_TFTP_RETRIES then MAX_TFTP_RETRIES - t.retry + 1 else 0
  {
    FilledStep(t, true);
    if Wants(t) {
      StepKeeps(t, true);
      StepShrinks(t, true);
      if t.net != [] {
        HonestRest(file, b, t.net);
        if t.net[0].Oack? {
          HonestTerms(file, b, OackOptions(t.net[0]), Terms(t.packetsize, t.filemax));
          AllRead(OackOptions(t.net[0]));
        }
      }
      var (u, f) := Step(t, true);
      if f == Again { EndKeepsSize(file, b, u); }
    }
  }

  lemma {:induction false} RoundKeepsSize(file: seq<byte>, r: Reader, left: nat)
    requires Positioned(file, r) && r.filepos >= r.saved && left > 0 && r.t.filemax == |file|
    ensures Round(r, left).0.t.filemax == |file|
  {
    TakeKeeps(r, left);
    TakePositioned(file, r, left);
    var (r1, bytes) := Take(r, left);
    RoundIs(r, left, r1, bytes);
    FilledTracks(file, r1.blksize, r1.saved, r1.t);
  }

  lemma {:induction false} LoopKeepsSize(file: seq<byte>, r: Reader, left: nat)
    requires Positioned(file, r) && r.filepos >= r.saved && r.t.filemax == |file|
    ensures ReadLoop(r, left).0.t.filemax == |file|
    decreases left, |r.t.net|
  {
    if left == 0 {
      LoopEnd(r);
    } else {
      LoopStep(r, left);
      RoundKeeps(r, left);
      RoundPositioned(file, r, left);
      RoundKeepsSize(file, r, left);
      var (r', bytes, ok) := Round(r, left);
      if ok { LoopKeepsSize(file, r', left - |bytes|); }
    }
  }

  /** Under an honest server a read, also one that opens the file again, leaves
      the size of the file as it is known. */
  lemma {:induction false} ReadKeepsSize(file: seq<byte>, r: Reader, size: nat)
    requires Positioned(file, r) && r.t.filemax == |file|
    ensures Read(r, size).0.t.filemax == |file|
  {
    if r.filepos >= r.saved {
      LoopKeepsSize(file, r, size);
    } else {
      ReopenedPositioned(file, r);
      EndKeepsSize(file, r.blksize, r.t.(content := []));
      LoopKeepsSize(file, Reopened(r).0, size);
    }
  }

  /** Whatever arrives, a read ends with a sound state. */
  lemma {:induction false} LoopKeeps(r: Reader, left: nat)
    requires Ready(r) && r.filepos >= r.saved
    ensures var (r', out) := ReadLoop(r, left);
      Ready(r') && (out.Some? ==> |out.value| == left && r'.filepos == r.filepos + left)
    decreases left, |r.t.net|
  {
    if left == 0 {
      LoopEnd(r);
    } else {
      LoopStep(r, left);
      RoundKeeps(r, left);
      var (r', bytes, ok) := Round(r, left);
      if ok { LoopKeeps(r', left - |bytes|); }
    }
  }

  lemma {:induction false} ReadKeeps(r: Reader, size: nat)
    requires Ready(r)
    ensures var (r', out) := Read(r, size);
      && Ready(r') && (out.Some? ==> |out.value| == size)
      && (out.Some? || size == 0 ==> r'.filepos == r.filepos + size)
  {
    if r.filepos < r.saved { OpenedReady(r.sessions, Filled(r.t.(content := []), true).0.filemax); }
    var u := if r.filepos >= r.saved then r else Reopened(r).0;
    LoopKeeps(u, size);
    if size == 0 { LoopEnd(u); }
  }
}
