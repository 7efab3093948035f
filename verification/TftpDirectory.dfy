/** tftp_dir as a whole, on values: opening, counting, opening again. */
module TftpDirectory {
  import opened Bytes
  import opened TftpCount
  import opened TftpMachine
  import opened TftpOack
  import opened TftpProtocol
  import opened TftpReader
  import opened TftpTracks

  datatype Directory = Directory(t: Transfer, sessions: seq<Session>, blksize: nat, verdict: Verdict)

  /** From the label reopen on. If the size is not known after the first fill,
      the file is counted and the label reached again. */
  ghost function DirFrom(sessions: seq<Session>, filemax: int): Directory
    requires WellFormedSessions(sessions) && filemax >= -1
    decreases if filemax == -1 then 1 else 0
  {
    OpenedReady(sessions, filemax);
    var s, later := NextSession(sessions), LaterSessions(sessions);
    if !s.sent then Directory(Opened(s, filemax), later, s.blksize, Fails(ErrWrite)) else
      FilledKeeps(Opened(s, filemax), false);
      var (t, ok) := Filled(Opened(s, filemax), false);
      if !ok then Directory(t, later, s.blksize, Fails(ErrFileNotFound))
      else if t.filemax != -1 then Directory(t, later, s.blksize, Fine)
      else
        FillTells(Opened(s, filemax));
        CountTells(t.(filemax := 0));
        var (u, v) := CountLoop(t.(filemax := 0));
        if v.Fine? then DirFrom(later, u.filemax) else Directory(u, later, s.blksize, v)
  }

  ghost function Dir(sessions: seq<Session>): Directory
    requires WellFormedSessions(sessions)
  {
    DirFrom(sessions, -1)
  }

  /** One round from the label reopen. */
  lemma {:induction false} DirStep(sessions: seq<Session>, filemax: int)
    requires WellFormedSessions(sessions) && filemax >= -1
    ensures var s, later, o := NextSession(sessions), LaterSessions(sessions), Opened(NextSession(sessions), filemax);
      && Sound(o) && WellFormedSessions(later)
      && (!s.sent ==> DirFrom(sessions, filemax) == Directory(o, later, s.blksize, Fails(ErrWrite)))
      && (s.sent ==>
            var (t, ok) := Filled(o, false);
            var c := t.(filemax := 0);
            && (!ok ==> DirFrom(sessions, filemax) == Directory(t, later, s.blksize, Fails(ErrFileNotFound)))
            && (ok && t.filemax != -1 ==> DirFrom(sessions, filemax) == Directory(t, later, s.blksize, Fine))
            && (ok && t.filemax == -1 ==>
                  && filemax == -1 && Sound(c)
                  && if CountLoop(c).1.Fine? then CountLoop(c).0.filemax >= 0
                          && DirFrom(sessions, filemax) == DirFrom(later, CountLoop(c).0.filemax)
                     else DirFrom(sessions, filemax) == Directory(CountLoop(c).0, later, s.blksize, CountLoop(c).1)))
  {
    OpenedReady(sessions, filemax);
    var o := Opened(NextSession(sessions), filemax);
    if NextSession(sessions).sent {
      FilledKeeps(o, false);
      var (t, ok) := Filled(o, false);
      if ok {
        FillTells(o);
        CountTells(t.(filemax := 0));
      }
    }
  }

  /** With the size known, the file is opened once. */
  lemma {:induction false} SecondTime(sessions: seq<Session>, filemax: int)
    requires WellFormedSessions(sessions) && filemax >= 0
    ensures var d, s := DirFrom(sessions, filemax), NextSession(sessions);
      && !d.verdict.Endless? && d.sessions == LaterSessions(sessions) && d.blksize == s.blksize
      && Sound(Opened(s, filemax)) && d.t == (if s.sent then Filled(Opened(s, filemax), false).0 else Opened(s, filemax))
      && (d.verdict.Fine? <==> s.sent && Filled(Opened(s, filemax), false).1)
  {
    OpenedReady(sessions, filemax);
    var o := Opened(NextSession(sessions), filemax);
    if NextSession(sessions).sent && Filled(o, false).1 { FillTells(o); }
  }

  /** tftp_dir goes on forever if and only if the packets of the first session
      make it: it ends for all others. */
  lemma {:induction false} EndlessIff(sessions: seq<Session>)
    requires WellFormedSessions(sessions)
    ensures var s := NextSession(sessions);
      && WellFormedReplies(s.replies)
      && (Dir(sessions).verdict.Endless? <==>
            s.sent && Overlarge(s.replies, Terms(TFTP_DEFAULTSIZE_PACKET, -1), 0, true))
  {
    OpenedReady(sessions, -1);
    var s := NextSession(sessions);
    var o := Opened(s, -1);
    FilledKeeps(o, false);
    FillSticks(o, true);
    var (t, ok) := Filled(o, false);
    if s.sent && ok && t.filemax == -1 {
      var c := t.(filemax := 0);
      CountSticks(c);
      SizeIsNoMatter(t.net, t.packetsize, -1, 0, t.retry);
      FillTells(o);
      CountTells(c);
      var (u, v) := CountLoop(c);
      if v.Fine? { SecondTime(LaterSessions(sessions), u.filemax); }
    }
  }

  /** The file is opened a second time, if at all, just when the first fill came
      without any option naming the size. */
  lemma {:induction false} ReopenedIff(sessions: seq<Session>)
    requires WellFormedSessions(sessions) && Dir(sessions).verdict.Fine?
    ensures var o, later := Opened(NextSession(sessions), -1), LaterSessions(sessions);
      && Sound(o) && o.options == []
      && Dir(sessions).sessions == if NamesSize(Filled(o, false).0.options) then later else LaterSessions(later)
  {
    OpenedReady(sessions, -1);
    var o := Opened(NextSession(sessions), -1);
    FilledKeeps(o, false);
    FillTells(o);
    var t := Filled(o, false).0;
    assert ReadSince(o, t) == t.options;
    if t.filemax == -1 {
      var c := t.(filemax := 0);
      CountTells(c);
      SecondTime(LaterSessions(sessions), CountLoop(c).0.filemax);
    }
  }

  /** An instance: the server agrees on blocks of 40000 bytes, and does not say
      how large the file is. */
  lemma {:induction false} CountsForever(s: Session, later: seq<Session>)
    requires s.sent && WellFormedSessions([s] + later)
    requires s.replies != [] && s.replies[0] == OackOf([Blksize(40000)])
    ensures Dir([s] + later).verdict == Endless
  {
    EndlessIff([s] + later);
    OackIsRead(Blksize(40000));
    var options := [Blksize(40000)];
    assert TermsAfter(Terms(TFTP_DEFAULTSIZE_PACKET, -1), options) == Terms(40000, -1) by {
      assert options[..0] == [];
    }
  }

  // --------------------------------------------------------------------- honest servers

  lemma {:induction false} ReadJoin(t: Transfer, u: Transfer, v: Transfer)
    requires t.options <= u.options && u.options <= v.options
    ensures t.options <= v.options && ReadSince(t, v) == ReadSince(t, u) + ReadSince(u, v)
  {}

  /** What the count comes to: the rest of the file, on top of what filemax was;
      an option that names the size while counting is added to it. */
  lemma {:induction false} CountTotal(file: seq<byte>, b: nat, base: nat, t: Transfer)
    requires Sound(t) && Tracks(file, b, base, t) && (t.prevblock == 0 ==> base == 0)
    ensures var (u, v) := CountLoop(t);
      && !v.Endless? && t.options <= u.options && (t.prevblock > 0 ==> u.options == t.options)
      && (v.Fine? ==> u.filemax == SizeKnown(file, t.filemax, ReadSince(t, u)) + |file| - base)
    decreases |t.net|
  {
    var e := Emptied(t);
    var base' := base + |t.content|;
    WindowSlides(file, b, base, t.content, t.prevblock, t.eof, |t.content|);
    assert t.content[|t.content|..] == [];
    FilledKeeps(e, false);
    FilledTracks(file, b, base', e);
    var (u, ok) := Filled(e, false);
    if ok && !u.eof && !Stuck(u) {
      CountTotal(file, b, base', u);
      ReadJoin(t, u, CountLoop(u).0);
    } else if ok && u.eof {
      AtTheEnd(file, b, base', u);
    }
  }

  lemma {:induction false} AtTheEnd(file: seq<byte>, b: nat, base: nat, t: Transfer)
    requires Tracks(file, b, base, t) && t.eof
    ensures base + |t.content| == |file|
  {}

  /** A count that succeeds has come to the end of the file. */
  lemma {:induction false} CountEnds(file: seq<byte>, b: nat, base: nat, t: Transfer)
    requires Sound(t) && Tracks(file, b, base, t)
    ensures CountLoop(t).1.Fine? ==> |file| < 0xFFFF * b
    ensures Serves(file, b, t.prevblock + 1, t.net) ==> CountLoop(t).1.Fine?
    decreases |t.net|
  {
    var e := Emptied(t);
    var base' := base + |t.content|;
    WindowSlides(file, b, base, t.content, t.prevblock, t.eof, |t.content|);
    assert t.content[|t.content|..] == [];
    FilledKeeps(e, false);
    FilledTracks(file, b, base', e);
    var (u, ok) := Filled(e, false);
    if ok && !u.eof && !Stuck(u) {
      CountEnds(file, b, base', u);
    } else if ok && u.eof {
      EndIsNear(file, b, base', u);
    }
  }

  /** The state of an honest session that has just been opened. */
  lemma {:induction false} OpenedTracks(file: seq<byte>, sessions: seq<Session>, filemax: int)
    requires HonestSessions(file, sessions)
    ensures var s := NextSession(sessions);
      && WellFormedSessions(sessions) && Sound(Opened(s, filemax)) && Tracks(file, s.blksize, 0, Opened(s, filemax))
      && HonestSessions(file, LaterSessions(sessions))
  {
    forall i | 0 <= i < |sessions| ensures WellFormedReplies(sessions[i].replies) {
      assert HonestSession(file, sessions[i]);
    }
    Opening(file, sessions);
  }

  /** A fill that was not cut short has brought data. */
  lemma {:induction false} FilledHasData(file: seq<byte>, b: nat, t: Transfer)
    requires Sound(t) && Tracks(file, b, 0, t) && !Wants(t)
    ensures t.prevblock > 0
  {}

  /** The first fill, and the count if there is one. */
  lemma {:induction false} FirstFill(file: seq<byte>, sessions: seq<Session>)
    requires HonestSessions(file, sessions) && WellFormedSessions(sessions)
    ensures var s := NextSession(sessions); var o := Opened(s, -1); var (t, ok) := Filled(o, false);
      && Sound(o) && Sound(t) && Tracks(file, s.blksize, 0, t) && (t.filemax == -1 || t.filemax == |file|)
      && (ok && NoOther(s.replies) ==> t.prevblock > 0)
      && (Serves(file, s.blksize, 1, s.replies) ==>
            ok && t.prevblock > 0 && Serves(file, s.blksize, t.prevblock + 1, t.net))
  {
    OpenedTracks(file, sessions, -1);
    var s := NextSession(sessions);
    var o := Opened(s, -1);
    FilledTracks(file, s.blksize, 0, o);
    var (t, ok) := Filled(o, false);
    if !Wants(t) { FilledHasData(file, s.blksize, t); }
  }

  // ------------------------------------------------------ when the size is named too late

  /** Whether the packets, before the first block, name the size only after one of
      another kind has cut the first fill short (cut says that one has). */
  ghost predicate Late(net: seq<Reply>, cut: bool) {
    net != [] &&
    match net[0]
    case Data(k, _, _) => k != 1 && Late(net[1..], cut)
    case Oack(_, _) => if NamesSize(OackOptions(net[0])) then cut else Late(net[1..], cut)
    case Other => Late(net[1..], true)
    case _ => Late(net[1..], cut)
  }

  /** Whether they name it in the first fill. */
  ghost predicate Told(net: seq<Reply>) {
    net != [] &&
    match net[0]
    case Data(k, _, _) => k != 1 && Told(net[1..])
    case Oack(_, _) => NamesSize(OackOptions(net[0])) || Told(net[1..])
    case Other => false
    case _ => Told(net[1..])
  }

  /** The same, for a transfer under way. */
  ghost predicate LateAt(t: Transfer, cut: bool) {
    t.prevblock == 0 && Late(t.net, cut)
  }

  ghost predicate ToldAt(t: Transfer) {
    t.prevblock == 0 && Told(t.net)
  }

  predicate Named(file: seq<byte>, t: Transfer, u: Transfer)
    requires t.options <= u.options
  {
    Tsize(|file|) in ReadSince(t, u)
  }

  lemma {:induction false} NamedJoin(file: seq<byte>, t: Transfer, u: Transfer, v: Transfer)
    requires t.options <= u.options && u.options <= v.options
    ensures t.options <= v.options && (Named(file, t, v) <==> Named(file, t, u) || Named(file, u, v))
  {
    ReadJoin(t, u, v);
  }

  lemma {:induction false} HonestNames(file: seq<byte>, b: nat, options: seq<OackOption>)
    requires HonestOptions(file, b, options)
    ensures NamesSize(options) <==> Tsize(|file|) in options
  {
    if NamesSize(options) {
      var i :| 0 <= i < |options| && options[i].Tsize?;
      assert HonestOption(file, b, options[i]);
    }
    if Tsize(|file|) in options {
      var i :| 0 <= i < |options| && options[i] == Tsize(|file|);
      assert options[i].Tsize?;
    }
  }

  lemma {:induction false} StepLate(file: seq<byte>, b: nat, base: nat, t: Transfer, cut: bool)
    requires Sound(t) && Wants(t) && Tracks(file, b, base, t)
    ensures var (u, f) := Step(t, false);
      && t.options <= u.options
      && (f == Again ==> LateAt(t, cut) == if Named(file, t, u) then cut else LateAt(u, cut))
      && (f == Again ==> (ToldAt(t) <==> Named(file, t, u) || ToldAt(u)))
      && (f == Done(true) ==> !Named(file, t, u) && LateAt(t, cut) == LateAt(u, true) && !ToldAt(t))
  {
    StepTracks(file, b, base, t);
    var u := Step(t, false).0;
    if t.net != [] {
      NextReply(file, b, t.packetsize, t.prevblock, t.net);
      if t.net[0].Oack? && t.prevblock == 0 {
        var options := OackOptions(t.net[0]);
        HonestNames(file, b, options);
        HonestTerms(file, b, options, Terms(t.packetsize, t.filemax));
        AllRead(options);
        assert ReadSince(t, u) == options;
      } else {
        assert ReadSince(t, u) == [];
      }
    } else {
      assert ReadSince(t, u) == [];
    }
  }

  lemma {:induction false} WantsAtFirst(file: seq<byte>, b: nat, base: nat, t: Transfer)
    requires Sound(t) && Tracks(file, b, base, t) && t.prevblock == 0
    ensures Wants(t)
  {}

  /** What the packets say about a fill that succeeds. */
  lemma {:induction false} FillLate(file: seq<byte>, b: nat, base: nat, t: Transfer, cut: bool)
    requires Sound(t) && Tracks(file, b, base, t)
    ensures var (u, ok) := Filled(t, false);
      && t.options <= u.options
      && (ok ==> LateAt(t, cut) == if Named(file, t, u) then cut else LateAt(u, true))
      && (ok ==> (ToldAt(t) <==> Named(file, t, u)))
    decreases |t.net|, if t.retry <= MAX_TFTP_RETRIES then MAX_TFTP_RETRIES - t.retry + 1 else 0
  {
    FilledStep(t, false);
    if !Wants(t) {
      if t.prevblock == 0 { WantsAtFirst(file, b, base, t); }
      assert ReadSince(t, t) == [];
    } else {
      StepTracks(file, b, base, t);
      StepShrinks(t, false);
      StepLate(file, b, base, t, cut);
      var (u, f) := Step(t, false);
      if f == Again {
        FillLate(file, b, base, u, cut);
        NamedJoin(file, t, u, Filled(u, false).0);
      }
    }
  }

  /** What they say about a count that succeeds. */
  lemma {:induction false} CountLate(file: seq<byte>, b: nat, base: nat, t: Transfer)
    requires Sound(t) && Tracks(file, b, base, t)
    ensures var (u, v) := CountLoop(t);
      t.options <= u.options && (v.Fine? ==> (Named(file, t, u) <==> LateAt(t, true)))
    decreases |t.net|
  {
    var e := Emptied(t);
    var base' := base + |t.content|;
    WindowSlides(file, b, base, t.content, t.prevblock, t.eof, |t.content|);
    assert t.content[|t.content|..] == [];
    FilledKeeps(e, false);
    FilledTracks(file, b, base', e);
    FillLate(file, b, base', e, true);
    var (u, ok) := Filled(e, false);
    if ok && !u.eof && !Stuck(u) {
      CountLate(file, b, base', u);
      NamedJoin(file, t, u, CountLoop(u).0);
    }
  }

  /** The length that filemax comes to. */
  ghost function SizeFound(file: seq<byte>, sessions: seq<Session>): nat {
    var first, second := NextSession(sessions), NextSession(LaterSessions(sessions));
    if Late(first.replies, false) && !Told(second.replies) then 2 * |file| else |file|
  }

  /** With an honest server, tftp_dir comes to an end. If it succeeds, the file
      is open at its start and its size known; the size is wrong, by a factor of
      two, if and only if the packets name it too late, and not again. */
  lemma {:induction false} DirHonest(file: seq<byte>, sessions: seq<Session>, filepos: nat)
    requires HonestSessions(file, sessions) && WellFormedSessions(sessions)
    ensures var d := Dir(sessions);
      && !d.verdict.Endless?
      && (d.verdict.Fine? ==> Positioned(file, Reader(d.t, 0, filepos, d.sessions, d.blksize)))
      && (d.verdict.Fine? ==> d.t.filemax == SizeFound(file, sessions))
  {
    FirstFill(file, sessions);
    OpenedTracks(file, sessions, -1);
    var s, later := NextSession(sessions), LaterSessions(sessions);
    var o := Opened(s, -1);
    var (t, ok) := Filled(o, false);
    FilledTracks(file, s.blksize, 0, o);
    FillLate(file, s.blksize, 0, o, false);
    if s.sent && ok && t.filemax == -1 {
      var c := t.(filemax := 0);
      CountTotal(file, s.blksize, 0, c);
      CountLate(file, s.blksize, 0, c);
      CountTells(c);
      var (u, v) := CountLoop(c);
      if v.Fine? {
        SecondTime(later, u.filemax);
        OpenedTracks(file, later, u.filemax);
        var o' := Opened(NextSession(later), u.filemax);
        FilledTracks(file, NextSession(later).blksize, 0, o');
        FillLate(file, NextSession(later).blksize, 0, o', false);
      }
    }
  }

  /** A file that had to be counted has no more blocks than can be numbered. */
  lemma {:induction false} CountedIsSmall(file: seq<byte>, sessions: seq<Session>)
    requires HonestSessions(file, sessions) && WellFormedSessions(sessions) && Dir(sessions).verdict.Fine?
    ensures var s, later := NextSession(sessions), LaterSessions(sessions);
      Dir(sessions).sessions == later || |file| < 0xFFFF * s.blksize
  {
    FirstFill(file, sessions);
    DirStep(sessions, -1);
    var s := NextSession(sessions);
    var t := Filled(Opened(s, -1), false).0;
    if t.filemax == -1 { CountEnds(file, s.blksize, 0, t.(filemax := 0)); }
  }

  lemma {:induction false} NotLate(net: seq<Reply>)
    requires NoOther(net)
    ensures !Late(net, false)
  {
    if net != [] {
      RestHasNoOther(net);
      NotLate(net[1..]);
    }
  }

  /** If the server sends no packets of other kinds, the size is right. */
  lemma {:induction false} SizeIsRight(file: seq<byte>, sessions: seq<Session>)
    requires HonestSessions(file, sessions) && NoOther(NextSession(sessions).replies) && WellFormedSessions(sessions)
    ensures Dir(sessions).verdict.Fine? ==> Dir(sessions).t.filemax == |file|
  {
    NotLate(NextSession(sessions).replies);
    DirHonest(file, sessions, 0);
  }

  /** If the packets needed arrive in two sessions, the size is found out, and
      it is right. */
  lemma {:induction false} DirServed(file: seq<byte>, sessions: seq<Session>)
    requires HonestSessions(file, sessions) && WellFormedSessions(sessions)
    requires Delivers(file, NextSession(sessions)) && Delivers(file, NextSession(LaterSessions(sessions)))
    ensures Dir(sessions).verdict.Fine? && Dir(sessions).t.filemax == |file|
  {
    FirstFill(file, sessions);
    DirHonest(file, sessions, 0);
    OpenedTracks(file, sessions, -1);
    var s, later := NextSession(sessions), LaterSessions(sessions);
    var t := Filled(Opened(s, -1), false).0;
    if t.filemax == -1 {
      var c := t.(filemax := 0);
      CountTotal(file, s.blksize, 0, c);
      CountEnds(file, s.blksize, 0, c);
      CountTells(c);
      SecondTime(later, CountLoop(c).0.filemax);
      OpenedTracks(file, later, CountLoop(c).0.filemax);
      FilledTracks(file, NextSession(later).blksize, 0, Opened(NextSession(later), CountLoop(c).0.filemax));
    }
  }
}
