/** Opening a file and finding out its size, on values: from the server if it
    tells, otherwise by receiving the file once and opening it again. */
module TftpCount {
  import opened TftpMachine
  import opened TftpOack
  import opened TftpProtocol
  import opened TftpTracks

  datatype Errnum = NoError | ErrRead | ErrWrite | ErrFileNotFound

  /** How tftp_dir, or its counting loop, comes out; Endless if it never does. */
  datatype Verdict = Fine | Fails(err: Errnum) | Endless

  /** The start of a counting round: the buffer is counted and discarded. */
  function Emptied(t: Transfer): Transfer {
    t.(filemax := t.filemax + |t.content|, content := [])
  }

  /** Nothing fits the buffer, and the end of the file has not been seen. */
  predicate Stuck(t: Transfer) {
    !t.eof && t.packetsize > FSYS_BUFLEN
  }

  /** The counting loop, up to the point where it is seen to be endless. */
  ghost function CountLoop(t: Transfer): (Transfer, Verdict)
    requires Sound(t)
    decreases |t.net|
  {
    FilledKeeps(Emptied(t), false);
    var (u, ok) := Filled(Emptied(t), false);
    if !ok then (u, Fails(ErrRead))
    else if u.eof then (Emptied(u).(content := u.content), Fine)
    else if Stuck(u) then (u, Endless)
    else CountLoop(u)
  }

  /** One round of the loop. */
  lemma {:induction false} CountStep(t: Transfer)
    requires Sound(t)
    ensures Sound(Emptied(t)) && WellFormedReplies(Emptied(t).net)
    ensures var (u, ok) := Filled(Emptied(t), false);
      && Sound(u)
      && (!ok ==> CountLoop(t) == (u, Fails(ErrRead)))
      && (ok && u.eof ==> CountLoop(t) == (Emptied(u).(content := u.content), Fine))
      && (ok && Stuck(u) ==> CountLoop(t) == (u, Endless))
      && (ok && !u.eof && !Stuck(u) ==> CountLoop(t) == CountLoop(u) && |u.net| < |t.net|)
  {
    FilledKeeps(Emptied(t), false);
  }

  /** The loop goes at least n rounds from t on. */
  ghost predicate Goes(t: Transfer, n: nat)
    requires Sound(t)
    decreases n
  {
    n == 0 ||
    (FilledKeeps(Emptied(t), false);
     var (u, ok) := Filled(Emptied(t), false);
     ok && !u.eof && Goes(u, n - 1))
  }

  lemma {:induction false} StuckStays(t: Transfer)
    requires Sound(t) && Stuck(t)
    ensures Sound(Emptied(t)) && Stuck(Emptied(t)) && Filled(Emptied(t), false) == (Emptied(t), true)
  {
    FilledStep(Emptied(t), false);
  }

  lemma {:induction false} StuckGoes(t: Transfer, n: nat)
    requires Sound(t) && Stuck(t)
    ensures Goes(t, n)
    decreases n
  {
    StuckStays(t);
    if n > 0 { StuckGoes(Emptied(t), n - 1); }
  }

  lemma {:induction false} EndlessGoes(t: Transfer, n: nat)
    requires Sound(t) && CountLoop(t).1.Endless?
    ensures Goes(t, n)
    decreases n
  {
    if n > 0 {
      FilledKeeps(Emptied(t), false);
      var u := Filled(Emptied(t), false).0;
      if Stuck(u) { StuckGoes(u, n - 1); } else { EndlessGoes(u, n - 1); }
    }
  }

  lemma {:induction false} OtherwiseEnds(t: Transfer)
    requires Sound(t) && !CountLoop(t).1.Endless?
    ensures !Goes(t, |t.net| + 2)
    decreases |t.net|
  {
    FilledKeeps(Emptied(t), false);
    var (u, ok) := Filled(Emptied(t), false);
    if ok && !u.eof {
      OtherwiseEnds(u);
      if Goes(u, |t.net| + 1) { GoesLess(u, |u.net| + 2, |t.net| + 1); }
    }
  }

  lemma {:induction false} GoesLess(t: Transfer, m: nat, n: nat)
    requires Sound(t) && m <= n && Goes(t, n)
    ensures Goes(t, m)
    decreases m
  {
    if m > 0 {
      FilledKeeps(Emptied(t), false);
      GoesLess(Filled(Emptied(t), false).0, m - 1, n - 1);
    }
  }

  /** The verdict is right: the loop is never left if and only if it goes round
      any number of times. */
  lemma {:induction false} EndlessIsForever(t: Transfer)
    requires Sound(t)
    ensures CountLoop(t).1.Endless? <==> forall n: nat :: Goes(t, n)
  {
    if CountLoop(t).1.Endless? {
      forall n: nat ensures Goes(t, n) { EndlessGoes(t, n); }
    } else {
      OtherwiseEnds(t);
    }
  }

  // -------------------------------------------------------- when the count is endless

  /** Whether the packets to come leave the client, before the first block of a
      transfer, with an agreed block size larger than its buffer: the last one
      named by an OACK it accepts. In the first fill this does no harm if the
      server also tells the size of the file, for then nothing is counted. */
  ghost predicate Overlarge(net: seq<Reply>, terms: Terms, retry: nat, first: bool)
    requires WellFormedReplies(net)
    decreases |net|
  {
    if terms.packetsize > FSYS_BUFLEN then !(first && terms.filemax != -1)
    else if net == [] then false
    else
      RestWellFormed(net);
      match net[0]
      case Timeout(aborted, resent) =>
        !aborted && resent && retry < MAX_TFTP_RETRIES && Overlarge(net[1..], terms, retry + 1, first)
      case Error => false
      case Oack(_, _) =>
        var options := OackOptions(net[0]);
        AllAcceptable(options) && Overlarge(net[1..], TermsAfter(terms, options), retry, first)
      case Data(k, udpLen, _) =>
        !(k == 1 && DataLength(udpLen) <= terms.packetsize) && Overlarge(net[1..], terms, retry, first)
      case Other => !(first && terms.filemax != -1) && Overlarge(net[1..], terms, retry, false)
  }

  /** The same, for a transfer under way. */
  ghost predicate WillStick(t: Transfer, first: bool)
    requires Sound(t)
  {
    t.prevblock == 0 && !t.eof && Overlarge(t.net, Terms(t.packetsize, t.filemax), t.retry, first)
  }

  lemma {:induction false} StepSticks(t: Transfer, first: bool)
    requires Sound(t) && Wants(t)
    ensures var (u, f) := Step(t, false);
      && Sound(u)
      && (f == Again ==> (WillStick(t, first) <==> WillStick(u, first)))
      && (f == Done(true) ==> (WillStick(t, first) <==> !(first && u.filemax != -1) && WillStick(u, false)))
      && (f == Done(false) ==> !WillStick(t, first))
  {
    StepKeeps(t, false);
    if t.net != [] {
      RestWellFormed(t.net);
      if t.net[0].Oack? && AllAcceptable(OackOptions(t.net[0])) { AllRead(OackOptions(t.net[0])); }
    }
  }

  lemma {:induction false} FillSticks(t: Transfer, first: bool)
    requires Sound(t)
    ensures var (u, ok) := Filled(t, false);
      Sound(u) && (WillStick(t, first) <==> ok && !(first && u.filemax != -1) && WillStick(u, false))
    decreases |t.net|, if t.retry <= MAX_TFTP_RETRIES then MAX_TFTP_RETRIES - t.retry + 1 else 0
  {
    FilledStep(t, false);
    if Wants(t) {
      StepSticks(t, first);
      StepShrinks(t, false);
      var (u, f) := Step(t, false);
      if f == Again { FillSticks(u, first); }
    }
  }

  lemma {:induction false} CountSticks(t: Transfer)
    requires Sound(t)
    ensures CountLoop(t).1.Endless? <==> WillStick(t, false)
    decreases |t.net|
  {
    var e := Emptied(t);
    assert t.prevblock == 0 ==> e == t;
    FilledKeeps(e, false);
    FillSticks(e, false);
    var (u, ok) := Filled(e, false);
    if ok && !u.eof && !Stuck(u) { CountSticks(u); }
  }

  /** Once the count has begun, the size known so far does not matter. */
  lemma {:induction false} SizeIsNoMatter(net: seq<Reply>, packetsize: int, filemax: int, filemax': int, retry: nat)
    requires WellFormedReplies(net)
    ensures Overlarge(net, Terms(packetsize, filemax), retry, false) == Overlarge(net, Terms(packetsize, filemax'), retry, false)
    decreases |net|
  {
    if packetsize <= FSYS_BUFLEN && net != [] {
      RestWellFormed(net);
      match net[0] {
        case Timeout(_, _) => SizeIsNoMatter(net[1..], packetsize, filemax, filemax', retry + 1);
        case Oack(_, _) =>
          var options := OackOptions(net[0]);
          SizesApart(Terms(packetsize, filemax), Terms(packetsize, filemax'), options);
          var u, u' := TermsAfter(Terms(packetsize, filemax), options), TermsAfter(Terms(packetsize, filemax'), options);
          SizeIsNoMatter(net[1..], u.packetsize, u.filemax, u'.filemax, retry);
        case _ => SizeIsNoMatter(net[1..], packetsize, filemax, filemax', retry);
      }
    }
  }

  lemma {:induction false} SizesApart(t: Terms, t': Terms, options: seq<OackOption>)
    requires t.packetsize == t'.packetsize
    ensures TermsAfter(t, options).packetsize == TermsAfter(t', options).packetsize
  {
    if options != [] { SizesApart(t, t', options[..|options| - 1]); }
  }

  // ------------------------------------------------------------------- what is learned

  lemma {:induction false} TermsJoin(t: Terms, a: seq<OackOption>, b: seq<OackOption>)
    ensures TermsAfter(t, a + b) == TermsAfter(TermsAfter(t, a), b)
    decreases |b|
  {
    if b == [] {
      assert a + b == a;
    } else {
      assert (a + b)[..|a + b| - 1] == a + b[..|b| - 1];
      TermsJoin(t, a, b[..|b| - 1]);
    }
  }

  /** What is agreed on follows from the options that have been read; a fill that
      succeeds has read acceptable ones only. */
  ghost predicate Learned(t: Transfer, u: Transfer) {
    t.options <= u.options && Terms(u.packetsize, u.filemax) == TermsAfter(Terms(t.packetsize, t.filemax), ReadSince(t, u))
  }

  lemma {:induction false} LearnedOn(t: Transfer, u: Transfer, v: Transfer)
    requires Learned(t, u) && Learned(u, v)
    ensures Learned(t, v) && ReadSince(t, v) == ReadSince(t, u) + ReadSince(u, v)
  {
    assert ReadSince(t, v) == ReadSince(t, u) + ReadSince(u, v);
    TermsJoin(Terms(t.packetsize, t.filemax), ReadSince(t, u), ReadSince(u, v));
  }

  lemma {:induction false} StepLearns(t: Transfer)
    requires WellFormedReplies(t.net)
    ensures var (u, f) := Step(t, false);
      Learned(t, u) && (f != Done(false) ==> AllAcceptable(ReadSince(t, u)))
  {
    var u := Step(t, false).0;
    if t.net != [] && t.net[0].Oack? && t.prevblock == 0 {
      assert ReadSince(t, u) == OptionsRead(OackOptions(t.net[0]));
    } else {
      assert ReadSince(t, u) == [];
    }
  }

  lemma {:induction false} FillLearns(t: Transfer)
    requires Sound(t)
    ensures var (u, ok) := Filled(t, false);
      Learned(t, u) && (ok ==> AllAcceptable(ReadSince(t, u)))
    decreases |t.net|, if t.retry <= MAX_TFTP_RETRIES then MAX_TFTP_RETRIES - t.retry + 1 else 0
  {
    FilledStep(t, false);
    if !Wants(t) {
      assert ReadSince(t, t) == [];
    } else {
      StepKeeps(t, false);
      StepShrinks(t, false);
      StepLearns(t);
      var (u, f) := Step(t, false);
      if f == Again {
        FillLearns(u);
        LearnedOn(t, u, Filled(u, false).0);
      }
    }
  }

  predicate NamesSize(options: seq<OackOption>) {
    exists i :: 0 <= i < |options| && options[i].Tsize?
  }

  lemma {:induction false} SizeAfter(t: Terms, options: seq<OackOption>)
    requires AllAcceptable(options)
    ensures if NamesSize(options) then TermsAfter(t, options).filemax >= 0 else TermsAfter(t, options).filemax == t.filemax
  {
    if options != [] {
      var n := |options| - 1;
      SizeAfter(t, options[..n]);
      if NamesSize(options[..n]) {
        var i :| 0 <= i < n && options[..n][i].Tsize?;
        assert options[i].Tsize?;
      }
      if NamesSize(options) && !options[n].Tsize? {
        var i :| 0 <= i < |options| && options[i].Tsize?;
        assert options[..n][i].Tsize?;
      }
    }
  }

  /** After a fill that succeeded the size is known if it was before, or if an
      option said it. */
  lemma {:induction false} FillTells(t: Transfer)
    requires Sound(t) && t.filemax >= -1 && Filled(t, false).1
    ensures var u := Filled(t, false).0;
      t.options <= u.options && u.filemax >= -1 && (u.filemax != -1 <==> t.filemax != -1 || NamesSize(ReadSince(t, u)))
  {
    FillLearns(t);
    SizeAfter(Terms(t.packetsize, t.filemax), ReadSince(t, Filled(t, false).0));
  }

  lemma {:induction false} CountTells(t: Transfer)
    requires Sound(t) && t.filemax >= 0
    ensures var (u, v) := CountLoop(t); Sound(u) && (v.Fine? ==> u.filemax >= 0)
    decreases |t.net|
  {
    FilledKeeps(Emptied(t), false);
    var (u, ok) := Filled(Emptied(t), false);
    if ok { FillTells(Emptied(t)); }
    if ok && !u.eof && !Stuck(u) { CountTells(u); }
  }
}
