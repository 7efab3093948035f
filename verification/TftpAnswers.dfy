/** What the client sends: a server in lock step is told of every block when it
    has been stored, and of no other. */
module TftpAnswers {
  import opened Bytes
  import opened TftpCount
  import opened TftpDirectory
  import opened TftpLaws
  import opened TftpMachine
  import opened TftpOack
  import opened TftpProtocol
  import opened TftpTracks

  /** The packet is answered: DATA that is not too long, and before the first
      block an OACK. */
  ghost predicate IsAnswered(t: Transfer, r: Reply) {
    match r
    case Data(_, udpLen, _) => udpLen < 0x10000 && DataLength(udpLen) <= t.packetsize
    case Oack(_, _) => t.prevblock == 0
    case _ => false
  }

  /** One packet: it is answered once if at all, with the number of the last
      block stored, itself included, or with a refusal of its options. */
  lemma {:induction false} StepAnswers(t: Transfer)
    requires Sound(t) && Wants(t) && t.net != []
    ensures var (r, (t', f)) := (t.net[0], Step(t, false));
      && (!IsAnswered(t, r) ==> t'.sent == t.sent && t'.prevblock == t.prevblock)
      && (IsAnswered(t, r) && r.Data? ==> f == Again && t'.sent == t.sent + [Ack(t'.prevblock)])
      && (r.Data? && IsAnswered(t, r) ==> t'.prevblock == if r.block == t.prevblock + 1 then r.block else t.prevblock)
      && (r.Oack? && IsAnswered(t, r) ==>
            (t'.prevblock == 0 &&
             if AllAcceptable(OackOptions(r)) then f == Again && t'.sent == t.sent + [Ack(0)]
             else f == Done(false) && t'.sent == t.sent + [Refusal]))
  {
    RestWellFormed(t.net);
  }

  /** An OACK that names a block size is gone along with if that is at least 512,
      and one that names the size of the file always. */
  lemma {:induction false} OptionAnswered(t: Transfer, o: OackOption)
    requires Sound(t) && Wants(t) && t.prevblock == 0 && Writable(o)
    requires t.net != [] && t.net[0] == OackOf([o])
    ensures var (t', f) := Step(t, false);
      if o.Blksize? && o.value < 512 then f == Done(false) && t'.sent == t.sent + [Refusal]
      else
        && f == Again && t'.sent == t.sent + [Ack(0)]
        && t'.packetsize == (if o.Blksize? then o.value else t.packetsize)
        && t'.filemax == (if o.Tsize? then o.value else t.filemax)
  {
    OackIsRead(o);
    StepAnswers(t);
    if Acceptable(o) { AllRead([o]); }
    assert TermsAfter(Terms(t.packetsize, t.filemax), [o]) == ReadOption(Terms(t.packetsize, t.filemax), o) by {
      assert [o][..0] == [];
    }
    assert AllAcceptable([o]) <==> Acceptable([o][0]);
  }

  /** When nothing comes, nothing is answered. */
  lemma {:induction false} QuietStep(t: Transfer)
    requires Sound(t) && Wants(t) && t.net == []
    ensures var t' := Step(t, false).0; t'.sent == t.sent && t'.prevblock == t.prevblock
  {}

  /** The acknowledgments go from block from on up to block to, one at a time,
      the last one stored being acknowledged last. */
  predicate Climbs(acks: seq<Sent>, from: nat, to: nat) {
    && (if acks == [] then from == to else acks[|acks| - 1] == Ack(to))
    && forall i :: 0 <= i < |acks| ==> acks[i].Ack? && Before(acks, from, i) <= acks[i].block <= Before(acks, from, i) + 1
  }

  /** The block acknowledged before the i-th acknowledgment. */
  function Before(acks: seq<Sent>, from: nat, i: nat): nat
    requires i < |acks|
  {
    if i == 0 then from else if acks[i - 1].Ack? then acks[i - 1].block else 0
  }

  /** The answers climb; if the transfer was refused, the refusal follows. */
  predicate Tells(answers: seq<Sent>, from: nat, to: nat, refused: bool) {
    if refused then answers != [] && answers[|answers| - 1] == Refusal && Climbs(answers[..|answers| - 1], from, to)
    else Climbs(answers, from, to)
  }

  /** What t' has sent since t climbs to the last block stored. */
  predicate Told(t: Transfer, t': Transfer, refused: bool) {
    t.sent <= t'.sent && Tells(t'.sent[|t.sent|..], t.prevblock, t'.prevblock, refused)
  }

  lemma {:induction false} ClimbOn(a: seq<Sent>, b: seq<Sent>, from: nat, k: nat, to: nat)
    requires Climbs(a, from, k) && Climbs(b, k, to)
    ensures Climbs(a + b, from, to)
  {
    var all := a + b;
    forall i | 0 <= i < |all|
      ensures all[i].Ack? && Before(all, from, i) <= all[i].block <= Before(all, from, i) + 1
    {
      if i < |a| {
        assert all[i] == a[i] && Before(all, from, i) == Before(a, from, i);
      } else {
        assert all[i] == b[i - |a|] && Before(all, from, i) == Before(b, k, i - |a|);
      }
    }
  }

  lemma {:induction false} TellsOn(a: seq<Sent>, b: seq<Sent>, from: nat, k: nat, to: nat, refused: bool)
    requires Climbs(a, from, k) && Tells(b, k, to, refused)
    ensures Tells(a + b, from, to, refused)
  {
    if refused {
      ClimbOn(a, b[..|b| - 1], from, k, to);
      assert (a + b)[..|a + b| - 1] == a + b[..|b| - 1];
    } else {
      ClimbOn(a, b, from, k, to);
    }
  }

  lemma {:induction false} ToldOn(t: Transfer, u: Transfer, v: Transfer, refused: bool)
    requires Told(t, u, false) && Told(u, v, refused)
    ensures Told(t, v, refused)
  {
    TellsOn(u.sent[|t.sent|..], v.sent[|u.sent|..], t.prevblock, u.prevblock, v.prevblock, refused);
    assert v.sent[|t.sent|..] == u.sent[|t.sent|..] + v.sent[|u.sent|..];
  }

  lemma {:induction false} ToldStep(t: Transfer) returns (refused: bool)
    requires Sound(t) && Wants(t)
    ensures var (t', f) := Step(t, false); Told(t, t', refused) && (refused ==> f == Done(false) && t.prevblock == 0)
  {
    var (t', f) := Step(t, false);
    if t.net == [] { QuietStep(t); } else { StepAnswers(t); }
    refused := t'.sent == t.sent + [Refusal];
    var answers := t'.sent[|t.sent|..];
    assert t'.sent == t.sent || answers == [t'.sent[|t.sent|]];
  }

  /** Over a fill, whatever comes: the new acknowledgments rise by one block at a
      time at most and end at the last block stored. Only a fill that fails
      before the first block has refused the transfer. */
  lemma {:induction false} FillAnswers(t: Transfer) returns (refused: bool)
    requires Sound(t)
    ensures var (t', ok) := Filled(t, false); Told(t, t', refused) && (refused ==> !ok && t'.prevblock == 0)
    decreases |t.net|, if t.retry <= MAX_TFTP_RETRIES then MAX_TFTP_RETRIES - t.retry + 1 else 0
  {
    FilledStep(t, false);
    if !Wants(t) {
      assert t.sent[|t.sent|..] == [];
      return false;
    }
    StepKeeps(t, false);
    StepShrinks(t, false);
    refused := ToldStep(t);
    var (u, f) := Step(t, false);
    if f == Again {
      refused := FillAnswers(u);
      ToldOn(t, u, Filled(u, false).0, refused);
    }
  }

  // ------------------------------------------------------------------ in lock step

  /** What a lock-step server sends on an acknowledgment: the next block. */
  function Responses(file: seq<byte>, b: nat, answers: seq<Sent>): seq<Reply> {
    if answers == [] then [] else
      var a := answers[|answers| - 1];
      Responses(file, b, answers[..|answers| - 1]) +
      if a.Ack? && Exists(file, b, a.block + 1) then
        [Data(a.block + 1, |Block(file, b, a.block + 1)| + 12, Block(file, b, a.block + 1))]
      else []
  }

  /** The acknowledgments of the OACK and the first n blocks. */
  function AcksUpto(n: nat): seq<Sent> {
    if n == 0 then [Ack(0)] else AcksUpto(n - 1) + [Ack(n)]
  }

  /** The state in which blocks 1 to prevblock have come, each once. */
  ghost predicate InStep(file: seq<byte>, b: nat, t: Transfer) {
    0 < b && t.net == Blocks(file, b, t.prevblock + 1) && t.sent == AcksUpto(t.prevblock)
  }

  lemma {:induction false} StepInStep(file: seq<byte>, b: nat, base: nat, t: Transfer)
    requires Sound(t) && Wants(t) && Tracks(file, b, base, t) && InStep(file, b, t) && b == t.packetsize
    ensures var (t', f) := Step(t, false);
      f == Again && Sound(t') && Tracks(file, b, base, t') && InStep(file, b, t') && b == t'.packetsize
  {
    var k := t.prevblock + 1;
    BlockBounds(file, b, k);
    var r := t.net[0];
    RestWellFormed(t.net);
    assert DataLength(r.udpLen) == |Block(file, b, k)|;
    StepTracks(file, b, base, t);
    StepAnswers(t);
    StepShrinks(t, false);
    assert t.net[1..] == Blocks(file, b, k + 1);
  }

  lemma {:induction false} FilledInStep(file: seq<byte>, b: nat, base: nat, t: Transfer)
    requires Sound(t) && Tracks(file, b, base, t) && InStep(file, b, t) && b == t.packetsize
    ensures var (t', ok) := Filled(t, false);
      ok && Sound(t') && Tracks(file, b, base, t') && InStep(file, b, t') && b == t'.packetsize && !Wants(t')
    decreases |t.net|
  {
    FilledStep(t, false);
    if Wants(t) {
      StepInStep(file, b, base, t);
      StepShrinks(t, false);
      FilledInStep(file, b, base, Step(t, false).0);
    }
  }

  lemma {:induction false} CountInStep(file: seq<byte>, b: nat, base: nat, t: Transfer)
    requires Sound(t) && Tracks(file, b, base, t) && InStep(file, b, t) && b == t.packetsize
    ensures var (t', v) := CountLoop(t); v == Fine && InStep(file, b, t') && t'.net == []
    decreases |t.net|
  {
    var e, base' := Emptied(t), base + |t.content|;
    WindowSlides(file, b, base, t.content, t.prevblock, t.eof, |t.content|);
    assert t.content[|t.content|..] == [];
    CountStep(t);
    FilledInStep(file, b, base', e);
    var u := Filled(e, false).0;
    if !u.eof { CountInStep(file, b, base', u); }
  }

  /** The responses to the acknowledgments up to that of block j are the blocks
      up to the next one. */
  lemma {:induction false} AllResponses(file: seq<byte>, b: nat, j: nat)
    requires b > 0
    ensures Responses(file, b, AcksUpto(j)) + Blocks(file, b, j + 2) == Blocks(file, b, 1)
  {
    if j == 0 {
      FirstResponse(file, b);
    } else {
      AllResponses(file, b, j - 1);
      OneResponse(file, b, AcksUpto(j - 1), j);
    }
  }

  lemma {:induction false} FirstResponse(file: seq<byte>, b: nat)
    requires b > 0
    ensures Responses(file, b, AcksUpto(0)) + Blocks(file, b, 2) == Blocks(file, b, 1)
  {
    var answers := AcksUpto(0);
    assert answers == [Ack(0)] && answers[..0] == [] && Exists(file, b, 1);
    var r := Data(1, |Block(file, b, 1)| + 12, Block(file, b, 1));
    assert Responses(file, b, answers) == [] + [r] == [r];
  }

  lemma {:induction false} OneResponse(file: seq<byte>, b: nat, answers: seq<Sent>, k: nat)
    requires b > 0
    ensures Responses(file, b, answers + [Ack(k)]) + Blocks(file, b, k + 2) == Responses(file, b, answers) + Blocks(file, b, k + 1)
  {
    FullGrows(b, k, k + 1);
    var all := answers + [Ack(k)];
    assert all[..|all| - 1] == answers;
    if Exists(file, b, k + 1) {
      var r := Data(k + 1, |Block(file, b, k + 1)| + 12, Block(file, b, k + 1));
      assert Responses(file, b, answers) + [r] + Blocks(file, b, k + 2) == Responses(file, b, answers) + ([r] + Blocks(file, b, k + 2));
    }
  }

  lemma {:induction false} NothingFollows(file: seq<byte>, b: nat, k: nat, s: seq<Reply>)
    requires b > 0 && Blocks(file, b, k + 1) == []
    ensures s + Blocks(file, b, k + 2) == s
  {
    FullGrows(b, k, k + 1);
    assert Blocks(file, b, k + 2) == [];
  }

  lemma {:induction false} SameCount(t: Transfer, u: Transfer)
    requires Sound(t) && Sound(u)
    requires WellFormedReplies(t.net) && WellFormedReplies(u.net) && Filled(Emptied(t), false) == Filled(Emptied(u), false)
    ensures CountLoop(t) == CountLoop(u)
  {
    CountStep(t);
    CountStep(u);
  }

  /** The session as it is opened. */
  lemma {:induction false} JustOpened(file: seq<byte>, b: nat)
    requires TFTP_DEFAULTSIZE_PACKET <= b <= TFTP_MAX_PACKET && |file| < 0xFFFF * b
    ensures var o := Opened(Undisturbed(file, b), 0);
      && Sound(o) && Wants(o) && Tracks(file, b, 0, o) && WellFormedReplies(o.net)
      && o.net == [OackOf([Blksize(b)])] + Blocks(file, b, 1) && OackOptions(o.net[0]) == [Blksize(b)]
  {
    UndisturbedServes(file, b);
    OpenedTracks(file, [Undisturbed(file, b)], 0);
    OackIsRead(Blksize(b));
  }

  /** The OACK is acknowledged as block 0. */
  lemma {:induction false} OackInStep(file: seq<byte>, b: nat)
    requires TFTP_DEFAULTSIZE_PACKET <= b <= TFTP_MAX_PACKET && |file| < 0xFFFF * b
    ensures var o := Opened(Undisturbed(file, b), 0);
      && Sound(o) && Wants(o) && WellFormedReplies(o.net)
      && var (u, f) := Step(o, false);
      && f == Again && Sound(u) && Tracks(file, b, 0, u) && InStep(file, b, u) && u.packetsize == b
      && Emptied(o) == o && Emptied(u) == u
  {
    JustOpened(file, b);
    var o := Opened(Undisturbed(file, b), 0);
    OptionAnswered(o, Blksize(b));
    StepTracks(file, b, 0, o);
    StepShrinks(o, false);
    StepAnswers(o);
    assert o.net[1..] == Blocks(file, b, 1);
    assert AcksUpto(0) == [Ack(0)] && [] + [Ack(0)] == [Ack(0)];
  }

  lemma {:induction false} OackIsCounted(file: seq<byte>, b: nat)
    requires TFTP_DEFAULTSIZE_PACKET <= b <= TFTP_MAX_PACKET && |file| < 0xFFFF * b
    ensures var o := Opened(Undisturbed(file, b), 0);
      && Sound(o) && WellFormedReplies(o.net) && Sound(Step(o, false).0) && CountLoop(o) == CountLoop(Step(o, false).0)
  {
    OackInStep(file, b);
    var o := Opened(Undisturbed(file, b), 0);
    FilledStep(o, false);
    SameCount(o, Step(o, false).0);
  }

  /** A server that sends a block for every acknowledgment of the one before it
      gets all its blocks acknowledged: the packets of an undisturbed session
      are what the answers to them call for. */
  lemma {:induction false} LockStep(file: seq<byte>, b: nat)
    requires TFTP_DEFAULTSIZE_PACKET <= b <= TFTP_MAX_PACKET && |file| < 0xFFFF * b
    ensures var s := Undisturbed(file, b);
      && WellFormedReplies(s.replies) && Sound(Opened(s, 0))
      && var (all, v) := CountLoop(Opened(s, 0));
      && v == Fine && all.net == [] && all.sent == AcksUpto(all.prevblock)
      && s.replies == [OackOf([Blksize(b)])] + Responses(file, b, all.sent)
  {
    OackInStep(file, b);
    OackIsCounted(file, b);
    var o := Opened(Undisturbed(file, b), 0);
    CountInStep(file, b, 0, Step(o, false).0);
    var k := CountLoop(o).0.prevblock;
    AllResponses(file, b, k);
    NothingFollows(file, b, k, Responses(file, b, AcksUpto(k)));
  }
}
