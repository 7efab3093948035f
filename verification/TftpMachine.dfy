/** The TFTP client on values: what each packet, each fill of the buffer and
    each read does to the state of a transfer. The class in Tftp.dfy is proved
    to behave so. Safety for all packets is proved here, contents and sizes under
    an honest server in TftpTracks, TftpReader, TftpDirectory and TftpLaws. */
module TftpMachine {
  import opened Bytes
  import opened TftpOack
  import opened TftpProtocol

  /** The client's answers: an acknowledgment, or an error that ends the transfer. */
  datatype Sent = Ack(block: nat) | Quit | Refusal

  /** A transfer: the bytes in the buffer, the last block stored, the replies
      still to come, the answers given, and the options of OACKs read. */
  datatype Transfer = Transfer(content: seq<byte>, prevblock: nat, packetsize: int, eof: bool, filemax: int,
                               retry: nat, net: seq<Reply>, sent: seq<Sent>, options: seq<OackOption>)

  /** The state after an option that is read. */
  datatype Terms = Terms(packetsize: int, filemax: int)

  function ReadOption(t: Terms, o: OackOption): Terms {
    match o
    case Blksize(n) => t.(packetsize := n)
    case Tsize(n) => t.(filemax := if n < 0 then -1 else n)
    case Unknown => t
  }

  function TermsAfter(t: Terms, options: seq<OackOption>): Terms {
    if options == [] then t else ReadOption(TermsAfter(t, options[..|options| - 1]), options[|options| - 1])
  }

  /** The options read: all up to the first that is not acceptable. */
  function OptionsRead(options: seq<OackOption>): (read: seq<OackOption>)
    ensures read <= options
  {
    if options == [] then [] else
      assert options == [options[0]] + options[1..];
      if Acceptable(options[0]) then [options[0]] + OptionsRead(options[1..]) else [options[0]]
  }

  lemma {:induction false} AllRead(options: seq<OackOption>)
    requires AllAcceptable(options)
    ensures OptionsRead(options) == options
  {
    if options != [] { AllRead(options[1..]); }
  }

  /** One more option, the first of the rest: what is read so far, or in all. */
  lemma {:induction false} OneMoreRead(all: seq<OackOption>, t: Terms, before: seq<OackOption>, done: seq<OackOption>,
                                       o: OackOption, rest: seq<OackOption>)
    requires all == done + rest && AllAcceptable(done) && rest != [] && rest[0] == o
    ensures TermsAfter(t, done + [o]) == ReadOption(TermsAfter(t, done), o) && before + (done + [o]) == before + done + [o]
    ensures if Acceptable(o) then AllAcceptable(done + [o]) && all == (done + [o]) + rest[1..]
      else !AllAcceptable(all) && OptionsRead(all) == done + [o]
  {
    assert (done + [o])[..|done|] == done;
    if !Acceptable(o) {
      assert all[|done|] == o && all[..|done|] == done && all[..|done| + 1] == done + [o];
      ReadFirst(all, |done|);
    }
  }

  /** Reading stops at the first option that is not acceptable. */
  lemma {:induction false} ReadFirst(options: seq<OackOption>, i: nat)
    requires i < |options| && AllAcceptable(options[..i]) && !Acceptable(options[i])
    ensures OptionsRead(options) == options[..i + 1] && !AllAcceptable(options)
  {
    if i > 0 {
      assert options[..i][0] == options[0];
      assert options[..i][1..] == options[1..][..i - 1];
      ReadFirst(options[1..], i - 1);
      assert options[..i + 1] == [options[0]] + options[1..][..i];
    }
  }

  // ------------------------------------------------------------------------ one packet

  /** The loop goes on, or the fill is left with a result. */
  datatype Fate = Again | Done(ok: bool)

  /** The buffer wants another block. */
  predicate Wants(t: Transfer) {
    !t.eof && |t.content| + t.packetsize <= FSYS_BUFLEN
  }

  /** No packet came; the network is quiet when there are no replies left. */
  function Wait(t: Transfer): (Transfer, Fate)
    requires t.net == [] || t.net[0].Timeout?
  {
    var r := if t.net == [] then Timeout(false, true) else t.net[0];
    var t' := t.(net := if t.net == [] then [] else t.net[1..]);
    if r.aborted || t.prevblock != 0 then (t', Done(false))
    else (t'.(retry := t.retry + 1), if t.retry < MAX_TFTP_RETRIES && r.resent then Again else Done(false))
  }

  /** The answer to block k with payload d. */
  function Answer(t: Transfer, k: nat, d: seq<byte>, abort: bool): (Transfer, Fate) {
    if abort then (t.(eof := true, sent := t.sent + [Quit]), Done(true))
    else if k == t.prevblock + 1 then
      (t.(content := t.content + d, prevblock := k, eof := |d| < t.packetsize, retry := 0, sent := t.sent + [Ack(k)]), Again)
    else (t.(sent := t.sent + [Ack(t.prevblock)]), Again)
  }

  function TakeOack(t: Transfer, options: seq<OackOption>, abort: bool): (Transfer, Fate) {
    if t.prevblock != 0 then (t, Again) else
      var u := TermsAfter(Terms(t.packetsize, t.filemax), OptionsRead(options));
      var t' := t.(packetsize := u.packetsize, filemax := u.filemax, options := t.options + OptionsRead(options));
      if AllAcceptable(options) then Answer(t', 0, [], abort)
      else (t'.(sent := t.sent + [Refusal]), Done(false))
  }

  /** The first len bytes of a datagram, which a well-formed one has. */
  function Payload(len: nat, download: seq<byte>): seq<byte> {
    if len <= |download| then download[..len] else download
  }

  function TakeData(t: Transfer, k: nat, udpLen: nat, download: seq<byte>, abort: bool): (Transfer, Fate)
    requires udpLen < 0x10000
  {
    if DataLength(udpLen) > t.packetsize then (t, Again)
    else Answer(t, k, Payload(DataLength(udpLen), download), abort)
  }

  /** What one wait for a packet does. */
  ghost function Step(t: Transfer, abort: bool): (r: (Transfer, Fate))
    requires WellFormedReplies(t.net)
  {
    if t.net == [] || t.net[0].Timeout? then Wait(t) else
      var t' := t.(net := t.net[1..]);
      match t.net[0]
      case Oack(_, _) => TakeOack(t', OackOptions(t.net[0]), abort)
      case Data(k, udpLen, download) => TakeData(t', k, udpLen, download, abort)
      case Other => (t', Done(true))
      case _ => (t', Done(false))
  }

  lemma StepShrinks(t: Transfer, abort: bool)
    requires WellFormedReplies(t.net)
    ensures var (t', f) := Step(t, abort);
      && WellFormedReplies(t'.net) && t'.net == (if t.net == [] then [] else t.net[1..])
      && (t.net == [] ==> f != Done(true) && (f == Again ==> t'.retry == t.retry + 1 <= MAX_TFTP_RETRIES))
  {}

  /** Filling the buffer: the loop of buf_fill. */
  ghost function Fill(t: Transfer, abort: bool): (Transfer, bool)
    requires WellFormedReplies(t.net)
    decreases |t.net|, if t.retry <= MAX_TFTP_RETRIES then MAX_TFTP_RETRIES - t.retry + 1 else 0
  {
    if !Wants(t) then (t, true) else
      StepShrinks(t, abort);
      var (t', f) := Step(t, abort);
      if f == Again then Fill(t', abort) else (t', f.ok)
  }

  // -------------------------------------------------------------------- opening a file

  function Opened(s: Session, filemax: int): Transfer {
    Transfer([], 0, TFTP_DEFAULTSIZE_PACKET, false, filemax, 0, s.replies, [], [])
  }

  // ---------------------------------------------------------------------------- safety

  /** What holds whatever the network sends: the buffer does not overflow, the
      block size of a transfer with data fits the buffer, and no block is
      acknowledged that has not been stored. */
  predicate Sound(t: Transfer) {
    && |t.content| <= FSYS_BUFLEN && t.prevblock < 0x10000 && WellFormedReplies(t.net)
    && (t.prevblock == 0 ==> t.content == []) && (t.prevblock > 0 ==> t.packetsize <= FSYS_BUFLEN)
    && forall i :: 0 <= i < |t.sent| && t.sent[i].Ack? ==> t.sent[i].block <= t.prevblock
  }

  /** t' can follow t: what has been stored, sent and agreed on stays. */
  predicate Follows(t: Transfer, t': Transfer) {
    && Sound(t') && t.content <= t'.content && t.prevblock <= t'.prevblock && |t'.net| <= |t.net|
    && t.sent <= t'.sent && t.options <= t'.options
    && (t.prevblock > 0 ==> t'.packetsize == t.packetsize && t'.filemax == t.filemax && t'.options == t.options)
  }

  lemma FollowsOn(t: Transfer, u: Transfer, v: Transfer)
    requires Follows(t, u) && Follows(u, v)
    ensures Follows(t, v)
  {}

  lemma {:induction false} AnswerKeeps(t: Transfer, k: nat, d: seq<byte>, abort: bool)
    requires Sound(t) && !t.eof && k < 0x10000
    requires k == t.prevblock + 1 ==> |t.content| + |d| <= FSYS_BUFLEN && t.packetsize <= FSYS_BUFLEN
    ensures var t' := Answer(t, k, d, abort).0; Follows(t, t') && (abort ==> t'.content == t.content)
  {
    var t' := Answer(t, k, d, abort).0;
    forall i | 0 <= i < |t'.sent| && t'.sent[i].Ack? ensures t'.sent[i].block <= t'.prevblock {
      if i < |t.sent| { assert t'.sent[i] == t.sent[i]; }
    }
  }

  lemma {:induction false} RestWellFormed(net: seq<Reply>)
    requires WellFormedReplies(net) && net != []
    ensures WellFormed(net[0]) && WellFormedReplies(net[1..])
  {
    forall i | 0 <= i < |net| - 1 ensures WellFormed(net[1..][i]) { assert net[1..][i] == net[i + 1]; }
  }

  lemma {:induction false} OackKeeps(t: Transfer, options: seq<OackOption>, abort: bool)
    requires Sound(t) && !t.eof
    ensures var t' := TakeOack(t, options, abort).0; Follows(t, t') && t'.content == t.content
  {
    if t.prevblock == 0 {
      var u := TermsAfter(Terms(t.packetsize, t.filemax), OptionsRead(options));
      var t' := t.(packetsize := u.packetsize, filemax := u.filemax, options := t.options + OptionsRead(options));
      if AllAcceptable(options) { AnswerKeeps(t', 0, [], abort); }
    }
  }

  lemma {:induction false} DataKeeps(t: Transfer, r: Reply, abort: bool)
    requires Sound(t) && Wants(t) && r.Data? && WellFormed(r)
    ensures var t' := TakeData(t, r.block, r.udpLen, r.download, abort).0;
      Follows(t, t') && (abort ==> t'.content == t.content)
  {
    var len := DataLength(r.udpLen);
    if len <= t.packetsize { AnswerKeeps(t, r.block, Payload(len, r.download), abort); }
  }

  lemma {:induction false} StepKeeps(t: Transfer, abort: bool)
    requires Sound(t) && Wants(t)
    ensures var t' := Step(t, abort).0; Follows(t, t') && (abort ==> t'.content == t.content)
  {
    if t.net != [] {
      RestWellFormed(t.net);
      var t' := t.(net := t.net[1..]);
      if t.net[0].Oack? { OackKeeps(t', OackOptions(t.net[0]), abort); }
      if t.net[0].Data? { DataKeeps(t', t.net[0], abort); }
    }
  }

  /** For every packet sequence, a fill keeps what it should. It changes nothing
      when the buffer wants nothing, and uses up packets when it succeeds. */
  lemma {:induction false} FillKeeps(t: Transfer, abort: bool)
    requires Sound(t)
    ensures var (t', ok) := Fill(t, abort);
      && Follows(t, t') && (abort ==> t'.content == t.content)
      && (ok && Wants(t) ==> |t'.net| < |t.net|)
    decreases |t.net|, if t.retry <= MAX_TFTP_RETRIES then MAX_TFTP_RETRIES - t.retry + 1 else 0
  {
    if Wants(t) {
      StepShrinks(t, abort);
      StepKeeps(t, abort);
      var (u, f) := Step(t, abort);
      if f == Again {
        FillKeeps(u, abort);
        FollowsOn(t, u, Fill(u, abort).0);
      }
    }
  }
}
