/** Filling the buffer under an honest server: it stays a window of the file. */
module TftpTracks {
  import opened Bytes
  import opened Folding
  import opened TftpMachine
  import opened TftpOack
  import opened TftpProtocol

  /** The buffer holds the file from base on, as far as the last block stored,
      and what block size is used is agreed. */
  ghost predicate Tracks(file: seq<byte>, b: nat, base: nat, t: Transfer) {
    WindowOf(file, b, base, t.content, t.prevblock, t.eof) && ServedOf(file, b, t.packetsize, t.prevblock, t.net)
  }

  lemma {:induction false} HonestTerms(file: seq<byte>, b: nat, options: seq<OackOption>, t: Terms)
    requires HonestOptions(file, b, options) && b >= TFTP_DEFAULTSIZE_PACKET
    ensures AllAcceptable(options)
    ensures TermsAfter(t, options) == Terms(if Blksize(b) in options then b else t.packetsize,
                                            if Tsize(|file|) in options then |file| else t.filemax)
  {
    if options != [] {
      var n := |options| - 1;
      HonestTerms(file, b, options[..n], t);
      assert options == options[..n] + [options[n]];
      assert HonestOption(file, b, options[n]);
    }
  }

  /** The size of the file as the client knows it after the options read. */
  function SizeKnown(file: seq<byte>, filemax: int, options: seq<OackOption>): int {
    if Tsize(|file|) in options then |file| else filemax
  }

  /** The options of a transfer that have been read since t. */
  function ReadSince(t: Transfer, t': Transfer): seq<OackOption>
    requires t.options <= t'.options
  {
    t'.options[|t.options|..]
  }

  lemma {:induction false} OackTracks(file: seq<byte>, b: nat, base: nat, t: Transfer, r: Reply, net: seq<Reply>)
    requires Sound(t) && Wants(t) && Tracks(file, b, base, t) && t.net == [r] + net && r.Oack?
    ensures var options := OackOptions(r); var (t', f) := TakeOack(t.(net := net), options, false);
      && f == Again && t'.net == net && Follows(t, t') && Tracks(file, b, base, t')
      && t'.prevblock == t.prevblock && t'.content == t.content && !t'.eof
      && t'.filemax == SizeKnown(file, t.filemax, ReadSince(t, t'))
  {
    assert t.net[0] == r && t.net[1..] == net;
    var options := OackOptions(r);
    RestWellFormed(t.net);
    NextReply(file, b, t.packetsize, t.prevblock, t.net);
    OackKeeps(t.(net := net), options, false);
    if t.prevblock == 0 {
      HonestTerms(file, b, options, Terms(t.packetsize, t.filemax));
      AllRead(options);
      var t' := TakeOack(t.(net := net), options, false).0;
      assert ReadSince(t, t') == options;
    }
  }

  lemma {:induction false} DataTracks(file: seq<byte>, b: nat, base: nat, t: Transfer, r: Reply, net: seq<Reply>)
    requires Sound(t) && Wants(t) && Tracks(file, b, base, t) && t.net == [r] + net && r.Data? && WellFormed(r)
    ensures var (t', f) := TakeData(t.(net := net), r.block, r.udpLen, r.download, false);
      && f == Again && t'.net == net && Follows(t, t') && Tracks(file, b, base, t')
      && t'.prevblock == (if r.block == t.prevblock + 1 then r.block else t.prevblock)
      && t'.filemax == t.filemax && t'.options == t.options
  {
    assert t.net[0] == r && t.net[1..] == net;
    RestWellFormed(t.net);
    NextReply(file, b, t.packetsize, t.prevblock, t.net);
    DataKeeps(t.(net := net), r, false);
    WindowGrows(file, b, base, t.content, t.prevblock);
    if r.block >= 1 { BlockBounds(file, b, r.block); }
    assert r.block >= 1 ==> Payload(DataLength(r.udpLen), r.download) == r.download;
  }

  /** A packet keeps the window, and one in turn advances it. */
  lemma {:induction false} StepTracks(file: seq<byte>, b: nat, base: nat, t: Transfer)
    requires Sound(t) && Wants(t) && Tracks(file, b, base, t)
    ensures var (t', f) := Step(t, false);
      && Follows(t, t') && Tracks(file, b, base, t')
      && t'.filemax == SizeKnown(file, t.filemax, ReadSince(t, t'))
      && (f == Done(true) ==> t.net != [] && t.net[0].Other?)
      && (t.net != [] && (t.net[0].Data? || t.net[0].Oack?) ==>
            f == Again && t'.prevblock == if t.net[0].Data? && t.net[0].block == t.prevblock + 1 then t.prevblock + 1 else t.prevblock)
  {
    StepKeeps(t, false);
    if t.net != [] {
      var r, net := t.net[0], t.net[1..];
      assert t.net == [r] + net;
      RestWellFormed(t.net);
      if r.Oack? { OackTracks(file, b, base, t, r, net); }
      else if r.Data? { DataTracks(file, b, base, t, r, net); }
      else { NextReply(file, b, t.packetsize, t.prevblock, t.net); }
    }
  }

  predicate NoOther(net: seq<Reply>) {
    forall i :: 0 <= i < |net| ==> !net[i].Other?
  }

  lemma {:induction false} SizeKnownOn(file: seq<byte>, t: Transfer, u: Transfer, v: Transfer)
    requires Follows(t, u) && Follows(u, v)
    ensures SizeKnown(file, SizeKnown(file, t.filemax, ReadSince(t, u)), ReadSince(u, v)) == SizeKnown(file, t.filemax, ReadSince(t, v))
  {
    FollowsOn(t, u, v);
    assert ReadSince(t, v) == ReadSince(t, u) + ReadSince(u, v);
  }

  /** A fill keeps the window; it succeeds only with a full buffer or at the end
      of the file, or because of a packet of another kind. */
  lemma {:induction false} FillTracks(file: seq<byte>, b: nat, base: nat, t: Transfer)
    requires Sound(t) && Tracks(file, b, base, t)
    ensures var (t', ok) := Fill(t, false);
      && Follows(t, t') && Tracks(file, b, base, t')
      && t'.filemax == SizeKnown(file, t.filemax, ReadSince(t, t'))
      && (ok && NoOther(t.net) ==> !Wants(t'))
    decreases |t.net|, if t.retry <= MAX_TFTP_RETRIES then MAX_TFTP_RETRIES - t.retry + 1 else 0
  {
    FillKeeps(t, false);
    if Wants(t) {
      StepShrinks(t, false);
      StepTracks(file, b, base, t);
      var (u, f) := Step(t, false);
      if f == Again {
        FillTracks(file, b, base, u);
        var v := Fill(u, false).0;
        SizeKnownOn(file, t, u, v);
      }
    }
  }

  lemma {:induction false} ServesNext(file: seq<byte>, b: nat, k: nat, net: seq<Reply>)
    requires Serves(file, b, k, net) && Exists(file, b, k)
    ensures net != [] && (net[0].Data? || net[0].Oack?)
    ensures Serves(file, b, if net[0].Data? && net[0].block == k then k + 1 else k, net[1..])
  {}

  lemma {:induction false} StepServes(file: seq<byte>, b: nat, base: nat, t: Transfer)
    requires Sound(t) && Wants(t) && Tracks(file, b, base, t) && Serves(file, b, t.prevblock + 1, t.net)
    ensures var (t', f) := Step(t, false); f == Again && t.net != [] && t'.net == t.net[1..] && Serves(file, b, t'.prevblock + 1, t'.net)
  {
    ServesNext(file, b, t.prevblock + 1, t.net);
    StepShrinks(t, false);
    StepTracks(file, b, base, t);
  }

  ghost predicate IsFill(t: Transfer, abort: bool, r: (Transfer, bool))
    requires WellFormedReplies(t.net)
  {
    forall b {:trigger Key(b)} :: Key(b) ==> r == Fill(t, abort)
  }

  /** Fill, kept folded so that proofs about reads do not follow it into the
      packets; Unfold gives its value. */
  ghost function Filled(t: Transfer, abort: bool): (Transfer, bool)
    requires WellFormedReplies(t.net)
  {
    assert IsFill(t, abort, Fill(t, abort));
    var r :| IsFill(t, abort, r);
    r
  }

  lemma {:induction false} Unfold(t: Transfer, abort: bool)
    requires WellFormedReplies(t.net)
    ensures Filled(t, abort) == Fill(t, abort)
  {
    assert IsFill(t, abort, Filled(t, abort));
    assert Key(true);
  }

  lemma {:induction false} FilledStep(t: Transfer, abort: bool)
    requires WellFormedReplies(t.net)
    ensures !Wants(t) ==> Filled(t, abort) == (t, true)
    ensures Wants(t) && Step(t, abort).1 != Again ==> Filled(t, abort) == (Step(t, abort).0, Step(t, abort).1.ok)
    ensures Wants(t) && Step(t, abort).1 == Again ==>
      var u := Step(t, abort).0; WellFormedReplies(u.net) && Filled(t, abort) == Filled(u, abort)
  {
    Unfold(t, abort);
    StepShrinks(t, abort);
    Unfold(Step(t, abort).0, abort);
  }

  /** If the packets needed arrive, a fill succeeds. */
  lemma {:induction false} FilledServes(file: seq<byte>, b: nat, base: nat, t: Transfer)
    requires Sound(t) && Tracks(file, b, base, t) && Serves(file, b, t.prevblock + 1, t.net)
    ensures var (t', ok) := Filled(t, false); ok && !Wants(t') && Serves(file, b, t'.prevblock + 1, t'.net)
    decreases |t.net|
  {
    FilledStep(t, false);
    if Wants(t) {
      StepServes(file, b, base, t);
      StepTracks(file, b, base, t);
      FilledServes(file, b, base, Step(t, false).0);
    }
  }

  lemma {:induction false} FilledKeeps(t: Transfer, abort: bool)
    requires Sound(t)
    ensures var (t', ok) := Filled(t, abort);
      && Follows(t, t') && (abort ==> t'.content == t.content)
      && (if Wants(t) then ok ==> |t'.net| < |t.net| else t' == t && ok)
  {
    Unfold(t, abort);
    FillKeeps(t, abort);
  }

  /** Whether one of the packets to come makes an aborting client tell the server:
      the first one that it would otherwise answer. */
  ghost predicate Tellable(net: seq<Reply>, prevblock: nat, packetsize: int, retry: nat)
    requires WellFormedReplies(net)
    decreases |net|
  {
    if net == [] then false
    else
      RestWellFormed(net);
      match net[0]
      case Timeout(aborted, resent) =>
        prevblock == 0 && !aborted && resent && retry < MAX_TFTP_RETRIES && Tellable(net[1..], prevblock, packetsize, retry + 1)
      case Oack(_, _) => if prevblock == 0 then AllAcceptable(OackOptions(net[0])) else Tellable(net[1..], prevblock, packetsize, retry)
      case Data(_, udpLen, _) => DataLength(udpLen) <= packetsize || Tellable(net[1..], prevblock, packetsize, retry)
      case _ => false
  }

  /** Ending a transfer that wants packets: the server is told with an error if
      and only if a packet comes that the client would answer; then the transfer
      is over. A refused OACK is answered too. */
  lemma {:induction false} FilledQuits(t: Transfer)
    requires Sound(t) && Wants(t)
    ensures var u := Filled(t, true).0;
      && (u.eof <==> Tellable(t.net, t.prevblock, t.packetsize, t.retry))
      && (if u.eof then u.sent == t.sent + [Quit] else u.sent == t.sent || u.sent == t.sent + [Refusal])
    decreases |t.net|, if t.retry <= MAX_TFTP_RETRIES then MAX_TFTP_RETRIES - t.retry + 1 else 0
  {
    FilledStep(t, true);
    StepKeeps(t, true);
    StepShrinks(t, true);
    if t.net != [] { RestWellFormed(t.net); }
    var (u, f) := Step(t, true);
    if f == Again { FilledQuits(u); }
  }

  lemma {:induction false} RestHasNoOther(net: seq<Reply>)
    requires NoOther(net)
    ensures net != [] ==> NoOther(net[1..])
  {
    if net != [] {
      forall i | 0 <= i < |net| - 1 ensures !net[1..][i].Other? { assert net[1..][i] == net[i + 1]; }
    }
  }

  lemma {:induction false} FilledTracks(file: seq<byte>, b: nat, base: nat, t: Transfer)
    requires Sound(t) && Tracks(file, b, base, t)
    ensures var (t', ok) := Filled(t, false);
      && Follows(t, t') && Tracks(file, b, base, t')
      && t'.filemax == SizeKnown(file, t.filemax, ReadSince(t, t'))
      && (ok && NoOther(t.net) ==> !Wants(t'))
      && (Serves(file, b, t.prevblock + 1, t.net) ==> ok && !Wants(t') && Serves(file, b, t'.prevblock + 1, t'.net))
  {
    Unfold(t, false);
    FillTracks(file, b, base, t);
    if Serves(file, b, t.prevblock + 1, t.net) { FilledServes(file, b, base, t); }
  }

  /** The client gets to the end of a file only if the file's blocks, the short
      one at its end included, have numbers of 16 bits. */
  lemma {:induction false} EndIsNear(file: seq<byte>, b: nat, base: nat, t: Transfer)
    requires Sound(t) && Tracks(file, b, base, t) && t.eof
    ensures |file| < 0xFFFF * b
  {
    FullGrows(b, t.prevblock, 0xFFFF);
    FullIs(b, 0xFFFF);
  }
}
