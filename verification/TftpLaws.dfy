/** Which files can be transferred, and an instance where tftp_dir gets the size
    of a file wrong. */
module TftpLaws {
  import opened Bytes
  import opened TftpCount
  import opened TftpDirectory
  import opened TftpMachine
  import opened TftpOack
  import opened TftpProtocol
  import opened TftpReader
  import opened TftpTracks

  /** What a server sends over a perfect network, from block k on. */
  function Blocks(file: seq<byte>, b: nat, k: nat): seq<Reply>
    requires b > 0 && k >= 1
    decreases if Exists(file, b, k) then |file| - Full(b, k - 1) + 1 else 0
  {
    if !Exists(file, b, k) then [] else
      [Data(k, |Block(file, b, k)| + 12, Block(file, b, k))] + Blocks(file, b, k + 1)
  }

  /** Such a transfer is honest and serves the client, if its numbers fit. */
  lemma {:induction false} BlocksServe(file: seq<byte>, b: nat, k: nat)
    requires 0 < b <= TFTP_MAX_PACKET && k >= 1 && !Exists(file, b, 0x10000)
    ensures var net := Blocks(file, b, k); Honest(file, b, net) && Serves(file, b, k, net)
    decreases |Blocks(file, b, k)|
  {
    if Exists(file, b, k) {
      if k >= 0x10000 { FullGrows(b, 0xFFFF, k - 1); }
      BlockBounds(file, b, k);
      BlocksServe(file, b, k + 1);
      HonestJoin(file, b, Data(k, |Block(file, b, k)| + 12, Block(file, b, k)), Blocks(file, b, k + 1));
    }
  }

  lemma {:induction false} HonestJoin(file: seq<byte>, b: nat, r: Reply, net: seq<Reply>)
    requires WellFormed(r) && HonestReply(file, b, r) && Honest(file, b, net)
    ensures Honest(file, b, [r] + net) && ([r] + net)[0] == r && ([r] + net)[1..] == net
  {
    var all := [r] + net;
    forall i | 0 <= i < |all| ensures WellFormed(all[i]) && HonestReply(file, b, all[i]) {
      if i > 0 { assert all[i] == net[i - 1]; }
    }
  }

  /** The client comes to the end of the file when it receives it all. */
  ghost predicate ReachesEnd(s: Session)
    requires WellFormedReplies(s.replies)
  {
    s.sent && CountLoop(Opened(s, 0)).1.Fine?
  }

  /** An undisturbed session: the block size is agreed on, and every block arrives. */
  function Undisturbed(file: seq<byte>, b: nat): Session
    requires 0 < b <= TFTP_MAX_PACKET
  {
    Session(b, true, [OackOf([Blksize(b)])] + Blocks(file, b, 1))
  }

  lemma {:induction false} UndisturbedServes(file: seq<byte>, b: nat)
    requires TFTP_DEFAULTSIZE_PACKET <= b <= TFTP_MAX_PACKET && |file| < 0xFFFF * b
    ensures HonestSession(file, Undisturbed(file, b)) && Delivers(file, Undisturbed(file, b))
  {
    FullIs(b, 0xFFFF);
    BlocksServe(file, b, 1);
    OackIsRead(Blksize(b));
    HonestJoin(file, b, OackOf([Blksize(b)]), Blocks(file, b, 1));
  }

  /** There is an honest session in which the client comes to the end of a file
      if and only if the file has at most 65535 blocks, the short one at its end
      included: after block 65535 the client accepts no other. */
  lemma {:induction false} TransferableIff(file: seq<byte>, b: nat)
    requires TFTP_DEFAULTSIZE_PACKET <= b <= TFTP_MAX_PACKET
    ensures (exists s :: HonestSession(file, s) && s.blksize == b && WellFormedReplies(s.replies) && ReachesEnd(s))
      <==> |file| < 0xFFFF * b
  {
    forall s | HonestSession(file, s) && s.blksize == b && WellFormedReplies(s.replies) && ReachesEnd(s)
      ensures |file| < 0xFFFF * b
    {
      OpenedTracks(file, [s], 0);
      CountEnds(file, b, 0, Opened(s, 0));
    }
    if |file| < 0xFFFF * b {
      var s := Undisturbed(file, b);
      UndisturbedServes(file, b);
      OpenedTracks(file, [s], 0);
      CountEnds(file, b, 0, Opened(s, 0));
      assert ReachesEnd(s);
    }
  }

  /** Splitting the file into blocks loses nothing. */
  function Concatenated(net: seq<Reply>): seq<byte> {
    if net == [] then [] else (if net[0].Data? then net[0].download else []) + Concatenated(net[1..])
  }

  lemma {:induction false} BlocksMakeTheFile(file: seq<byte>, b: nat, k: nat)
    requires b > 0 && k >= 1 && Full(b, k - 1) <= |file|
    ensures Concatenated(Blocks(file, b, k)) == file[Full(b, k - 1)..]
    decreases |Blocks(file, b, k)|
  {
    var d := Block(file, b, k);
    BlockBounds(file, b, k);
    assert Blocks(file, b, k)[1..] == Blocks(file, b, k + 1);
    if Full(b, k) <= |file| {
      BlocksMakeTheFile(file, b, k + 1);
      assert file[Full(b, k - 1)..] == d + file[Full(b, k)..];
    } else {
      assert Blocks(file, b, k + 1) == [];
      assert d == file[Full(b, k - 1)..];
    }
  }

  // -------------------------------------------------------------------------- an instance

  /** The transfer of a file of one byte. */
  lemma {:induction false} OneByte(t: Transfer, d: byte)
    requires t.net == [Data(1, 13, [d])] && t.prevblock == 0 && t.content == [] && !t.eof && t.packetsize == 512
    ensures Filled(t, false) ==
      (t.(net := [], content := [d], prevblock := 1, eof := true, retry := 0, sent := t.sent + [Ack(1)]), true)
  {
    assert t.net[1..] == [] && Payload(1, [d]) == [d] && [] + [d] == [d];
    FilledStep(t, false);
    FilledStep(Step(t, false).0, false);
  }

  /** The same with an OACK before it that names the size. */
  lemma {:induction false} NamedByte(t: Transfer, d: byte)
    requires t.net == [OackOf([Tsize(1)]), Data(1, 13, [d])]
    requires t.prevblock == 0 && t.content == [] && !t.eof && t.packetsize == 512 && t.options == []
    ensures var (u, ok) := Filled(t, false); ok && u.eof && u.content == [d] && u.filemax == 1 && u.options == [Tsize(1)]
  {
    var options := [Tsize(1)];
    assert t.net[1..] == [Data(1, 13, [d])];
    OackIsRead(Tsize(1));
    AllRead(options);
    assert TermsAfter(Terms(t.packetsize, t.filemax), options) == Terms(512, 1) by { assert options[..0] == []; }
    FilledStep(t, false);
    var u := Step(t, false).0;
    assert [] + options == options;
    OneByte(u, d);
  }

  /** A server that names the size late, after a packet of another kind: a file
      of one byte is taken for one of two. */
  lemma {:induction false} SizeDoubled(d: byte)
    ensures var named := Session(512, true, [Other, OackOf([Tsize(1)]), Data(1, 13, [d])]);
      var plain := Session(512, true, [Data(1, 13, [d])]);
      && HonestSession([d], named) && HonestSession([d], plain) && WellFormedSessions([named, plain])
      && Dir([named, plain]).verdict.Fine? && Dir([named, plain]).t.filemax == 2
  {
    var named := Session(512, true, [Other, OackOf([Tsize(1)]), Data(1, 13, [d])]);
    var plain := Session(512, true, [Data(1, 13, [d])]);
    var sessions := [named, plain];
    assert LaterSessions(sessions) == [plain];
    OneByteIsHonest(d);
    OpenedReady(sessions, -1);
    var o := Opened(named, -1);
    assert o.net[1..] == [OackOf([Tsize(1)]), Data(1, 13, [d])];
    FilledStep(o, false);
    var c := o.(net := o.net[1..], filemax := 0);
    assert Emptied(c) == c;
    NamedByte(c, d);
    assert CountLoop(c).1.Fine? && CountLoop(c).0.filemax == 2;
    OneByte(Opened(plain, 2), d);
    SecondTime([plain], 2);
  }

  lemma {:induction false} OneByteIsHonest(d: byte)
    ensures HonestSession([d], Session(512, true, [Other, OackOf([Tsize(1)]), Data(1, 13, [d])]))
    ensures HonestSession([d], Session(512, true, [Data(1, 13, [d])]))
  {
    OackIsRead(Tsize(1));
    assert Full(512, 0) == 0 && Full(512, 1) == 512;
    assert Block([d], 512, 1) == [d];
  }
}
