/** The network as the TFTP client sees it (RFC 1350 sections 2 and 6, with the
    options of RFC 2347, 2348 and 2349), and what an honest server sends. */
module TftpProtocol {
  import opened Bytes
  import opened TftpOack

  const FSYS_BUFLEN := 0x8000
  const MAX_TFTP_RETRIES := 20

  /** What one wait for a packet brings. A timeout says whether the user
      interrupted it and whether sending the request again would succeed. */
  datatype Reply =
    | Timeout(aborted: bool, resent: bool)
    | Error
    | Oack(udpLen: nat, text: string)
    | Data(block: nat, udpLen: nat, download: seq<byte>)
    | Other

  /** One opening of the file: the block size the server uses, whether the
      request could be sent, and the packets that then reach this port. */
  datatype Session = Session(blksize: nat, sent: bool, replies: seq<Reply>)

  /** The datagram holds what its length says; both numbers have 16 bits. */
  predicate WellFormed(r: Reply) {
    r.Data? ==> r.block < 0x10000 && r.udpLen < 0x10000 && (r.udpLen >= 12 ==> |r.download| == r.udpLen - 12)
  }

  /** The options an OACK is read to have. */
  ghost function OackOptions(r: Reply): seq<OackOption>
    requires r.Oack?
  {
    OptionsIn(r.text, r.udpLen)
  }

  /** The OACK in which a server writes the options. */
  function OackOf(options: seq<OackOption>): Reply
    requires AllWritable(options)
  {
    Oack(|Written(options)| + 10, Written(options))
  }

  lemma {:induction false} OackIsRead(o: OackOption)
    requires Writable(o)
    ensures OackOptions(OackOf([o])) == [o]
  {
    OneOptionIsShort(o);
    WrittenReadBack([o], "");
    assert Written([o]) + "" == Written([o]);
  }

  predicate WellFormedReplies(net: seq<Reply>) {
    forall i :: 0 <= i < |net| ==> WellFormed(net[i])
  }

  /** The payload length, as the client computes it in an unsigned short. */
  function DataLength(udpLen: nat): nat
    requires udpLen < 0x10000
  {
    (udpLen - 12) % 0x10000
  }

  /** A datagram that is too short for its header counts as a very long one. */
  lemma {:induction false} DataLengthIs(udpLen: nat)
    requires udpLen < 0x10000
    ensures DataLength(udpLen) == if udpLen >= 12 then udpLen - 12 else 0xFFF4 + udpLen
  {}

  // ------------------------------------------------------------------ the file in blocks

  /** The size of k full blocks. */
  function Full(b: nat, k: nat): nat {
    if k == 0 then 0 else Full(b, k - 1) + b
  }

  lemma {:induction false} FullIs(b: nat, k: nat)
    ensures Full(b, k) == k * b
  {
    if k > 0 {
      FullIs(b, k - 1);
      assert k * b == (k - 1) * b + b;
    }
  }

  lemma {:induction false} FullGrows(b: nat, i: nat, j: nat)
    requires i <= j
    ensures Full(b, i) <= Full(b, j)
    decreases j
  {
    if i < j { FullGrows(b, i, j - 1); }
  }

  /** How much of the file its first k blocks hold. */
  function Upto(file: seq<byte>, b: nat, k: nat): (n: nat)
    ensures n <= |file|
  {
    if Full(b, k) < |file| then Full(b, k) else |file|
  }

  function Block(file: seq<byte>, b: nat, k: nat): seq<byte>
    requires k >= 1
  {
    BlockBounds(file, b, k);
    file[Upto(file, b, k - 1)..Upto(file, b, k)]
  }

  lemma BlockBounds(file: seq<byte>, b: nat, k: nat)
    requires k >= 1
    ensures Upto(file, b, k - 1) <= Upto(file, b, k) <= Upto(file, b, k - 1) + b
    ensures Full(b, k - 1) <= |file| ==> (Upto(file, b, k) == Upto(file, b, k - 1) + b <==> Full(b, k) <= |file|)
  {}

  /** Block k is part of the transfer: the blocks before it were full. */
  predicate Exists(file: seq<byte>, b: nat, k: nat) {
    k >= 1 && Full(b, k - 1) <= |file|
  }

  /** The short block that ends the transfer; it may be empty. */
  predicate IsLast(file: seq<byte>, b: nat, k: nat) {
    Exists(file, b, k) && Full(b, k) > |file|
  }

  // ---------------------------------------------------------------- honest servers

  predicate HonestOption(file: seq<byte>, b: nat, o: OackOption) {
    !o.Unknown? && (o.Blksize? ==> o.value == b) && (o.Tsize? ==> o.value == |file|)
  }

  predicate HonestOptions(file: seq<byte>, b: nat, options: seq<OackOption>) {
    forall i :: 0 <= i < |options| ==> HonestOption(file, b, options[i])
  }

  /** DATA with number k carries block k. Number 0 belongs to no block the
      client can accept: it stands for block 65536 of a larger file. */
  ghost predicate HonestReply(file: seq<byte>, b: nat, r: Reply) {
    match r
    case Data(k, udpLen, d) => udpLen >= 12 && (k >= 1 ==> Exists(file, b, k) && d == Block(file, b, k))
    case Oack(_, _) => HonestOptions(file, b, OackOptions(r))
    case _ => true
  }

  ghost predicate Honest(file: seq<byte>, b: nat, net: seq<Reply>) {
    forall i :: 0 <= i < |net| ==> WellFormed(net[i]) && HonestReply(file, b, net[i])
  }

  /** A server that uses another block size than the client expects waits for
      its OACK to be acknowledged before it sends any data. */
  ghost predicate Negotiated(b: nat, packetsize: int, net: seq<Reply>) {
    packetsize == b || net == [] ||
    (!net[0].Data? && ((net[0].Oack? && Blksize(b) in OackOptions(net[0])) || Negotiated(b, packetsize, net[1..])))
  }

  ghost predicate HonestSession(file: seq<byte>, s: Session) {
    && TFTP_DEFAULTSIZE_PACKET <= s.blksize <= TFTP_MAX_PACKET
    && Honest(file, s.blksize, s.replies)
    && Negotiated(s.blksize, TFTP_DEFAULTSIZE_PACKET, s.replies)
  }

  /** From block k on, the rest of the transfer arrives: possibly repeated or
      mixed with old packets, but with each block in its turn. */
  predicate Serves(file: seq<byte>, b: nat, k: nat, net: seq<Reply>)
    decreases |net|
  {
    !Exists(file, b, k) ||
    (net != [] && (net[0].Data? || net[0].Oack?) &&
     Serves(file, b, if net[0].Data? && net[0].block == k then k + 1 else k, net[1..]))
  }

  // ---------------------------------------------------------- the client's state, as values

  /** content is file[base..], as far as block prevblock or the end of the file. */
  ghost predicate WindowOf(file: seq<byte>, b: nat, base: nat, content: seq<byte>, prevblock: nat, eof: bool) {
    && base + |content| == Upto(file, b, prevblock)
    && content == file[base..base + |content|]
    && if eof then IsLast(file, b, prevblock) else Exists(file, b, prevblock + 1)
  }

  /** The packets to come are honest, and what block size they use is agreed. */
  ghost predicate ServedOf(file: seq<byte>, b: nat, packetsize: int, prevblock: nat, net: seq<Reply>) {
    && TFTP_DEFAULTSIZE_PACKET <= b <= TFTP_MAX_PACKET
    && (packetsize == b || (packetsize == TFTP_DEFAULTSIZE_PACKET && prevblock == 0))
    && Honest(file, b, net) && Negotiated(b, packetsize, net)
  }

  /** Appending the next block keeps the window; a short block ends the file. */
  lemma {:induction false} WindowGrows(file: seq<byte>, b: nat, base: nat, content: seq<byte>, prevblock: nat)
    requires WindowOf(file, b, base, content, prevblock, false)
    ensures var d := Block(file, b, prevblock + 1);
      |d| <= b && WindowOf(file, b, base, content + d, prevblock + 1, |d| < b)
  {
    BlockBounds(file, b, prevblock + 1);
    var d := Block(file, b, prevblock + 1);
    assert file[base..base + |content|] + d == file[base..Upto(file, b, prevblock + 1)];
  }

  /** What the client has agreed on after the next reply. */
  lemma {:induction false} NextReply(file: seq<byte>, b: nat, packetsize: int, prevblock: nat, net: seq<Reply>)
    requires ServedOf(file, b, packetsize, prevblock, net) && net != []
    ensures WellFormed(net[0]) && HonestReply(file, b, net[0])
    ensures !net[0].Oack? ==> ServedOf(file, b, packetsize, prevblock, net[1..])
    ensures net[0].Data? ==> packetsize == b && ServedOf(file, b, b, prevblock + 1, net[1..])
    ensures net[0].Oack? ==>
      ServedOf(file, b, if Blksize(b) in OackOptions(net[0]) && prevblock == 0 then b else packetsize, prevblock, net[1..])
  {
    HonestRest(file, b, net);
  }

  lemma {:induction false} HonestRest(file: seq<byte>, b: nat, net: seq<Reply>)
    requires Honest(file, b, net) && net != []
    ensures Honest(file, b, net[1..]) && WellFormed(net[0]) && HonestReply(file, b, net[0])
  {
    forall i | 0 <= i < |net| - 1 ensures WellFormed(net[1..][i]) && HonestReply(file, b, net[1..][i]) {
      assert net[1..][i] == net[i + 1];
    }
  }

  /** Dropping the first n bytes moves the window along the file. */
  lemma WindowSlides(file: seq<byte>, b: nat, base: nat, content: seq<byte>, prevblock: nat, eof: bool, n: nat)
    requires WindowOf(file, b, base, content, prevblock, eof) && n <= |content|
    ensures WindowOf(file, b, base + n, content[n..], prevblock, eof)
  {}

  lemma {:induction false} WindowPart(file: seq<byte>, b: nat, base: nat, content: seq<byte>, prevblock: nat, eof: bool, off: nat, n: nat)
    requires WindowOf(file, b, base, content, prevblock, eof) && off + n <= |content|
    ensures base + off + n <= |file| && content[off..off + n] == file[base + off..base + off + n]
  {
    var l, r := content[off..off + n], file[base + off..base + off + n];
    forall k | 0 <= k < n ensures l[k] == r[k] {
      assert content[off + k] == file[base..base + |content|][off + k];
    }
  }

  predicate WellFormedSessions(sessions: seq<Session>) {
    forall i :: 0 <= i < |sessions| ==> WellFormedReplies(sessions[i].replies)
  }

  ghost predicate HonestSessions(file: seq<byte>, sessions: seq<Session>) {
    forall i :: 0 <= i < |sessions| ==> HonestSession(file, sessions[i])
  }

  /** What answers the next request; nothing does when there are no sessions left. */
  function NextSession(sessions: seq<Session>): Session {
    if sessions == [] then Session(TFTP_DEFAULTSIZE_PACKET, true, []) else sessions[0]
  }

  function LaterSessions(sessions: seq<Session>): seq<Session> {
    if sessions == [] then [] else sessions[1..]
  }

  /** At the start of a transfer the empty buffer is a window of the file. */
  lemma Opening(file: seq<byte>, sessions: seq<Session>)
    ensures var s := NextSession(sessions);
      && WindowOf(file, s.blksize, 0, [], 0, false)
      && (HonestSessions(file, sessions) ==> ServedOf(file, s.blksize, TFTP_DEFAULTSIZE_PACKET, 0, s.replies))
    ensures HonestSessions(file, sessions) ==> HonestSessions(file, LaterSessions(sessions))
    ensures WellFormedSessions(sessions) ==> WellFormedSessions(LaterSessions(sessions))
    ensures WellFormedSessions(sessions) ==> WellFormedReplies(NextSession(sessions).replies)
  {}

  predicate Delivers(file: seq<byte>, s: Session) {
    s.sent && Serves(file, s.blksize, 1, s.replies)
  }
}
