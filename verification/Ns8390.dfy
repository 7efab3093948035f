/** The NS8390 receiver: records start at pages of 256 bytes, and each names
    the page of the next. */
module Ns8390 {
  import opened Bytes
  import opened Folding
  import opened Ring

  const ETH_ZLEN := 60
  const ETH_FRAME_LEN := 1514

  /** What the chip stores for a frame: its status, the frame, the FCS, in as
      many pages as it takes. */
  datatype Record = Record(status: nat, payload: seq<byte>, fcs: seq<byte>, pages: nat)

  predicate WellFormed(r: Record) {
    r.status < 256 && |r.fcs| == 4 && |r.payload| + 4 < 0x10000 && 4 + |r.payload| + 4 <= 256 * r.pages
  }

  /** Received intact (the bit PRX), with the length of a frame. */
  predicate Good(r: Record) {
    r.status % 2 == 1 && ETH_ZLEN <= |r.payload| <= ETH_FRAME_LEN
  }

  lemma {:induction false} GoodIff(r: Record)
    ensures Good(r) <==> r.status % 2 == 1 && 60 <= |r.payload| <= 1514
  {}

  predicate AllWellFormed(q: seq<Record>) {
    forall i :: 0 <= i < |q| ==> WellFormed(q[i])
  }

  function PageSpan(queue: seq<Record>): nat {
    if queue == [] then 0 else queue[0].pages + PageSpan(queue[1..])
  }

  function Header(status: byte, next: byte, len: nat): (h: seq<byte>)
    requires len < 0x10000
    ensures |h| == 4
  {
    [status, next, len % 256, len / 256]
  }

  /** A record in the ring; next is the page behind it. */
  function CellOf(r: Record, next: byte): Cell
    requires WellFormed(r)
  {
    Cell(Header(r.status, next, |r.payload| + 4) + r.payload + r.fcs, 256 * r.pages)
  }

  /** A record begins with its status, the page of the next record and its size,
      lowest byte first. */
  lemma {:induction false} CellIs(r: Record, next: byte)
    requires WellFormed(r)
    ensures var c, n := CellOf(r, next), |r.payload| + 8;
      && c.space == 256 * r.pages && |c.data| == n && c.data[0] == r.status && c.data[1] == next
      && c.data[2] as int + 256 * (c.data[3] as int) == n - 4
      && c.data[4..n - 4] == r.payload && c.data[n - 4..] == r.fcs
  {}

  /** A record, and the page behind it. */
  datatype Placed = Placed(r: Record, next: nat)

  predicate AllPlaced(chain: seq<Placed>) {
    forall i :: 0 <= i < |chain| ==> WellFormed(chain[i].r) && chain[i].next < 256
  }

  /** The records from the q-th page of a ring of cnt pages, which begins at
      page start. */
  function Chain(start: nat, cnt: nat, q: nat, queue: seq<Record>): (chain: seq<Placed>)
    requires q < cnt && PageSpan(queue) < cnt && start + cnt <= 256
    decreases |queue|
  {
    if queue == [] then [] else
      var q' := Wrap(cnt, q + queue[0].pages);
      [Placed(queue[0], start + q')] + Chain(start, cnt, q', queue[1..])
  }

  lemma {:induction false} ChainIsPlaced(start: nat, cnt: nat, q: nat, queue: seq<Record>)
    requires AllWellFormed(queue) && q < cnt && PageSpan(queue) < cnt && start + cnt <= 256
    ensures AllPlaced(Chain(start, cnt, q, queue))
    decreases |queue|
  {
    if queue != [] {
      var q' := Wrap(cnt, q + queue[0].pages);
      ChainIsPlaced(start, cnt, q', queue[1..]);
      PlacedJoin(Placed(queue[0], start + q'), Chain(start, cnt, q', queue[1..]));
    }
  }

  lemma {:induction false} PlacedJoin(p: Placed, chain: seq<Placed>)
    requires WellFormed(p.r) && p.next < 256 && AllPlaced(chain)
    ensures AllPlaced([p] + chain)
  {}

  function Stored(chain: seq<Placed>): (c: seq<Cell>)
    requires AllPlaced(chain)
  {
    if chain == [] then [] else [CellOf(chain[0].r, chain[0].next)] + Stored(chain[1..])
  }

  /** What they put into the ring. */
  function Cells(start: nat, cnt: nat, q: nat, queue: seq<Record>): (c: seq<Cell>)
    requires AllWellFormed(queue) && q < cnt && PageSpan(queue) < cnt && start + cnt <= 256
  {
    ChainIsPlaced(start, cnt, q, queue);
    Stored(Chain(start, cnt, q, queue))
  }

  lemma WrapTwice(cnt: nat, q: nat, a: nat, b: nat)
    requires q < cnt && a + b < cnt
    ensures Wrap(cnt, Wrap(cnt, q + a) + b) == Wrap(cnt, q + (a + b))
    ensures Wrap(256 * cnt, 256 * q + 256 * a) == 256 * Wrap(cnt, q + a)
  {}

  /** The first record and the others. */
  lemma {:induction false} CellsOf(start: nat, cnt: nat, q: nat, queue: seq<Record>)
    requires AllWellFormed(queue) && q < cnt && PageSpan(queue) < cnt && start + cnt <= 256 && queue != []
    ensures var q' := Wrap(cnt, q + queue[0].pages);
      Cells(start, cnt, q, queue) == [CellOf(queue[0], start + q')] + Cells(start, cnt, q', queue[1..])
  {
    var chain := Chain(start, cnt, q, queue);
    ChainIsPlaced(start, cnt, q, queue);
    assert chain[1..] == Chain(start, cnt, Wrap(cnt, q + queue[0].pages), queue[1..]);
  }

  lemma {:induction false} CellsSpan(start: nat, cnt: nat, q: nat, queue: seq<Record>)
    requires AllWellFormed(queue) && q < cnt && PageSpan(queue) < cnt && start + cnt <= 256
    ensures Span(Cells(start, cnt, q, queue)) == 256 * PageSpan(queue)
    decreases |queue|
  {
    if queue != [] {
      CellsOf(start, cnt, q, queue);
      CellsSpan(start, cnt, Wrap(cnt, q + queue[0].pages), queue[1..]);
    }
  }

  lemma {:induction false} PageSpanAppend(queue: seq<Record>, r: Record)
    requires AllWellFormed(queue) && WellFormed(r)
    ensures AllWellFormed(queue + [r]) && PageSpan(queue + [r]) == PageSpan(queue) + r.pages
  {
    if queue == [] {
      assert [] + [r] == [r] && [r][1..] == [];
    } else {
      PageSpanAppend(queue[1..], r);
      assert (queue + [r])[1..] == queue[1..] + [r];
    }
  }

  lemma Lengthened<T>(all: seq<T>, most: seq<T>, first: T, rest: seq<T>, mid: seq<T>, last: T)
    requires all == [first] + rest && rest == mid + [last] && most == [first] + mid
    ensures all == most + [last]
  {}

  /** A record behind the others; the one after it will start at page start + p. */
  lemma {:induction false} ChainAppend(start: nat, cnt: nat, q: nat, queue: seq<Record>, r: Record, p: nat)
    requires q < cnt && PageSpan(queue) + r.pages < cnt && start + cnt <= 256
    requires PageSpan(queue + [r]) == PageSpan(queue) + r.pages && p == Wrap(cnt, q + (PageSpan(queue) + r.pages))
    ensures Chain(start, cnt, q, queue + [r]) == Chain(start, cnt, q, queue) + [Placed(r, start + p)]
    decreases |queue|
  {
    var all := queue + [r];
    if queue == [] {
      assert all == [r] && all[1..] == [];
    } else {
      var k, rest := queue[0].pages, queue[1..];
      assert all[0] == queue[0] && all[1..] == rest + [r];
      var q' := Wrap(cnt, q + k);
      WrapTwice(cnt, q, k, PageSpan(rest) + r.pages);
      ChainAppend(start, cnt, q', rest, r, p);
      Lengthened(Chain(start, cnt, q, all), Chain(start, cnt, q, queue), Placed(queue[0], start + q'),
                 Chain(start, cnt, q', rest + [r]), Chain(start, cnt, q', rest), Placed(r, start + p));
    }
  }

  lemma {:induction false} StoredAppend(chain: seq<Placed>, last: Placed)
    requires AllPlaced(chain) && WellFormed(last.r) && last.next < 256
    ensures AllPlaced(chain + [last]) && Stored(chain + [last]) == Stored(chain) + [CellOf(last.r, last.next)]
  {
    var all := chain + [last];
    if chain == [] {
      assert all == [last] && all[1..] == [];
    } else {
      assert all[0] == chain[0] && all[1..] == chain[1..] + [last];
      StoredAppend(chain[1..], last);
    }
  }

  lemma {:induction false} CellsAppend(start: nat, cnt: nat, q: nat, queue: seq<Record>, r: Record, p: nat)
    requires AllWellFormed(queue) && WellFormed(r) && q < cnt && PageSpan(queue) + r.pages < cnt && start + cnt <= 256
    requires AllWellFormed(queue + [r]) && PageSpan(queue + [r]) == PageSpan(queue) + r.pages
    requires p == Wrap(cnt, q + (PageSpan(queue) + r.pages))
    ensures Cells(start, cnt, q, queue + [r]) == Cells(start, cnt, q, queue) + [CellOf(r, start + p)]
  {
    ChainAppend(start, cnt, q, queue, r, p);
    ChainIsPlaced(start, cnt, q, queue);
    StoredAppend(Chain(start, cnt, q, queue), Placed(r, start + p));
  }

  /** What the chip's append means for the queue. */
  lemma {:induction false} Appended(mem: seq<byte>, start: nat, cnt: nat, q: nat, queue: seq<Record>, r: Record)
    requires 256 * (start + cnt) <= |mem| && start + cnt <= 255 && q < cnt
    requires AllWellFormed(queue) && WellFormed(r) && PageSpan(queue) + r.pages < cnt
    requires var behind := start + Wrap(cnt, q + (PageSpan(queue) + r.pages));
      Laid(View(mem, 256 * start, 256 * cnt, 256 * q), Cells(start, cnt, q, queue) + [CellOf(r, behind)])
    ensures InRing(mem, start, cnt, q, start + Wrap(cnt, q + (PageSpan(queue) + r.pages)), queue + [r])
  {
    PageSpanAppend(queue, r);
    CellsAppend(start, cnt, q, queue, r, Wrap(cnt, q + (PageSpan(queue) + r.pages)));
  }

  /** What a drain leaves: the queue from the first record that is not good. */
  function Drained(queue: seq<Record>): (rest: seq<Record>) {
    if queue == [] || !Good(queue[0]) then queue else Drained(queue[1..])
  }

  class Nic {
    const mem: array<byte>
    const packet: array<byte>
    /** eth_rx_start and eth_memsize: the ring is the pages [start..stop). */
    const start: nat
    const stop: nat
    var packetlen: nat
    /** The registers BOUND, CURR, ISR.OVW and RSR.PRX. */
    var bound: nat
    var curr: nat
    var isrOvw: bool
    var rsrPrx: bool
    var drainReceiver: bool
    ghost var queue: seq<Record>

    /** The page the driver reads next. */
    function Next(): nat reads this {
      if bound + 1 >= stop then start else bound + 1
    }

    ghost predicate Sized() reads this {
      && start < stop <= 255 && mem.Length == 256 * stop && packet.Length == ETH_FRAME_LEN && packet != mem
    }

    ghost predicate Valid() reads this, mem {
      && Sized() && start <= bound < stop && AllWellFormed(queue)
      && Lies(mem[..], start, stop - start, Next() - start, curr, queue)
    }

    /** The registers after a reset. */
    constructor (start: nat, stop: nat)
      requires start < stop <= 255
      ensures Valid() && queue == [] && this.start == start && this.stop == stop && !drainReceiver && !isrOvw
      ensures fresh(mem) && fresh(packet)
    {
      this.start, this.stop := start, stop;
      mem := new byte[256 * stop](_ => 0);
      packet := new byte[ETH_FRAME_LEN](_ => 0);
      packetlen, bound, curr := 0, stop - 1, start;
      isrOvw, rsrPrx, drainReceiver, queue := false, false, false, [];
      new;
      Unfold(mem[..], start, stop - start, 0, start, []);
    }

    /** The chip writes a record at CURR if it does not reach the driver's page;
        otherwise it signals an overrun. */
    method ChipReceive(r: Record) returns (accepted: bool)
      requires Valid() && WellFormed(r)
      modifies this`curr, this`isrOvw, this`rsrPrx, this`queue, mem
      ensures Valid()
      ensures accepted <==> PageSpan(old(queue)) + r.pages < stop - start
      ensures queue == (if accepted then old(queue) + [r] else old(queue)) && isrOvw == (old(isrOvw) || !accepted)
      ensures rsrPrx == if accepted then r.status % 2 == 1 else old(rsrPrx)
    {
      var cnt, q := stop - start, Next() - start;
      LiesMeans(mem[..], start, cnt, q, curr, queue);
      var used := Place(cnt, q, curr - start);
      accepted := used + r.pages < cnt;
      if accepted {
        curr := StoreRecord(mem, start, cnt, q, curr, queue, used, r);
        rsrPrx := r.status % 2 == 1;
        queue := queue + [r];
      } else {
        isrOvw := true;
      }
    }

    /** Copies the frame of len bytes behind the header at page next. */
    method CopyFrame(next: nat, len: nat, ghost p: seq<byte>)
      requires Sized() && start <= next < stop && |p| == len <= ETH_FRAME_LEN
      requires FrameAt(mem[..], 256 * start, 256 * stop, 256 * next + 4, p)
      modifies this`packetlen, packet
      ensures packetlen == len && packet[..len] == p
    {
      var pktoff, ram := 256 * next + 4, mem[..];
      packetlen := len;
      var frag := 256 * stop - pktoff;
      if len > frag {
        CopyInto(packet, 0, ram[pktoff..256 * stop], frag);
        CopyInto(packet, frag, ram[256 * start..256 * start + (len - frag)], len - frag);
        Joined(packet[..], frag, len);
        assert packet[..frag] == packet[..][0..frag];
      } else {
        CopyInto(packet, 0, ram[pktoff..pktoff + len], len);
        assert packet[..len] == packet[0..len];
      }
    }

    /** Sets BOUND to the page before next, the frame to be read next. */
    method SetBound(next: nat)
      requires start <= next < stop
      modifies this`bound
      ensures start <= bound < stop && Next() == next && bound == (if next == start then stop else next) - 1
    {
      bound := if next == start then stop - 1 else next - 1;
    }

    /** Delivers the oldest record if it is good. */
    method TakeOldest() returns (ret: nat)
      requires Valid() && queue != []
      modifies this`packetlen, this`bound, this`queue, packet
      ensures Valid()
      ensures !Good(old(queue)[0]) ==> ret == 0 && queue == old(queue)
      ensures Good(old(queue)[0]) ==>
        ret == 1 && queue == old(queue)[1..] && packetlen <= packet.Length && packet[..packetlen] == old(queue)[0].payload
    {
      var next := Next();
      OldestAt(mem[..], start, stop, next, curr, queue);
      var status, behind := mem[256 * next], mem[256 * next + 1];
      var len: int := mem[256 * next + 2] as int + 256 * (mem[256 * next + 3] as int) - 4;
      if status % 2 == 0 || len < ETH_ZLEN || len > ETH_FRAME_LEN { return 0; }
      PassFrame(next, len, behind);
      ret := 1;
    }

    /** Copies the frame at page next and moves on to the page behind it. */
    method PassFrame(next: nat, len: nat, behind: nat)
      requires Sized() && start <= next < stop && start <= behind < stop
      requires queue != [] && AllWellFormed(queue) && len == |queue[0].payload| <= ETH_FRAME_LEN
      requires FrameAt(mem[..], 256 * start, 256 * stop, 256 * next + 4, queue[0].payload)
      requires Lies(mem[..], start, stop - start, behind - start, curr, queue[1..])
      modifies this`packetlen, this`bound, this`queue, packet
      ensures Valid() && queue == old(queue)[1..]
      ensures packetlen <= packet.Length && packet[..packetlen] == old(queue)[0].payload
    {
      CopyFrame(next, len, queue[0].payload);
      SetBound(behind);
      queue := queue[1..];
    }

    /** Delivers the oldest frame, unless an overrun has to be handled first. */
    method Poll() returns (ret: nat)
      requires Valid()
      modifies this`packetlen, this`bound, this`queue, this`drainReceiver, this`isrOvw, packet
      ensures Valid() && drainReceiver == old(drainReceiver)
      ensures old(!drainReceiver && isrOvw) ==>
        ret == 0 && !isrOvw && queue == if rsrPrx then Drained(old(queue)) else old(queue)
      ensures old(drainReceiver || !isrOvw) ==> isrOvw == old(isrOvw)
      ensures old(drainReceiver || !isrOvw) && (!rsrPrx || old(queue) == [] || !Good(old(queue)[0])) ==>
        ret == 0 && queue == old(queue)
      ensures old(drainReceiver || !isrOvw) && rsrPrx && old(queue) != [] && Good(old(queue)[0]) ==>
        ret == 1 && queue == old(queue)[1..] && packetlen <= packet.Length && packet[..packetlen] == old(queue)[0].payload
      decreases !drainReceiver, 1
    {
      if !drainReceiver && isrOvw {
        Overrun();
        return 0;
      }
      if !rsrPrx { return 0; }
      LiesMeans(mem[..], start, stop - start, Next() - start, curr, queue);
      if curr == Next() { return 0; }
      ret := TakeOldest();
    }

    /** Empties the ring after an overrun. Polling with the drain flag set does
        not come back here. */
    method Overrun()
      requires Valid() && !drainReceiver
      modifies this`packetlen, this`bound, this`queue, this`drainReceiver, this`isrOvw, packet
      ensures Valid() && !drainReceiver && !isrOvw
      ensures queue == if rsrPrx then Drained(old(queue)) else old(queue)
      decreases !drainReceiver, 0
    {
      drainReceiver := true;
      while true
        invariant Valid() && drainReceiver
        invariant rsrPrx ==> Drained(queue) == Drained(old(queue))
        invariant !rsrPrx ==> queue == old(queue)
        decreases |queue|
      {
        var more := Poll();
        if more == 0 { break; }
      }
      drainReceiver := false;
      isrOvw := false;
    }
  }

  lemma CellParts(r: Record, next: byte)
    requires WellFormed(r)
    ensures var d := CellOf(r, next).data;
      |d| == |r.payload| + 8 && d[0..4] == Header(r.status, next, |r.payload| + 4) && d[4..4 + |r.payload|] == r.payload
  {}

  /** The header of the oldest record names the page behind it. */
  lemma {:induction false} OldestHeader(mem: seq<byte>, start: nat, cnt: nat, q: nat, curr: nat, queue: seq<Record>)
    requires 256 * (start + cnt) <= |mem| && start + cnt <= 255 && q < cnt && AllWellFormed(queue)
    requires Lies(mem, start, cnt, q, curr, queue) && queue != [] && queue[0].pages < cnt
    ensures var r, a := queue[0], 256 * (start + q);
      && mem[a] == r.status && mem[a + 1] == start + Wrap(cnt, q + r.pages)
      && mem[a + 2] as int + 256 * (mem[a + 3] as int) == |r.payload| + 4
  {
    var r, a := queue[0], 256 * (start + q);
    var h := Header(r.status, start + Wrap(cnt, q + r.pages), |r.payload| + 4);
    HeaderPlace(mem, start, cnt, q, curr, queue, 256 * (start + cnt), a);
    assert a + 4 <= 256 * (start + cnt);
    FourAt(mem, a, h);
  }

  lemma {:induction false} HeaderPlace(mem: seq<byte>, start: nat, cnt: nat, q: nat, curr: nat, queue: seq<Record>, end: nat, at: nat)
    requires 256 * (start + cnt) <= |mem| && start + cnt <= 255 && q < cnt && AllWellFormed(queue)
    requires Lies(mem, start, cnt, q, curr, queue) && queue != [] && queue[0].pages < cnt
    requires end == 256 * (start + cnt) && at == 256 * (start + q)
    ensures FrameAt(mem, 256 * start, end, at, Header(queue[0].status, start + Wrap(cnt, q + queue[0].pages), |queue[0].payload| + 4))
  {
    var r := queue[0];
    Unfold(mem, start, cnt, q, curr, queue);
    CellsOf(start, cnt, q, queue);
    CellParts(r, start + Wrap(cnt, q + r.pages));
    OldestPart(mem, 256 * start, 256 * cnt, 256 * q, Cells(start, cnt, q, queue), 0,
               Header(r.status, start + Wrap(cnt, q + r.pages), |r.payload| + 4), end, at);
  }

  lemma {:induction false} FourAt(mem: seq<byte>, a: nat, h: seq<byte>)
    requires a + 4 <= |mem| && |h| == 4 && mem[a..a + 4] == h
    ensures mem[a] == h[0] && mem[a + 1] == h[1] && mem[a + 2] == h[2] && mem[a + 3] == h[3]
  {
    assert mem[a..a + 4][0] == mem[a] && mem[a..a + 4][1] == mem[a + 1];
    assert mem[a..a + 4][2] == mem[a + 2] && mem[a..a + 4][3] == mem[a + 3];
  }

  lemma {:induction false} OldestFrame(mem: seq<byte>, start: nat, cnt: nat, q: nat, curr: nat, queue: seq<Record>, end: nat, at: nat)
    requires 256 * (start + cnt) <= |mem| && start + cnt <= 255 && q < cnt && AllWellFormed(queue)
    requires Lies(mem, start, cnt, q, curr, queue) && queue != [] && queue[0].pages < cnt
    requires end == 256 * (start + cnt) && at == 256 * (start + q) + 4
    ensures FrameAt(mem, 256 * start, end, at, queue[0].payload)
  {
    var r := queue[0];
    Unfold(mem, start, cnt, q, curr, queue);
    CellsOf(start, cnt, q, queue);
    CellParts(r, start + Wrap(cnt, q + r.pages));
    OldestPart(mem, 256 * start, 256 * cnt, 256 * q, Cells(start, cnt, q, queue), 4, r.payload, end, at);
  }

  /** All that stands at the driver's page. */
  lemma {:induction false} OldestAt(mem: seq<byte>, start: nat, stop: nat, next: nat, curr: nat, queue: seq<Record>)
    requires start <= next < stop <= 255 && 256 * stop <= |mem| && AllWellFormed(queue)
    requires Lies(mem, start, stop - start, next - start, curr, queue) && queue != []
    ensures var r, a := queue[0], 256 * next;
      && mem[a] == r.status && mem[a + 2] as int + 256 * (mem[a + 3] as int) == |r.payload| + 4
      && start <= mem[a + 1] < stop && Lies(mem, start, stop - start, mem[a + 1] - start, curr, queue[1..])
      && FrameAt(mem, 256 * start, 256 * stop, a + 4, r.payload)
  {
    LiesRest(mem, start, stop - start, next - start, curr, queue);
    OldestHeader(mem, start, stop - start, next - start, curr, queue);
    OldestFrame(mem, start, stop - start, next - start, curr, queue, 256 * stop, 256 * next + 4);
  }

  /** What is left when the driver moves behind the oldest record. */
  lemma {:induction false} LiesRest(mem: seq<byte>, start: nat, cnt: nat, q: nat, curr: nat, queue: seq<Record>)
    requires 256 * (start + cnt) <= |mem| && start + cnt <= 255 && q < cnt
    requires Lies(mem, start, cnt, q, curr, queue) && queue != []
    ensures queue[0].pages < cnt && Lies(mem, start, cnt, Wrap(cnt, q + queue[0].pages), curr, queue[1..])
  {
    Unfold(mem, start, cnt, q, curr, queue);
    RestInRing(mem, start, cnt, q, curr, queue, queue[1..], if queue[0].pages < cnt then Wrap(cnt, q + queue[0].pages) else 0);
    Unfold(mem, start, cnt, Wrap(cnt, q + queue[0].pages), curr, queue[1..]);
  }

  lemma {:induction false} RestInRing(mem: seq<byte>, start: nat, cnt: nat, q: nat, curr: nat, queue: seq<Record>,
                                       rest: seq<Record>, q': nat)
    requires 256 * (start + cnt) <= |mem| && start + cnt <= 255 && q < cnt
    requires InRing(mem, start, cnt, q, curr, queue) && queue != [] && rest == queue[1..]
    requires queue[0].pages < cnt ==> q' == Wrap(cnt, q + queue[0].pages)
    ensures queue[0].pages < cnt && InRing(mem, start, cnt, q', curr, rest)
  {
    var k := queue[0].pages;
    forall i | 0 <= i < |rest| ensures WellFormed(rest[i]) { assert rest[i] == queue[i + 1]; }
    CellsOf(start, cnt, q, queue);
    WrapTwice(cnt, q, k, PageSpan(rest));
    LaidRest(mem, 256 * start, 256 * cnt, 256 * q, Cells(start, cnt, q, queue), 256 * q', Cells(start, cnt, q', rest));
  }

  /** Writes a record at page curr; the next one will go to curr'. */
  method StoreRecord(mem: array<byte>, start: nat, cnt: nat, q: nat, curr: nat, ghost queue: seq<Record>, used: nat, r: Record)
    returns (curr': nat)
    requires 256 * (start + cnt) <= mem.Length && start + cnt <= 255 && q < cnt
    requires Lies(mem[..], start, cnt, q, curr, queue)
    requires AllWellFormed(queue) && WellFormed(r) && used == PageSpan(queue) && used + r.pages < cnt
    modifies mem
    ensures Lies(mem[..], start, cnt, q, curr', queue + [r])
  {
    BeforeStore(mem[..], start, cnt, q, curr, queue, r.pages);
    curr' := start + Wrap(cnt, curr - start + r.pages);
    var c := CellOf(r, curr');
    Append(mem, 256 * start, 256 * cnt, 256 * q, Cells(start, cnt, q, queue), 256 * used, c);
    Appended(mem[..], start, cnt, q, queue, r);
    Unfold(mem[..], start, cnt, q, curr', queue + [r]);
  }

  /** What the chip finds before it writes. */
  lemma {:induction false} BeforeStore(mem: seq<byte>, start: nat, cnt: nat, q: nat, curr: nat, queue: seq<Record>, pages: nat)
    requires 256 * (start + cnt) <= |mem| && start + cnt <= 255 && q < cnt && AllWellFormed(queue)
    requires Lies(mem, start, cnt, q, curr, queue) && PageSpan(queue) + pages < cnt
    ensures start <= curr < start + cnt && Wrap(cnt, curr - start + pages) == Wrap(cnt, q + (PageSpan(queue) + pages))
    ensures Laid(View(mem, 256 * start, 256 * cnt, 256 * q), Cells(start, cnt, q, queue))
    ensures Span(Cells(start, cnt, q, queue)) == 256 * PageSpan(queue)
  {
    Unfold(mem, start, cnt, q, curr, queue);
    WrapTwice(cnt, q, PageSpan(queue), pages);
    CellsSpan(start, cnt, q, queue);
  }

  ghost predicate LiesIs(v: bool, mem: seq<byte>, start: nat, cnt: nat, q: nat, curr: nat, queue: seq<Record>)
    requires 256 * (start + cnt) <= |mem| && start + cnt <= 255 && q < cnt
  {
    forall b {:trigger Key(b)} :: Key(b) ==> v == InRing(mem, start, cnt, q, curr, queue)
  }

  /** InRing, kept folded; Unfold opens it. */
  ghost predicate Lies(mem: seq<byte>, start: nat, cnt: nat, q: nat, curr: nat, queue: seq<Record>)
    requires 256 * (start + cnt) <= |mem| && start + cnt <= 255 && q < cnt
  {
    assert LiesIs(InRing(mem, start, cnt, q, curr, queue), mem, start, cnt, q, curr, queue);
    var v :| LiesIs(v, mem, start, cnt, q, curr, queue);
    v
  }

  lemma {:induction false} Unfold(mem: seq<byte>, start: nat, cnt: nat, q: nat, curr: nat, queue: seq<Record>)
    requires 256 * (start + cnt) <= |mem| && start + cnt <= 255 && q < cnt
    ensures Lies(mem, start, cnt, q, curr, queue) == InRing(mem, start, cnt, q, curr, queue)
  {
    assert LiesIs(Lies(mem, start, cnt, q, curr, queue), mem, start, cnt, q, curr, queue);
    assert Key(true);
  }

  lemma {:induction false} LiesMeans(mem: seq<byte>, start: nat, cnt: nat, q: nat, curr: nat, queue: seq<Record>)
    requires 256 * (start + cnt) <= |mem| && start + cnt <= 255 && q < cnt
    requires Lies(mem, start, cnt, q, curr, queue)
    ensures start <= curr < start + cnt && Place(cnt, q, curr - start) == PageSpan(queue)
    ensures AllWellFormed(queue) && (curr == start + q <==> queue == [])
  {
    Unfold(mem, start, cnt, q, curr, queue);
    assert queue != [] ==> PageSpan(queue) >= queue[0].pages > 0;
  }

  /** The queue lies in the cnt pages from page start, beginning at the q-th of
      them; the chip writes next to page curr. */
  ghost predicate InRing(mem: seq<byte>, start: nat, cnt: nat, q: nat, curr: nat, queue: seq<Record>)
    requires 256 * (start + cnt) <= |mem| && start + cnt <= 255 && q < cnt
  {
    && AllWellFormed(queue) && PageSpan(queue) < cnt
    && curr == start + Wrap(cnt, q + PageSpan(queue))
    && Laid(View(mem, 256 * start, 256 * cnt, 256 * q), Cells(start, cnt, q, queue))
  }
}
