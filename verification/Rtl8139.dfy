/** The RTL8139 receiver: the chip writes records into a cyclic buffer of
    RX_BUF_LEN bytes, the driver polls them out. */
module Rtl8139 {
  import opened Bytes
  import opened Ring

  const RX_BUF_LEN := 8192
  const ETH_ZLEN := 60
  const ETH_FRAME_LEN := 1514

  /** What the chip stores for a frame: its status word, the frame, the FCS. */
  datatype Record = Record(status: nat, payload: seq<byte>, fcs: seq<byte>)

  predicate WellFormed(r: Record) {
    r.status < 0x10000 && |r.fcs| == 4 && |r.payload| + 4 < 0x10000
  }

  /** None of the error bits 1 to 5 is set, and the length is that of a frame. */
  predicate Good(r: Record) {
    r.status / 2 % 32 == 0 && ETH_ZLEN <= |r.payload| + 4 <= ETH_FRAME_LEN + 4
  }

  /** The bit of the given weight. */
  predicate IsSet(status: nat, weight: nat)
    requires weight > 0
  {
    status / weight % 2 == 1
  }

  /** RxBadAlign, RxCRCErr, RxTooLong, RxRunt or RxBadSymbol. */
  predicate HasError(status: nat) {
    IsSet(status, 0x02) || IsSet(status, 0x04) || IsSet(status, 0x08) || IsSet(status, 0x10) || IsSet(status, 0x20)
  }

  /** A frame of 56 to 1514 bytes is good whatever bit 0 (RxStatusOK) and the
      bits from 6 up are. */
  lemma {:induction false} GoodIff(r: Record)
    ensures Good(r) <==> !HasError(r.status) && 56 <= |r.payload| <= 1514
  {
    var s := r.status;
    Halves(s);
    LowestOf32(s / 2);
    LowestOf16(s / 4);
    LowestOf8(s / 8);
    LowestOf4(s / 16);
  }

  lemma {:induction false} Halves(s: nat)
    ensures s / 4 == s / 2 / 2 && s / 8 == s / 4 / 2 && s / 16 == s / 8 / 2 && s / 32 == s / 16 / 2
  {}

  /** The lowest bit, and those above it. */
  lemma {:induction false} LowestOf32(q: nat)
    ensures q % 32 == 2 * (q / 2 % 16) + q % 2
  {
    var h := q / 2;
    assert h == 16 * (h / 16) + h % 16;
    Rest32(q, h / 16, 2 * (h % 16) + q % 2);
  }

  lemma Rest32(q: nat, k: nat, r: nat)
    requires q == 32 * k + r && r < 32
    ensures q % 32 == r
  {}

  lemma {:induction false} LowestOf16(q: nat)
    ensures q % 16 == 2 * (q / 2 % 8) + q % 2
  {
    var h := q / 2;
    assert h == 8 * (h / 8) + h % 8;
    Rest16(q, h / 8, 2 * (h % 8) + q % 2);
  }

  lemma Rest16(q: nat, k: nat, r: nat)
    requires q == 16 * k + r && r < 16
    ensures q % 16 == r
  {}

  lemma {:induction false} LowestOf8(q: nat)
    ensures q % 8 == 2 * (q / 2 % 4) + q % 2
  {
    var h := q / 2;
    assert h == 4 * (h / 4) + h % 4;
    Rest8(q, h / 4, 2 * (h % 4) + q % 2);
  }

  lemma Rest8(q: nat, k: nat, r: nat)
    requires q == 8 * k + r && r < 8
    ensures q % 8 == r
  {}

  lemma {:induction false} LowestOf4(q: nat)
    ensures q % 4 == 2 * (q / 2 % 2) + q % 2
  {
    var h := q / 2;
    assert h == 2 * (h / 2) + h % 2;
    Rest4(q, h / 2, 2 * (h % 2) + q % 2);
  }

  lemma Rest4(q: nat, k: nat, r: nat)
    requires q == 4 * k + r && r < 4
    ensures q % 4 == r
  {}

  /** x & ~3 */
  function AlignDown(x: nat): nat {
    x - x % 4
  }

  function Header(status: nat, size: nat): (h: seq<byte>)
    requires status < 0x10000 && size < 0x10000
    ensures |h| == 4
  {
    [status % 256, status / 256, size % 256, size / 256]
  }

  /** A record in the ring; the next one starts at a multiple of four. */
  function CellOf(r: Record): Cell
    requires WellFormed(r)
  {
    Cell(Header(r.status, |r.payload| + 4) + r.payload + r.fcs, AlignDown(|r.payload| + 4 + 4 + 3))
  }

  /** A record takes the least multiple of four bytes that holds header, frame
      and FCS, and begins with its status and size, lowest byte first. */
  lemma {:induction false} CellIs(r: Record)
    requires WellFormed(r)
    ensures var c, n := CellOf(r), |r.payload| + 8;
      && c.space % 4 == 0 && n <= c.space < n + 4 && |c.data| == n
      && c.data[0] as int + 256 * (c.data[1] as int) == r.status
      && c.data[2] as int + 256 * (c.data[3] as int) == n - 4
      && c.data[4..n - 4] == r.payload && c.data[n - 4..] == r.fcs
  {
    var h := Header(r.status, |r.payload| + 4);
    PartsOf(h, r.payload, r.fcs, CellOf(r).data);
    HeaderSays(r.status, |r.payload| + 4);
    Aligned(|r.payload| + 8);
  }

  lemma {:induction false} PartsOf(h: seq<byte>, p: seq<byte>, fcs: seq<byte>, data: seq<byte>)
    requires data == h + p + fcs && |h| == 4
    ensures data[0] == h[0] && data[1] == h[1] && data[2] == h[2] && data[3] == h[3]
    ensures data[4..4 + |p|] == p && data[4 + |p|..] == fcs
  {}

  lemma {:induction false} HeaderSays(status: nat, size: nat)
    requires status < 0x10000 && size < 0x10000
    ensures var h := Header(status, size);
      h[0] as int + 256 * (h[1] as int) == status && h[2] as int + 256 * (h[3] as int) == size
  {}

  lemma {:induction false} Aligned(n: nat)
    ensures AlignDown(n + 3) % 4 == 0 && n <= AlignDown(n + 3) < n + 4
  {}

  function Cells(queue: seq<Record>): (c: seq<Cell>)
    requires forall i :: 0 <= i < |queue| ==> WellFormed(queue[i])
  {
    if queue == [] then [] else [CellOf(queue[0])] + Cells(queue[1..])
  }

  lemma {:induction false} CellsAppend(queue: seq<Record>, r: Record)
    requires WellFormed(r) && forall i :: 0 <= i < |queue| ==> WellFormed(queue[i])
    ensures Cells(queue + [r]) == Cells(queue) + [CellOf(r)]
  {
    if queue == [] {
      assert [] + [r] == [r] && [r][1..] == [];
    } else {
      CellsAppend(queue[1..], r);
      assert (queue + [r])[1..] == queue[1..] + [r];
    }
  }

  lemma SumAligned(a: nat, b: nat)
    requires a % 4 == 0 && b % 4 == 0
    ensures (a + b) % 4 == 0
  {}

  /** Every record takes a multiple of four bytes, and at least eight. */
  lemma {:induction false} SpanAligned(queue: seq<Record>)
    requires forall i :: 0 <= i < |queue| ==> WellFormed(queue[i])
    ensures Span(Cells(queue)) % 4 == 0 && (Span(Cells(queue)) == 0 <==> queue == [])
  {
    if queue != [] {
      SpanAligned(queue[1..]);
      var space := CellOf(queue[0]).space;
      assert space >= 8 && space % 4 == 0;
      SumAligned(space, Span(Cells(queue[1..])));
      assert Cells(queue)[0] == CellOf(queue[0]) && Cells(queue)[1..] == Cells(queue[1..]);
    }
  }

  /** The queue lies in the ring from off on; the chip writes next at chipWrite. */
  ghost predicate InRing(ring: seq<byte>, off: nat, chipWrite: nat, queue: seq<Record>)
    requires |ring| >= RX_BUF_LEN && off < RX_BUF_LEN
  {
    && (forall i :: 0 <= i < |queue| ==> WellFormed(queue[i]))
    && Span(Cells(queue)) < RX_BUF_LEN
    && chipWrite == Wrap(RX_BUF_LEN, off + Span(Cells(queue)))
    && Laid(View(ring, 0, RX_BUF_LEN, off), Cells(queue))
  }

  /** A record written behind the others joins the queue. */
  lemma {:induction false} MoreInRing(ring: seq<byte>, off: nat, chipWrite: nat, queue: seq<Record>, r: Record)
    requires |ring| >= RX_BUF_LEN && off < RX_BUF_LEN && WellFormed(r)
    requires (forall i :: 0 <= i < |queue| ==> WellFormed(queue[i])) && Span(Cells(queue)) + CellOf(r).space < RX_BUF_LEN
    requires chipWrite == Wrap(RX_BUF_LEN, off + Span(Cells(queue)))
    requires Laid(View(ring, 0, RX_BUF_LEN, off), Cells(queue) + [CellOf(r)])
    ensures chipWrite < RX_BUF_LEN && InRing(ring, off, Wrap(RX_BUF_LEN, chipWrite + CellOf(r).space), queue + [r])
  {
    CellsAppend(queue, r);
    SpanAppend(Cells(queue), CellOf(r));
  }

  /** Writes a record into the ring; the next one will go to chipWrite'. */
  method WriteRecord(ring: array<byte>, off: nat, chipWrite: nat, ghost queue: seq<Record>, used: nat, r: Record)
    returns (chipWrite': nat)
    requires ring.Length >= RX_BUF_LEN && off < RX_BUF_LEN && InRing(ring[..], off, chipWrite, queue) && WellFormed(r)
    requires used == Span(Cells(queue)) && used + CellOf(r).space < RX_BUF_LEN
    modifies ring
    ensures InRing(ring[..], off, chipWrite', queue + [r])
  {
    var c := CellOf(r);
    Append(ring, 0, RX_BUF_LEN, off, Cells(queue), used, c);
    MoreInRing(ring[..], off, chipWrite, queue, r);
    chipWrite' := Wrap(RX_BUF_LEN, chipWrite + c.space);
  }

  /** A driver behind the oldest record finds the others. */
  lemma {:induction false} RestInRing(ring: seq<byte>, off: nat, chipWrite: nat, queue: seq<Record>)
    requires |ring| >= RX_BUF_LEN && off < RX_BUF_LEN && InRing(ring, off, chipWrite, queue) && queue != []
    ensures var space := AlignDown(|queue[0].payload| + 4 + 4 + 3);
      space < RX_BUF_LEN && InRing(ring, Wrap(RX_BUF_LEN, off + space), chipWrite, queue[1..])
  {
    var space, rest := CellOf(queue[0]).space, queue[1..];
    assert Cells(queue)[0] == CellOf(queue[0]) && Cells(queue)[1..] == Cells(rest);
    LaidRest(ring, 0, RX_BUF_LEN, off, Cells(queue), if space <= RX_BUF_LEN then Wrap(RX_BUF_LEN, off + space) else 0, Cells(rest));
    assert Span(Cells(queue)) == space + Span(Cells(rest));
    forall i | 0 <= i < |rest| ensures WellFormed(rest[i]) { assert rest[i] == queue[i + 1]; }
  }

  class Nic {
    const ring: array<byte>
    const packet: array<byte>
    var packetlen: nat
    /** The driver's count of bytes read, an unsigned int. */
    var curRx: nat
    /** The chip's write offset, and the register RxBufPtr. */
    var chipWrite: nat
    var rxBufPtr: nat
    /** The records written and not yet read, and how many there have been. */
    ghost var queue: seq<Record>

    /** The driver's place in the ring. */
    function Offset(): (off: nat)
      reads this
      ensures off < RX_BUF_LEN && (curRx % 4 == 0 ==> off + 4 <= RX_BUF_LEN)
    {
      AlignedPlace(curRx);
      curRx % RX_BUF_LEN
    }

    ghost predicate Valid() reads this, ring {
      && ring.Length == RX_BUF_LEN + 16 && packet.Length == ETH_FRAME_LEN && packet != ring
      && curRx < 0x1_0000_0000 && curRx % 4 == 0
      && rxBufPtr == (curRx - 16) % 0x10000
      && InRing(ring[..], Offset(), chipWrite, queue)
    }

    constructor ()
      ensures Valid() && queue == [] && fresh(ring) && fresh(packet)
    {
      ring := new byte[RX_BUF_LEN + 16](_ => 0);
      packet := new byte[ETH_FRAME_LEN](_ => 0);
      packetlen, curRx, chipWrite, rxBufPtr, queue := 0, 0, 0, 0xFFF0, [];
    }

    /** Puts chip and driver at the start of the ring; nothing is left to read. */
    method RtlReset()
      requires ring.Length == RX_BUF_LEN + 16 && packet.Length == ETH_FRAME_LEN && packet != ring
      modifies this`curRx, this`chipWrite, this`rxBufPtr, this`queue
      ensures Valid() && queue == [] && curRx == 0 && rxBufPtr == 0xFFF0
    {
      curRx, chipWrite, rxBufPtr, queue := 0, 0, 0xFFF0, [];
    }

    /** The chip's RxBufEmpty bit: its write pointer has been caught up with. */
    predicate RxBufEmpty() reads this {
      ChipRead() == chipWrite
    }

    /** The bit is right: it says whether anything is left to read, although
        the chip is told the driver's place only in 16 bits. */
    lemma {:induction false} EmptyMeansEmpty()
      requires Valid()
      ensures RxBufEmpty() <==> queue == []
    {
      SpanAligned(queue);
      PointerKeepsOffset(curRx);
    }

    /** The driver's place, as far as the chip knows. */
    function ChipRead(): (off: nat)
      reads this
      ensures off < RX_BUF_LEN
    {
      (rxBufPtr + 16) % 0x10000 % RX_BUF_LEN
    }

    /** How many bytes the chip finds occupied. */
    function Used(): int reads this {
      if chipWrite >= ChipRead() then chipWrite - ChipRead() else chipWrite + RX_BUF_LEN - ChipRead()
    }

    lemma {:induction false} UsedIsSpan()
      requires Valid()
      ensures ChipRead() == Offset() && Used() == Span(Cells(queue))
    {
      PointerKeepsOffset(curRx);
    }

    /** The chip writes a record behind the last one, if there is room: it must
        not catch up with the driver. */
    method ChipReceive(r: Record) returns (accepted: bool)
      requires Valid() && WellFormed(r)
      modifies this`chipWrite, this`queue, ring
      ensures Valid() && curRx == old(curRx)
      ensures accepted <==> Span(Cells(old(queue))) + CellOf(r).space < RX_BUF_LEN
      ensures queue == if accepted then old(queue) + [r] else old(queue)
    {
      UsedIsSpan();
      var read, used := ChipRead(), Used();
      accepted := used + CellOf(r).space < RX_BUF_LEN;
      if accepted {
        chipWrite := WriteRecord(ring, read, chipWrite, queue, used, r);
        queue := queue + [r];
      }
    }

    /** The header at the driver's place, which never straddles the end. */
    lemma {:induction false} HeaderIs()
      requires Valid() && queue != []
      ensures var o := Offset(); o + 4 <= RX_BUF_LEN && ring[o..o + 4] == Header(queue[0].status, |queue[0].payload| + 4)
    {
      var h := Header(queue[0].status, |queue[0].payload| + 4);
      assert Cells(queue)[0].data[..4] == h;
      OldestPart(ring[..], 0, RX_BUF_LEN, Offset(), Cells(queue), 0, h, RX_BUF_LEN, Offset());
      assert ring[..][Offset()..Offset() + 4] == ring[Offset()..Offset() + 4];
    }

    /** The oldest frame, in one piece or in two. */
    lemma {:induction false} PayloadIs()
      requires Valid() && queue != []
      ensures FrameAt(ring[..], 0, RX_BUF_LEN, Offset() + 4, queue[0].payload)
    {
      var p := queue[0].payload;
      assert Cells(queue)[0].data[4..4 + |p|] == p;
      OldestPart(ring[..], 0, RX_BUF_LEN, Offset(), Cells(queue), 4, p, RX_BUF_LEN, Offset() + 4);
    }

    /** Copies the frame of a record of size rxSize to the packet. */
    method CopyFrame(rxSize: nat, ghost p: seq<byte>)
      requires ring.Length == RX_BUF_LEN + 16 && packet != ring && rxSize == |p| + 4 && |p| <= packet.Length
      requires curRx % RX_BUF_LEN + 4 <= RX_BUF_LEN && FrameAt(ring[..], 0, RX_BUF_LEN, curRx % RX_BUF_LEN + 4, p)
      modifies this`packetlen, packet
      ensures packetlen <= packet.Length && packet[..packetlen] == p
    {
      var ringOffs, ram := curRx % RX_BUF_LEN, ring[..];
      packetlen := rxSize - 4;
      if ringOffs + 4 + rxSize - 4 > RX_BUF_LEN {
        var semiCount := RX_BUF_LEN - ringOffs - 4;
        CopyInto(packet, 0, ram[ringOffs + 4..RX_BUF_LEN], semiCount);
        CopyInto(packet, semiCount, ram[0..rxSize - 4 - semiCount], rxSize - 4 - semiCount);
        Joined(packet[..], semiCount, packetlen);
        assert packet[..semiCount] == packet[..][0..semiCount];
      } else {
        CopyInto(packet, 0, ram[ringOffs + 4..ringOffs + 4 + packetlen], packetlen);
        assert packet[..packetlen] == packet[0..packetlen];
      }
    }

    /** Moves the driver behind the oldest record, and tells the chip. */
    method Consume(rxSize: nat)
      requires Valid() && queue != [] && rxSize == |queue[0].payload| + 4
      modifies this`curRx, this`rxBufPtr, this`queue
      ensures Valid() && queue == old(queue)[1..]
      ensures curRx < 0x1_0000_0000 && rxBufPtr == (curRx - 16) % 0x10000
    {
      PlaceOfRest(ring[..], curRx, chipWrite, queue);
      curRx := AlignDown((curRx + rxSize + 4 + 3) % 0x1_0000_0000);
      rxBufPtr := (curRx - 16) % 0x10000;
      queue := queue[1..];
    }

    /** Copies the oldest frame to the packet and moves behind it. */
    method TakeOldest(rxSize: nat)
      requires Valid() && queue != [] && rxSize == |queue[0].payload| + 4 <= ETH_FRAME_LEN + 4
      modifies this`packetlen, this`curRx, this`rxBufPtr, this`queue, packet
      ensures Valid() && queue == old(queue)[1..]
      ensures packetlen <= packet.Length && packet[..packetlen] == old(queue)[0].payload
    {
      PayloadIs();
      CopyFrame(rxSize, queue[0].payload);
      Consume(rxSize);
    }

    /** Delivers the oldest frame if there is one. A bad one resets the ring. */
    method RtlPoll() returns (ret: nat)
      requires Valid()
      modifies this, packet
      ensures Valid()
      ensures old(queue) == [] ==> ret == 0 && queue == []
      ensures old(queue) != [] && Good(old(queue)[0]) ==>
        ret == 1 && queue == old(queue)[1..] && packetlen <= packet.Length && packet[..packetlen] == old(queue)[0].payload
      ensures old(queue) != [] && !Good(old(queue)[0]) ==> ret == 0 && queue == [] && curRx == 0
    {
      EmptyMeansEmpty();
      if RxBufEmpty() { return 0; }
      HeaderIs();
      var ringOffs := curRx % RX_BUF_LEN;
      var header := ring[ringOffs..ringOffs + 4];
      var rxStatus: int := header[0] as int + 256 * (header[1] as int);
      var rxSize: int := header[2] as int + 256 * (header[3] as int);
      if rxStatus / 2 % 32 != 0 || rxSize < ETH_ZLEN || rxSize > ETH_FRAME_LEN + 4 {
        RtlReset();
        return 0;
      }
      TakeOldest(rxSize);
      ret := 1;
    }
  }

  /** Neither truncation of the driver's count disturbs the place in the ring. */
  lemma {:induction false} PointerKeepsOffset(count: int)
    ensures ((count - 16) % 0x10000 + 16) % 0x10000 % RX_BUF_LEN == count % RX_BUF_LEN
    ensures count % 0x1_0000_0000 % RX_BUF_LEN == count % RX_BUF_LEN
  {
    var q := (count - 16) / 0x10000;
    var m := count - 0x10000 * q;
    var e := if m < 0x10000 then 0 else 1;
    assert (count - 16) % 0x10000 == m - 16;
    assert m % 0x10000 == m - 0x10000 * e;
    Multiples(m, 8 * e);
    Multiples(count, 8 * q);
    var w := count / 0x1_0000_0000;
    assert count % 0x1_0000_0000 == count - 0x1_0000_0000 * w;
    Multiples(count, 0x8_0000 * w);
  }

  /** A header at an aligned place does not reach past the end. */
  lemma {:induction false} AlignedPlace(count: nat)
    ensures count % 4 == 0 ==> count % RX_BUF_LEN + 4 <= RX_BUF_LEN
  {
    if count % 4 == 0 {
      var q, r := count / 8192, count % 8192;
      assert count == 8192 * q + r && count == 4 * (count / 4);
      assert r == 4 * (count / 4 - 2048 * q);
    }
  }

  lemma Multiples(x: int, a: int)
    ensures (x - RX_BUF_LEN * a) % RX_BUF_LEN == x % RX_BUF_LEN
  {}

  /** Advancing the 32-bit count moves the place in the ring by the aligned size. */
  lemma {:induction false} CountMovesOffset(count: nat, size: nat)
    requires count % 4 == 0 && count < 0x1_0000_0000 && AlignDown(size) < RX_BUF_LEN
    ensures var c := AlignDown((count + size) % 0x1_0000_0000);
      c < 0x1_0000_0000 && c % 4 == 0 && c % RX_BUF_LEN == Wrap(RX_BUF_LEN, count % RX_BUF_LEN + AlignDown(size))
  {
    AlignedSum(count, size);
    PlaceOfSum(count, AlignDown(size));
  }

  /** The count behind the oldest record, and the others there. */
  lemma {:induction false} PlaceOfRest(ring: seq<byte>, count: nat, chipWrite: nat, queue: seq<Record>)
    requires count % 4 == 0 && count < 0x1_0000_0000 && |ring| >= RX_BUF_LEN && queue != []
    requires InRing(ring, count % RX_BUF_LEN, chipWrite, queue)
    ensures var c := AlignDown((count + (|queue[0].payload| + 4) + 4 + 3) % 0x1_0000_0000);
      c < 0x1_0000_0000 && c % 4 == 0 && InRing(ring, c % RX_BUF_LEN, chipWrite, queue[1..])
  {
    RestInRing(ring, count % RX_BUF_LEN, chipWrite, queue);
    CountMovesOffset(count, |queue[0].payload| + 4 + 4 + 3);
  }

  lemma {:induction false} AlignedSum(count: nat, size: nat)
    requires count % 4 == 0 && count < 0x1_0000_0000 && AlignDown(size) < RX_BUF_LEN
    ensures AlignDown((count + size) % 0x1_0000_0000) == (count + AlignDown(size)) % 0x1_0000_0000
    ensures (count + AlignDown(size)) % 0x1_0000_0000 % 4 == 0
  {
    var sum := count + AlignDown(size);
    assert sum % 4 == 0;
    var w := if sum < 0x1_0000_0000 then sum else sum - 0x1_0000_0000;
    assert w % 4 == 0 && sum % 0x1_0000_0000 == w && (count + size) % 0x1_0000_0000 == w + size % 4;
  }

  lemma {:induction false} PlaceOfSum(count: nat, a: nat)
    requires a < RX_BUF_LEN
    ensures (count + a) % 0x1_0000_0000 % RX_BUF_LEN == Wrap(RX_BUF_LEN, count % RX_BUF_LEN + a)
  {
    PointerKeepsOffset(count + a);
    var q, r := count / RX_BUF_LEN, count % RX_BUF_LEN;
    Multiples(count + a, if r + a < RX_BUF_LEN then q else q + 1);
    assert count + a - RX_BUF_LEN * q == r + a;
  }
}
