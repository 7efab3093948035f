/** Any interleaving of arriving frames and polls: the ring is a queue. */
module Rtl8139Runs {
  import opened Bytes
  import opened Fifo
  import opened Ring
  import opened Rtl8139

  datatype Event = Arrive(r: Record) | Poll

  predicate Possible(es: seq<Event>) {
    forall i :: 0 <= i < |es| ==> es[i].Arrive? ==> WellFormed(es[i].r)
  }

  predicate AllWellFormed(q: seq<Record>) {
    forall i :: 0 <= i < |q| ==> WellFormed(q[i])
  }

  /** A frame is accepted if there is room for it; a poll delivers the oldest
      frame, or drops everything if that one is bad. */
  function Step(f: Fifo<Record>, e: Event): (f': Fifo<Record>)
    requires AllWellFormed(f.pending) && (e.Arrive? ==> WellFormed(e.r))
    ensures AllWellFormed(f'.pending)
  {
    match e
    case Arrive(r) => if Span(Cells(f.pending)) + CellOf(r).space < RX_BUF_LEN then f.Accept(r) else f
    case Poll =>
      if f.pending == [] then f
      else if Good(f.pending[0]) then f.Deliver()
      else f.Drop(|f.pending|)
  }

  function RunFifo(f: Fifo<Record>, es: seq<Event>): (f': Fifo<Record>)
    requires AllWellFormed(f.pending) && Possible(es)
    ensures AllWellFormed(f'.pending)
  {
    if es == [] then f else Step(RunFifo(f, es[..|es| - 1]), es[|es| - 1])
  }

  function Payloads(q: seq<Record>): seq<seq<byte>> {
    seq(|q|, i requires 0 <= i < |q| => q[i].payload)
  }

  lemma {:induction false} PayloadsJoin(q: seq<Record>, r: Record)
    ensures Payloads(q + [r]) == Payloads(q) + [r.payload]
  {}

  /** What happens at one event. */
  method Serve(nic: Nic, e: Event, ghost f: Fifo<Record>) returns (out: seq<seq<byte>>)
    requires nic.Valid() && (e.Arrive? ==> WellFormed(e.r)) && f.pending == nic.queue && AllWellFormed(f.pending)
    modifies nic, nic.ring, nic.packet
    ensures nic.Valid() && nic.queue == Step(f, e).pending
    ensures Payloads(Step(f, e).delivered) == Payloads(f.delivered) + out
  {
    out := [];
    match e {
      case Arrive(r) =>
        var _ := nic.ChipReceive(r);
      case Poll =>
        if f.pending != [] { PayloadsJoin(f.delivered, f.pending[0]); }
        var ret := nic.RtlPoll();
        if ret == 1 { out := [nic.packet[..nic.packetlen]]; }
    }
    assert out == [] ==> Payloads(f.delivered) + out == Payloads(f.delivered);
  }

  /** The driver and the chip together behave as the queue does. */
  method Run(nic: Nic, es: seq<Event>) returns (delivered: seq<seq<byte>>)
    requires nic.Valid() && Possible(es)
    modifies nic, nic.ring, nic.packet
    ensures nic.Valid()
    ensures var f := RunFifo(Fifo(old(nic.queue), [], old(nic.queue)), es);
      delivered == Payloads(f.delivered) && nic.queue == f.pending
  {
    delivered := [];
    ghost var f := Fifo(nic.queue, [], nic.queue);
    ghost var start := f;
    assert es[..0] == [];
    for i := 0 to |es|
      invariant nic.Valid() && f == RunFifo(start, es[..i])
      invariant delivered == Payloads(f.delivered) && nic.queue == f.pending
    {
      assert es[..i + 1][..i] == es[..i];
      var out := Serve(nic, es[i], f);
      delivered := delivered + out;
      f := Step(f, es[i]);
    }
    assert es[..|es|] == es;
  }

  /** Whatever arrives, frames come out at most once and in order; and if all
      frames are good, every accepted one comes out. */
  lemma {:induction false} RunsKeepOrder(f: Fifo<Record>, es: seq<Event>)
    requires AllWellFormed(f.pending) && Possible(es) && InOrder(f)
    ensures InOrder(RunFifo(f, es))
    ensures Lossless(f) && AllGood(f.pending) && GoodFramesOnly(es) ==>
      Lossless(RunFifo(f, es)) && AllGood(RunFifo(f, es).pending)
  {
    if es != [] {
      var n := |es| - 1;
      RunsKeepOrder(f, es[..n]);
      var g := RunFifo(f, es[..n]);
      if es[n].Arrive? {
        AcceptKeepsOrder(g, es[n].r);
      } else if g.pending != [] {
        DeliverKeepsOrder(g);
        DropKeepsOrder(g, |g.pending|);
      }
    }
  }

  /** From an empty ring, one arrival and one poll: a frame of 56 to 1514 bytes
      without an error bit is delivered; any other that the chip has room for
      resets the ring, and nothing is delivered. */
  lemma {:induction false} FirstArrival(r: Record)
    requires WellFormed(r)
    ensures var empty: Fifo<Record> := Fifo([], [], []);
      RunFifo(empty, [Arrive(r), Poll]) ==
      if |r.payload| > 8180 then empty
      else if !HasError(r.status) && 56 <= |r.payload| <= 1514 then Fifo([], [r], [r])
      else Fifo([], [], [r])
  {
    var empty: Fifo<Record>, two := Fifo([], [], []), [Arrive(r), Poll];
    var one := Step(empty, Arrive(r));
    GoodIff(r);
    CellIs(r);
    assert two[..1] == [Arrive(r)] && two[..1][..0] == [];
    assert RunFifo(empty, []) == empty;
    assert RunFifo(empty, two[..1]) == one;
    assert Cells([]) == [] && Span([]) == 0;
    assert RunFifo(empty, two) == Step(one, Poll);
    assert [] + [r] == [r] && [r][1..] == [];
  }

  predicate AllGood(q: seq<Record>) {
    forall i :: 0 <= i < |q| ==> Good(q[i])
  }

  predicate GoodFramesOnly(es: seq<Event>) {
    forall i :: 0 <= i < |es| ==> es[i].Arrive? ==> Good(es[i].r)
  }
}
