/** Any interleaving of arriving frames and polls, overruns included. */
module Ns8390Runs {
  import opened Bytes
  import opened Fifo
  import opened Ns8390

  datatype Event = Arrive(r: Record) | Poll

  /** The queue, and the chip's flags for an overrun and for a good last frame. */
  datatype State = State(fifo: Fifo<Record>, overrun: bool, prx: bool)

  predicate Possible(es: seq<Event>) {
    forall i :: 0 <= i < |es| ==> es[i].Arrive? ==> WellFormed(es[i].r)
  }

  lemma {:induction false} DrainedIsSuffix(q: seq<Record>)
    ensures |Drained(q)| <= |q| && Drained(q) == q[|q| - |Drained(q)|..]
    ensures Drained(q) != [] ==> !Good(Drained(q)[0])
    ensures (forall i :: 0 <= i < |q| ==> Good(q[i])) ==> Drained(q) == []
  {
    if q != [] && Good(q[0]) { DrainedIsSuffix(q[1..]); }
  }

  /** A ring of cnt pages accepts what fits. A poll handles an overrun first;
      otherwise it delivers the oldest frame if that one and the last are good. */
  function Step(cnt: nat, s: State, e: Event): (s': State) {
    match e
    case Arrive(r) =>
      if PageSpan(s.fifo.pending) + r.pages < cnt
      then State(s.fifo.Accept(r), s.overrun, r.status % 2 == 1)
      else s.(overrun := true)
    case Poll =>
      var q := s.fifo.pending;
      if s.overrun then
        DrainedIsSuffix(q);
        State(if s.prx then s.fifo.Drop(|q| - |Drained(q)|) else s.fifo, false, s.prx)
      else if s.prx && q != [] && Good(q[0]) then s.(fifo := s.fifo.Deliver())
      else s
  }

  function RunFifo(cnt: nat, s: State, es: seq<Event>): State {
    if es == [] then s else Step(cnt, RunFifo(cnt, s, es[..|es| - 1]), es[|es| - 1])
  }

  function Payloads(q: seq<Record>): seq<seq<byte>> {
    seq(|q|, i requires 0 <= i < |q| => q[i].payload)
  }

  lemma {:induction false} PayloadsJoin(q: seq<Record>, r: Record)
    ensures Payloads(q + [r]) == Payloads(q) + [r.payload]
  {}

  /** The NIC is in a state of the abstract queue. */
  ghost predicate Matches(nic: Nic, s: State) reads nic {
    nic.queue == s.fifo.pending && nic.isrOvw == s.overrun && nic.rsrPrx == s.prx
  }

  /** A poll that leaves the queue q' is a step, if it drained the ring,
      delivered the oldest frame, or did nothing, as the flags and the queue say. */
  lemma {:induction false} PollIsStep(cnt: nat, s: State, q': seq<Record>, out: seq<seq<byte>>)
    requires var q := s.fifo.pending;
      if s.overrun then q' == (if s.prx then Drained(q) else q) && out == []
      else if s.prx && q != [] && Good(q[0]) then q' == q[1..] && out == [q[0].payload]
      else q' == q && out == []
    ensures var s' := Step(cnt, s, Poll);
      && s'.fifo.pending == q' && s'.prx == s.prx && !s'.overrun
      && Payloads(s'.fifo.delivered) == Payloads(s.fifo.delivered) + out
  {
    DrainedIsSuffix(s.fifo.pending);
    if !s.overrun && s.prx && s.fifo.pending != [] && Good(s.fifo.pending[0]) {
      PayloadsJoin(s.fifo.delivered, s.fifo.pending[0]);
    } else {
      assert Payloads(s.fifo.delivered) + out == Payloads(s.fifo.delivered);
    }
  }

  /** An arriving frame takes the NIC a step further. */
  method ServeArrival(nic: Nic, r: Record, ghost s: State)
    requires nic.Valid() && !nic.drainReceiver && WellFormed(r) && Matches(nic, s)
    modifies nic, nic.mem
    ensures nic.Valid() && !nic.drainReceiver && Matches(nic, Step(nic.stop - nic.start, s, Arrive(r)))
    ensures Step(nic.stop - nic.start, s, Arrive(r)).fifo.delivered == s.fifo.delivered
  {
    var _ := nic.ChipReceive(r);
  }

  /** So does a poll, and the frame it delivers is the one the step delivers. */
  method ServePoll(nic: Nic, ghost s: State) returns (out: seq<seq<byte>>)
    requires nic.Valid() && !nic.drainReceiver && Matches(nic, s)
    modifies nic, nic.packet
    ensures nic.Valid() && !nic.drainReceiver && Matches(nic, Step(nic.stop - nic.start, s, Poll))
    ensures Payloads(Step(nic.stop - nic.start, s, Poll).fifo.delivered) == Payloads(s.fifo.delivered) + out
  {
    var ret := nic.Poll();
    out := if ret == 1 then [nic.packet[..nic.packetlen]] else [];
    PollIsStep(nic.stop - nic.start, s, nic.queue, out);
  }

  /** The driver and the chip together behave as the queue does. */
  method Run(nic: Nic, es: seq<Event>) returns (delivered: seq<seq<byte>>)
    requires nic.Valid() && !nic.drainReceiver && Possible(es)
    modifies nic, nic.mem, nic.packet
    ensures nic.Valid() && !nic.drainReceiver
    ensures var s := RunFifo(nic.stop - nic.start, State(Fifo(old(nic.queue), [], old(nic.queue)), old(nic.isrOvw), old(nic.rsrPrx)), es);
      delivered == Payloads(s.fifo.delivered) && Matches(nic, s)
  {
    delivered := [];
    ghost var s := State(Fifo(nic.queue, [], nic.queue), nic.isrOvw, nic.rsrPrx);
    ghost var start := s;
    assert es[..0] == [];
    for i := 0 to |es|
      invariant nic.Valid() && !nic.drainReceiver && s == RunFifo(nic.stop - nic.start, start, es[..i])
      invariant delivered == Payloads(s.fifo.delivered) && Matches(nic, s)
    {
      assert es[..i + 1][..i] == es[..i];
      match es[i] {
        case Arrive(r) =>
          ServeArrival(nic, r, s);
        case Poll =>
          var out := ServePoll(nic, s);
          delivered := delivered + out;
      }
      s := Step(nic.stop - nic.start, s, es[i]);
    }
    assert es[..|es|] == es;
  }

  /** Whatever arrives, frames come out at most once and in order. */
  lemma {:induction false} RunsKeepOrder(cnt: nat, s: State, es: seq<Event>)
    requires InOrder(s.fifo)
    ensures InOrder(RunFifo(cnt, s, es).fifo)
  {
    if es != [] {
      var n := |es| - 1;
      RunsKeepOrder(cnt, s, es[..n]);
      var f := RunFifo(cnt, s, es[..n]).fifo;
      match es[n] {
        case Arrive(r) => AcceptKeepsOrder(f, r);
        case Poll =>
          if f.pending != [] { DeliverKeepsOrder(f); }
          DrainedIsSuffix(f.pending);
          DropKeepsOrder(f, |f.pending| - |Drained(f.pending)|);
      }
    }
  }

  /** Without overruns, every accepted frame comes out. */
  lemma {:induction false} LosslessWithoutOverrun(cnt: nat, s: State, es: seq<Event>)
    requires InOrder(s.fifo) && Lossless(s.fifo)
    requires forall i :: 0 <= i <= |es| ==> !RunFifo(cnt, s, es[..i]).overrun
    ensures Lossless(RunFifo(cnt, s, es).fifo)
  {
    if es != [] {
      var n := |es| - 1;
      assert es[..|es|] == es;
      forall i | 0 <= i <= n ensures !RunFifo(cnt, s, es[..n][..i]).overrun { assert es[..n][..i] == es[..i]; }
      LosslessWithoutOverrun(cnt, s, es[..n]);
      RunsKeepOrder(cnt, s, es[..n]);
      var f := RunFifo(cnt, s, es[..n]).fifo;
      assert !RunFifo(cnt, s, es[..n]).overrun;
      match es[n] {
        case Arrive(r) => AcceptKeepsOrder(f, r);
        case Poll => if f.pending != [] { DeliverKeepsOrder(f); }
      }
    }
  }

  /** A record that the driver takes for bogus is never passed, not even by the
      drain: nothing is delivered any more. */
  lemma {:induction false} BogusBlocks(cnt: nat, s: State, es: seq<Event>)
    requires s.fifo.pending != [] && !Good(s.fifo.pending[0])
    ensures var s' := RunFifo(cnt, s, es);
      s'.fifo.pending != [] && s'.fifo.pending[0] == s.fifo.pending[0] && s'.fifo.delivered == s.fifo.delivered
  {
    if es != [] { BogusBlocks(cnt, s, es[..|es| - 1]); }
  }

  lemma {:induction false} RunJoin(cnt: nat, s: State, a: seq<Event>, b: seq<Event>)
    ensures RunFifo(cnt, s, a + b) == RunFifo(cnt, RunFifo(cnt, s, a), b)
    decreases |b|
  {
    if b == [] {
      assert a + b == a;
    } else {
      assert (a + b)[..|a + b| - 1] == a + b[..|b| - 1];
      RunJoin(cnt, s, a, b[..|b| - 1]);
    }
  }

  /** From an empty ring, one arrival and one poll decide: a frame of 60 to 1514
      bytes that was received intact is delivered; any other stays, and nothing
      is ever delivered again. */
  lemma {:induction false} FirstArrival(cnt: nat, r: Record, es: seq<Event>)
    requires r.pages < cnt
    ensures var empty, two := State(Fifo([], [], []), false, false), [Arrive(r), Poll];
      if r.status % 2 == 1 && 60 <= |r.payload| <= 1514 then RunFifo(cnt, empty, two).fifo == Fifo([], [r], [r])
      else RunFifo(cnt, empty, two + es).fifo.delivered == [] && RunFifo(cnt, empty, two + es).fifo.pending != []
  {
    GoodIff(r);
    var empty, two := State(Fifo([], [], []), false, false), [Arrive(r), Poll];
    var s1 := State(Fifo([r], [], [r]), false, r.status % 2 == 1);
    assert two[..1] == [Arrive(r)] && two[..1][..0] == [];
    assert RunFifo(cnt, empty, two[..1]) == s1 by {
      assert RunFifo(cnt, empty, []) == empty && [] + [r] == [r] && PageSpan([]) == 0;
    }
    assert RunFifo(cnt, empty, two) == Step(cnt, s1, Poll);
    if Good(r) {
      assert [r][1..] == [] && [] + [r] == [r];
    } else {
      RunJoin(cnt, empty, two, es);
      BogusBlocks(cnt, s1, es);
    }
  }

  /** Such frames exist: one without contents. */
  lemma {:induction false} Runt()
    ensures var r := Record(1, [], [0, 0, 0, 0], 1); WellFormed(r) && !Good(r)
  {}

  /** A poll after an overrun leaves the ring empty just when it was empty, or
      the last frame and all frames in it were good. */
  lemma {:induction false} OverrunEmpties(cnt: nat, s: State)
    requires s.overrun
    ensures Step(cnt, s, Poll).fifo.pending == [] <==>
      s.fifo.pending == [] || (s.prx && forall i :: 0 <= i < |s.fifo.pending| ==> Good(s.fifo.pending[i]))
  {
    DrainedIsSuffix(s.fifo.pending);
    if Drained(s.fifo.pending) == [] { AllDrained(s.fifo.pending); }
  }

  lemma {:induction false} AllDrained(q: seq<Record>)
    requires Drained(q) == []
    ensures forall i :: 0 <= i < |q| ==> Good(q[i])
  {
    if q != [] {
      AllDrained(q[1..]);
      forall i | 0 <= i < |q| ensures Good(q[i]) { if i > 0 { assert q[i] == q[1..][i - 1]; } }
    }
  }
}
