/** What a receive ring must be: a queue from which things leave in order. */
module Fifo {

  /** What is queued, what has been delivered, and all that was ever accepted. */
  datatype Fifo<T> = Fifo(pending: seq<T>, delivered: seq<T>, accepted: seq<T>) {
    function Accept(x: T): Fifo<T> {
      this.(pending := pending + [x], accepted := accepted + [x])
    }

    function Deliver(): Fifo<T>
      requires pending != []
    {
      this.(pending := pending[1..], delivered := delivered + [pending[0]])
    }

    function Drop(n: nat): Fifo<T>
      requires n <= |pending|
    {
      this.(pending := pending[n..])
    }
  }

  predicate Subsequence<T(==)>(a: seq<T>, b: seq<T>) {
    a == [] || (b != [] && ((a[0] == b[0] && Subsequence(a[1..], b[1..])) || Subsequence(a, b[1..])))
  }

  /** Nothing is invented, repeated or reordered: the queue is the last part of
      what was accepted, and what was delivered came in order before it. */
  ghost predicate InOrder<T>(f: Fifo<T>) {
    var k := |f.accepted| - |f.pending|;
    k >= 0 && f.accepted[k..] == f.pending && Subsequence(f.delivered, f.accepted[..k])
  }

  /** Nothing has been lost either. */
  ghost predicate Lossless<T>(f: Fifo<T>) {
    f.delivered + f.pending == f.accepted
  }

  lemma {:induction false} SubsequenceGrows<T>(a: seq<T>, b: seq<T>, x: T)
    requires Subsequence(a, b)
    ensures Subsequence(a + [x], b + [x])
  {
    if b == [] {
      assert a + [x] == [x] && b + [x] == [x];
      assert Subsequence([x][1..], [x][1..]);
    } else {
      assert (b + [x])[1..] == b[1..] + [x];
      if a != [] && a[0] == b[0] && Subsequence(a[1..], b[1..]) {
        SubsequenceGrows(a[1..], b[1..], x);
        assert (a + [x])[1..] == a[1..] + [x];
      } else {
        SubsequenceGrows(a, b[1..], x);
      }
    }
  }

  lemma {:induction false} SubsequenceOfMore<T>(a: seq<T>, b: seq<T>, c: seq<T>)
    requires Subsequence(a, b)
    ensures Subsequence(a, b + c)
  {
    if a != [] {
      assert (b + c)[1..] == b[1..] + c;
      if a[0] == b[0] && Subsequence(a[1..], b[1..]) {
        SubsequenceOfMore(a[1..], b[1..], c);
      } else {
        SubsequenceOfMore(a, b[1..], c);
      }
    }
  }

  lemma {:induction false} AcceptKeepsOrder<T>(f: Fifo<T>, x: T)
    requires InOrder(f)
    ensures InOrder(f.Accept(x)) && (Lossless(f) ==> Lossless(f.Accept(x)))
  {
    var a, k := f.accepted, |f.accepted| - |f.pending|;
    assert (a + [x])[..k] == a[..k] && (a + [x])[k..] == a[k..] + [x];
    assert f.delivered + (f.pending + [x]) == f.delivered + f.pending + [x];
  }

  lemma {:induction false} DeliverKeepsOrder<T>(f: Fifo<T>)
    requires InOrder(f) && f.pending != []
    ensures InOrder(f.Deliver()) && (Lossless(f) ==> Lossless(f.Deliver()))
  {
    var a, k := f.accepted, |f.accepted| - |f.pending|;
    assert f.delivered + [f.pending[0]] + f.pending[1..] == f.delivered + f.pending;
    assert a[..k + 1] == a[..k] + [f.pending[0]] && a[k + 1..] == a[k..][1..];
    SubsequenceGrows(f.delivered, a[..k], f.pending[0]);
  }

  lemma {:induction false} DropKeepsOrder<T>(f: Fifo<T>, n: nat)
    requires InOrder(f) && n <= |f.pending|
    ensures InOrder(f.Drop(n))
  {
    var a, k := f.accepted, |f.accepted| - |f.pending|;
    assert a[..k + n] == a[..k] + a[k..k + n] && a[k + n..] == a[k..][n..];
    SubsequenceOfMore(f.delivered, a[..k], a[k..k + n]);
  }
}
