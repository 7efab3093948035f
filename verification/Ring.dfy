/** A cyclic byte memory holding records one after the other. */
module Ring {
  import opened Bytes

  /** The place x of a ring of n bytes, counted at most once around. */
  function Wrap(n: nat, x: nat): (y: nat)
    requires x < 2 * n
    ensures y < n
  {
    if x < n then x else x - n
  }

  /** The ring mem[lo..lo+n), read once around from off on. */
  function View(mem: seq<byte>, lo: nat, n: nat, off: nat): (v: seq<byte>)
    requires lo + n <= |mem| && off <= n
    ensures |v| == n
  {
    mem[lo + off..lo + n] + mem[lo..lo + off]
  }

  /** A record: its bytes, and the room it takes in the ring. */
  datatype Cell = Cell(data: seq<byte>, space: nat)

  function Span(cells: seq<Cell>): nat {
    if cells == [] then 0 else cells[0].space + Span(cells[1..])
  }

  /** v starts with the cells, each in its room. */
  predicate Laid(v: seq<byte>, cells: seq<Cell>) {
    cells == [] ||
    (|cells[0].data| <= cells[0].space <= |v| && v[..|cells[0].data|] == cells[0].data
     && Laid(v[cells[0].space..], cells[1..]))
  }

  lemma {:induction false} SpanAppend(cells: seq<Cell>, c: Cell)
    ensures Span(cells + [c]) == Span(cells) + c.space
  {
    if cells == [] {
      assert [] + [c] == [c] && [c][1..] == [];
    } else {
      SpanAppend(cells[1..], c);
      assert (cells + [c])[1..] == cells[1..] + [c];
    }
  }

  lemma {:induction false} LaidFits(v: seq<byte>, cells: seq<Cell>)
    requires Laid(v, cells)
    ensures Span(cells) <= |v|
  {
    if cells != [] { LaidFits(v[cells[0].space..], cells[1..]); }
  }

  /** Only the bytes that the cells take matter. */
  lemma {:induction false} LaidFrame(v: seq<byte>, v': seq<byte>, cells: seq<Cell>)
    requires Laid(v, cells) && Span(cells) <= |v| && Span(cells) <= |v'| && v[..Span(cells)] == v'[..Span(cells)]
    ensures Laid(v', cells)
  {
    if cells != [] {
      var s := cells[0].space;
      var d := |cells[0].data|;
      assert v[..d] == v[..Span(cells)][..d] && v'[..d] == v'[..Span(cells)][..d];
      assert v[s..][..Span(cells[1..])] == v[..Span(cells)][s..] && v'[s..][..Span(cells[1..])] == v'[..Span(cells)][s..];
      LaidFrame(v[s..], v'[s..], cells[1..]);
    }
  }

  lemma {:induction false} LaidAppend(v: seq<byte>, cells: seq<Cell>, c: Cell)
    requires Laid(v, cells) && |c.data| <= c.space && Span(cells) + c.space <= |v|
    requires v[Span(cells)..][..|c.data|] == c.data
    ensures Laid(v, cells + [c])
  {
    if cells == [] {
      assert cells + [c] == [c] && [c][1..] == [] && v[0..] == v;
    } else {
      var s := cells[0].space;
      assert v[s..][Span(cells[1..])..] == v[Span(cells)..];
      LaidAppend(v[s..], cells[1..], c);
      assert (cells + [c])[1..] == cells[1..] + [c];
    }
  }

  /** How far behind off the i-th byte of the ring comes; the inverse of Wrap. */
  function Place(n: nat, off: nat, i: nat): (k: nat)
    requires off < n && i < n
    ensures k < n && Wrap(n, off + k) == i
  {
    if i >= off then i - off else i + n - off
  }

  /** A reader that moves on by s sees the ring turned by s. */
  lemma ViewTurned(mem: seq<byte>, lo: nat, n: nat, off: nat, s: nat)
    requires lo + n <= |mem| && off < n && s <= n
    ensures View(mem, lo, n, Wrap(n, off + s)) == View(mem, lo, n, off)[s..] + View(mem, lo, n, off)[..s]
  {
    var v, w := View(mem, lo, n, off), View(mem, lo, n, Wrap(n, off + s));
    var r := v[s..] + v[..s];
    forall k | 0 <= k < n ensures w[k] == r[k] {
      ViewAt(mem, lo, n, Wrap(n, off + s), k);
      ViewAt(mem, lo, n, off, Wrap(n, k + s));
    }
  }

  lemma ViewAt(mem: seq<byte>, lo: nat, n: nat, off: nat, k: nat)
    requires lo + n <= |mem| && off <= n && k < n
    ensures View(mem, lo, n, off)[k] == mem[lo + if off + k < n then off + k else off + k - n]
  {}

  /** Writing data at the k-th byte behind off, seen byte by byte and in the view. */
  lemma {:induction false} StoredView(was: seq<byte>, now: seq<byte>, lo: nat, n: nat, off: nat, k: nat, data: seq<byte>)
    requires lo + n <= |was| == |now| && off < n && k + |data| <= n
    requires forall x :: lo <= x < lo + n ==>
      now[x] == (var p := Place(n, off, x - lo); if k <= p < k + |data| then data[p - k] else was[x])
    ensures var v := View(was, lo, n, off); View(now, lo, n, off) == v[..k] + data + v[k + |data|..]
  {
    var v, v' := View(was, lo, n, off), View(now, lo, n, off);
    var r := v[..k] + data + v[k + |data|..];
    forall m | 0 <= m < n ensures v'[m] == r[m] {
      var x := lo + Wrap(n, off + m);
      assert v[m] == was[x] && v'[m] == now[x] && Place(n, off, x - lo) == m;
    }
  }

  /** A device writes data into the ring, from the k-th byte behind off on. */
  method Store(mem: array<byte>, lo: nat, n: nat, off: nat, k: nat, data: seq<byte>)
    requires lo + n <= mem.Length && off < n && k + |data| <= n
    modifies mem
    ensures var v := old(View(mem[..], lo, n, off));
      View(mem[..], lo, n, off) == v[..k] + data + v[k + |data|..]
  {
    for j := 0 to |data|
      invariant forall x :: lo <= x < lo + n ==>
        mem[x] == (var p := Place(n, off, x - lo); if k <= p < k + j then data[p - k] else old(mem[x]))
    {
      mem[lo + Wrap(n, off + (k + j))] := data[j];
    }
    StoredView(old(mem[..]), mem[..], lo, n, off, k, data);
  }

  /** A device appends a record behind the cells in the ring. */
  method Append(mem: array<byte>, lo: nat, n: nat, off: nat, ghost cells: seq<Cell>, used: nat, c: Cell)
    requires lo + n <= mem.Length && off < n && used == Span(cells) && used + c.space <= n && |c.data| <= c.space
    requires Laid(View(mem[..], lo, n, off), cells)
    modifies mem
    ensures Laid(View(mem[..], lo, n, off), cells + [c])
  {
    ghost var v := View(mem[..], lo, n, off);
    Store(mem, lo, n, off, used, c.data);
    ghost var v' := View(mem[..], lo, n, off);
    assert v'[..used] == v[..used];
    LaidFrame(v, v', cells);
    LaidAppend(v', cells, c);
  }

  /** Taking the first record leaves the others for the reader behind it. */
  lemma {:induction false} LaidRest(mem: seq<byte>, lo: nat, n: nat, off: nat, cells: seq<Cell>, off': nat, rest: seq<Cell>)
    requires lo + n <= |mem| && off < n && cells != [] && Laid(View(mem, lo, n, off), cells)
    requires cells[0].space <= n ==> off' == Wrap(n, off + cells[0].space)
    requires rest == cells[1..]
    ensures cells[0].space <= n && Laid(View(mem, lo, n, off'), rest)
  {
    var s := cells[0].space;
    var v, v' := View(mem, lo, n, off), View(mem, lo, n, off');
    ViewTurned(mem, lo, n, off, s);
    LaidFits(v[s..], rest);
    assert v'[..Span(rest)] == v[s..][..Span(rest)];
    LaidFrame(v[s..], v', rest);
  }

  /** Reading a stretch of the view takes one copy, or two when it wraps. */
  lemma {:induction false} SplitRead(mem: seq<byte>, lo: nat, n: nat, off: nat, from: nat, len: nat)
    requires lo + n <= |mem| && off + from <= n && from + len <= n
    ensures var d := View(mem, lo, n, off)[from..from + len];
      && (off + from + len <= n ==> d == mem[lo + off + from..lo + off + from + len])
      && (off + from + len > n ==> d == mem[lo + off + from..lo + n] + mem[lo..lo + (off + from + len - n)])
  {
    var v := View(mem, lo, n, off);
    var d := v[from..from + len];
    if off + from + len <= n {
      var r := mem[lo + off + from..lo + off + from + len];
      forall k | 0 <= k < len ensures d[k] == r[k] { assert d[k] == v[from + k]; }
    } else {
      var r := mem[lo + off + from..lo + n] + mem[lo..lo + (off + from + len - n)];
      forall k | 0 <= k < len ensures d[k] == r[k] { assert d[k] == v[from + k]; }
    }
  }

  /** p lies at the address at of the ring mem[lo..end), in one piece or in two. */
  ghost predicate FrameAt(mem: seq<byte>, lo: nat, end: nat, at: nat, p: seq<byte>)
    requires lo <= at <= end <= |mem|
  {
    if at + |p| <= end then mem[at..at + |p|] == p
    else at + |p| - end <= end - lo && mem[at..end] + mem[lo..lo + (at + |p| - end)] == p
  }

  /** A stretch of the view lies in the memory in one piece or in two. */
  lemma {:induction false} StretchAt(mem: seq<byte>, lo: nat, n: nat, off: nat, from: nat, p: seq<byte>)
    requires lo + n <= |mem| && off + from <= n && from + |p| <= n
    requires View(mem, lo, n, off)[from..from + |p|] == p
    ensures FrameAt(mem, lo, lo + n, lo + off + from, p)
  {
    SplitRead(mem, lo, n, off, from, |p|);
  }

  /** A part p of the oldest record, as it lies in the memory. */
  lemma {:induction false} OldestPart(mem: seq<byte>, lo: nat, n: nat, off: nat, cells: seq<Cell>, from: nat, p: seq<byte>,
                   end: nat, at: nat)
    requires lo + n == end <= |mem| && lo + off + from == at <= end
    requires cells != [] && Laid(View(mem, lo, n, off), cells)
    requires from + |p| <= |cells[0].data| && cells[0].data[from..from + |p|] == p
    ensures FrameAt(mem, lo, end, at, p)
  {
    var v := View(mem, lo, n, off);
    SliceOfTake(v, |cells[0].data|, from, from + |p|);
    StretchAt(mem, lo, n, off, from, p);
  }
}
