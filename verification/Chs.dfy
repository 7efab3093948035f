/** Disk addressing through the BIOS: linear where the BIOS can do it, with
    a fallback to cylinder, head and sector numbers. */
module Chs {
  import opened Options

  datatype Place = Place(cylinder: nat, head: nat, sector: nat)

  /** What the BIOS was asked to do. */
  datatype Call = Linear(sector: nat) | Standard(place: Place)

  const BIOSDISK_ERROR_GEOMETRY := 0x100

  function Quot(x: nat, n: nat): (q: nat)
    requires n > 0
  {
    x / n
  }

  function Rem(x: nat, n: nat): (r: nat)
    requires n > 0
    ensures r < n
  {
    x % n
  }

  /** The place of a linear sector; sectors count from one, the others from
      zero. There is none if the cylinder does not exist. */
  function Locate(sector: nat, cylinders: nat, heads: nat, sectors: nat): Option<Place>
    requires heads > 0 && sectors > 0
  {
    var track := Quot(sector, sectors);
    if Quot(track, heads) >= cylinders then None
    else Some(Place(Quot(track, heads), Rem(track, heads), Rem(sector, sectors) + 1))
  }

  /** The linear number of a place. */
  function Linearized(p: Place, heads: nat, sectors: nat): int {
    (p.cylinder * heads + p.head) * sectors + (p.sector - 1)
  }

  predicate OnDisk(p: Place, cylinders: nat, heads: nat, sectors: nat) {
    p.cylinder < cylinders && p.head < heads && 1 <= p.sector <= sectors
  }

  /** Numbers of the form i * n + r with r < n are ordered by i. */
  lemma {:induction false} Compare(i: nat, j: nat, n: nat)
    ensures i < j ==> i * n + n <= j * n
    ensures i <= j ==> i * n <= j * n
    decreases j
  {
    if i < j {
      Compare(i, j - 1, n);
      assert j * n == (j - 1) * n + n;
    }
  }

  lemma {:induction false} QuotientIs(q: nat, r: nat, n: nat)
    requires r < n
    ensures (q * n + r) / n == q && (q * n + r) % n == r
  {
    var d, m := (q * n + r) / n, (q * n + r) % n;
    assert d * n + m == q * n + r;
    Compare(d, q, n);
    Compare(q, d, n);
  }

  /** A number falls below j * n just when its quotient by n falls below j. */
  lemma {:induction false} QuotientBelow(x: nat, j: nat, n: nat)
    requires n > 0
    ensures x < j * n <==> x / n < j
  {
    var q := x / n;
    assert q * n <= x < q * n + n;
    Compare(q, j, n);
    Compare(j, q, n);
  }

  /** A sector below the number of sectors has a place, which determines it. */
  lemma {:induction false} LocateIsRight(sector: nat, cylinders: nat, heads: nat, sectors: nat)
    requires heads > 0 && sectors > 0
    ensures var l := Locate(sector, cylinders, heads, sectors);
      && (l.Some? <==> sector < cylinders * heads * sectors)
      && (l.Some? ==> var p := l.value;
            && p.cylinder < cylinders && p.head < heads && 1 <= p.sector <= sectors
            && (p.cylinder * heads + p.head) * sectors + (p.sector - 1) == sector)
  {
    var t := sector / sectors;
    QuotientBelow(sector, cylinders * heads, sectors);
    QuotientBelow(t, cylinders, heads);
    assert sector == t * sectors + sector % sectors;
    assert t == t / heads * heads + t % heads;
  }

  /** Every place on the disk is the place of its number: no two sectors share one. */
  lemma {:induction false} LocateReachesAll(p: Place, cylinders: nat, heads: nat, sectors: nat)
    requires OnDisk(p, cylinders, heads, sectors)
    ensures Linearized(p, heads, sectors) >= 0
    ensures Locate(Linearized(p, heads, sectors), cylinders, heads, sectors) == Some(p)
  {
    QuotientIs(p.cylinder * heads + p.head, p.sector - 1, sectors);
    QuotientIs(p.cylinder, p.head, heads);
  }

  class Geometry {
    var lbaExtension: bool
    var cdrom: bool
    var cylinders: nat
    var heads: nat
    var sectors: nat
    var totalSectors: nat

    /** Reads or writes from a sector on. The BIOS answers a linear call with
        lbaErr and a standard one with stdErr; calls lists what it was asked.
        When a linear call fails, linear calls are given up for good. */
    method Biosdisk(sector: nat, lbaErr: int, stdErr: int) returns (err: int, calls: seq<Call>)
      requires heads > 0 && sectors > 0
      modifies this`lbaExtension, this`totalSectors
      ensures var l := Locate(sector, cylinders, heads, sectors);
        var chs := if l.Some? then (stdErr, [Standard(l.value)]) else (0x100, []);
        if !old(lbaExtension) then (err, calls) == chs && !lbaExtension && totalSectors == old(totalSectors)
        else if lbaErr == 0 || cdrom then
          err == lbaErr && calls == [Linear(sector)] && lbaExtension && totalSectors == old(totalSectors)
        else
          err == chs.0 && calls == [Linear(sector)] + chs.1 && !lbaExtension
          && totalSectors == cylinders * heads * sectors % 0x1_0000_0000
      decreases lbaExtension
    {
      if lbaExtension {
        err, calls := lbaErr, [Linear(sector)];
        if err != 0 {
          if cdrom { return; }
          lbaExtension := false;
          totalSectors := cylinders * heads * sectors % 0x1_0000_0000;
          var more;
          err, more := Biosdisk(sector, lbaErr, stdErr);
          calls := calls + more;
        }
      } else {
        err, calls := ByCylinder(sector, stdErr);
      }
    }

    method ByCylinder(sector: nat, stdErr: int) returns (err: int, calls: seq<Call>)
      requires heads > 0 && sectors > 0
      ensures var l := Locate(sector, cylinders, heads, sectors);
        (err, calls) == if l.Some? then (stdErr, [Standard(l.value)]) else (0x100, [])
    {
      var sectorOffset := sector % sectors + 1;
      var head := sector / sectors;
      var headOffset := head % heads;
      var cylinderOffset := head / heads;
      if cylinderOffset >= cylinders { return BIOSDISK_ERROR_GEOMETRY, []; }
      err, calls := stdErr, [Standard(Place(cylinderOffset, headOffset, sectorOffset))];
    }
  }
}
