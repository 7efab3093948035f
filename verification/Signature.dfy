/** The search for the DEPCA signature in the bytes of the station address
    PROM. A mismatch falls back to at most one matched byte, which is less than
    what a general search would keep; for this signature it is enough. */
module Signature {
  import opened Bytes

  const SIG: seq<byte> := [0xFF, 0x00, 0x55, 0xAA, 0xFF, 0x00, 0x55, 0xAA]
  const PROBE_LENGTH := 32

  /** The first i bytes end with the first k bytes of the signature. */
  ghost predicate EndsWith(stream: seq<byte>, i: nat, k: nat) {
    k <= i <= |stream| && k <= 8 && stream[i - k..i] == SIG[..k]
  }

  lemma {:induction false} Chopped(s: seq<byte>, lo: nat, hi: nat, w: seq<byte>)
    requires lo < hi <= |s| && s[lo..hi] == w
    ensures w != [] && s[hi - 1] == w[|w| - 1] && s[lo..hi - 1] == w[..|w| - 1]
  {
    assert s[hi - 1] == s[lo..hi][hi - 1 - lo];
    var shorter := s[lo..hi - 1];
    forall m | 0 <= m < |w| - 1 ensures shorter[m] == w[m] { assert s[lo + m] == s[lo..hi][m]; }
  }

  lemma {:induction false} Shorter(stream: seq<byte>, i: nat, k: nat)
    requires i < |stream| && EndsWith(stream, i + 1, k) && k > 0
    ensures EndsWith(stream, i, k - 1) && stream[i] == SIG[k - 1]
  {
    Chopped(stream, i + 1 - k, i + 1, SIG[..k]);
    Chopped(SIG, 0, k, SIG[..k]);
  }

  /** The signature's own borders: what can be left of a match of j bytes when
      the next byte d does not continue it. */
  lemma {:induction false} FallBack(stream: seq<byte>, i: nat, j: nat, k: nat)
    requires i < |stream| && j < 8 && EndsWith(stream, i, j)
    requires forall m :: j < m <= 8 ==> !EndsWith(stream, i, m)
    requires EndsWith(stream, i + 1, k) && k > 0
    ensures k <= j + 1
    ensures stream[i] == SIG[j] ==> EndsWith(stream, i + 1, j + 1)
    ensures stream[i] != SIG[j] ==> k == 1
  {
    Shorter(stream, i, k);
    if stream[i] == SIG[j] {
      OneMore(stream, i, j);
    } else if k > 1 {
      Overlap(stream, i, j, k - 1);
    }
  }

  /** Two matches that end together leave the same next byte of the signature:
      it repeats every four bytes and nothing shorter repeats in it. */
  lemma {:induction false} Overlap(stream: seq<byte>, i: nat, j: nat, k: nat)
    requires EndsWith(stream, i, j) && EndsWith(stream, i, k) && 0 < k <= j < 8
    ensures SIG[k] == SIG[j]
  {
    assert stream[i - j..i][j - k..] == stream[i - k..i];
    assert SIG[..j][j - k..] == SIG[..k];
    forall m | 0 <= m < k ensures SIG[j - k + m] == SIG[m] {
      assert SIG[..j][j - k..][m] == SIG[..k][m];
    }
    assert SIG[j - k] == SIG[0];
  }

  /** How much of the signature counts as matched after j bytes and then data. */
  function Kept(j: nat, data: byte): nat
    requires j < 8
  {
    if data == SIG[j] then j + 1 else if data == SIG[0] then 1 else 0
  }

  /** j is how much of the signature the first i bytes end with. */
  ghost predicate LongestAt(stream: seq<byte>, i: nat, j: nat) {
    j <= 8 && EndsWith(stream, i, j) && forall m :: j < m <= 8 ==> !EndsWith(stream, i, m)
  }

  lemma {:induction false} OneByte(stream: seq<byte>, i: nat)
    requires i < |stream| && stream[i] == SIG[0]
    ensures EndsWith(stream, i + 1, 1)
  {
    assert stream[i..i + 1] == [stream[i]] && SIG[..1] == [SIG[0]];
  }

  lemma {:induction false} OneMore(stream: seq<byte>, i: nat, j: nat)
    requires i < |stream| && j < 8 && EndsWith(stream, i, j) && stream[i] == SIG[j]
    ensures EndsWith(stream, i + 1, j + 1)
  {
    assert stream[i - j..i + 1] == stream[i - j..i] + [stream[i]];
    assert SIG[..j + 1] == SIG[..j] + [SIG[j]];
  }

  lemma {:induction false} LastIs(stream: seq<byte>, i: nat, m: nat)
    requires i < |stream| && m > 0 && EndsWith(stream, i + 1, m)
    ensures stream[i] == SIG[m - 1]
  {
    assert stream[i + 1 - m..i + 1][m - 1] == SIG[..m][m - 1];
  }

  /** The next byte: Kept is again the longest match. */
  lemma {:induction false} NextByte(stream: seq<byte>, i: nat, j: nat)
    requires i < |stream| && j < 8 && LongestAt(stream, i, j)
    ensures LongestAt(stream, i + 1, Kept(j, stream[i]))
  {
    var data, next := stream[i], i + 1;
    if data == SIG[j] { OneMore(stream, i, j); } else if data == SIG[0] { OneByte(stream, i); }
    forall m | Kept(j, data) < m <= 8 ensures !EndsWith(stream, next, m) {
      if EndsWith(stream, next, m) {
        FallBack(stream, i, j, m);
        LastIs(stream, i, m);
      }
    }
  }

  /** Reads at most PROBE_LENGTH + 7 bytes and stops behind the first
      occurrence of the signature that ends among them. */
  method Search(stream: seq<byte>) returns (found: bool, consumed: nat)
    requires |stream| >= PROBE_LENGTH + 7
    ensures consumed <= PROBE_LENGTH + 7
    ensures found <==> exists i :: 0 <= i <= PROBE_LENGTH + 7 && EndsWith(stream, i, 8)
    ensures found ==> EndsWith(stream, consumed, 8) && forall i :: 0 <= i < consumed ==> !EndsWith(stream, i, 8)
    ensures !found ==> consumed == PROBE_LENGTH + 7
  {
    var i, j := 0, 0;
    while j < 8 && i < PROBE_LENGTH + 8 - 1
      decreases PROBE_LENGTH + 7 - i
      invariant i <= PROBE_LENGTH + 7 && LongestAt(stream, i, j)
      invariant forall n :: 0 <= n < i ==> !EndsWith(stream, n, 8)
    {
      var data := stream[i];
      NextByte(stream, i, j);
      if data == SIG[j] {
        j := j + 1;
      } else {
        j := if data == SIG[0] then 1 else 0;
      }
      i := i + 1;
    }
    found, consumed := j == 8, i;
  }
}
