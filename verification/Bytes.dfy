/** Bytes as the hardware and the network carry them. */
module Bytes {
  type byte = x: int | 0 <= x < 256

  /** Copies n bytes, lowest address first. */
  method CopyInto(dest: array<byte>, at: nat, src: seq<byte>, n: nat)
    requires n <= |src| && at + n <= dest.Length
    modifies dest
    ensures dest[..at] == old(dest[..at]) && dest[at..at + n] == src[..n]
    ensures dest[at + n..] == old(dest[at + n..])
  {
    for i := 0 to n
      invariant dest[..at] == old(dest[..at]) && dest[at..at + i] == src[..i]
      invariant dest[at + i..] == old(dest[at + i..])
    {
      dest[at + i] := src[i];
    }
  }

  /** Two neighbouring pieces are one. */
  lemma Joined<T>(s: seq<T>, i: nat, j: nat)
    requires i <= j <= |s|
    ensures s[..j] == s[0..i] + s[i..j]
  {}

  lemma SliceOfTake<T>(v: seq<T>, m: nat, i: nat, j: nat)
    requires i <= j <= m <= |v|
    ensures v[..m][i..j] == v[i..j]
  {}

  lemma ThreeParts<T>(s: seq<T>, i: nat, n: nat)
    requires i + n <= |s|
    ensures s == s[..i] + s[i..i + n] + s[i + n..]
  {}

  /** A stretch of was replaced by bytes of the same length. */
  lemma Replaced<T>(now: seq<T>, was: seq<T>, i: nat, bytes: seq<T>, end: nat)
    requires i + |bytes| <= end <= |was| && now == was[..i] + bytes + was[i + |bytes|..]
    ensures |now| == |was| && now[..i + |bytes|] == was[..i] + bytes && now[end..] == was[end..]
  {}

  /** The second half of was moved over the first. */
  lemma {:induction false} MovedDown<T>(now: seq<T>, was: seq<T>, h: nat, n: nat)
    requires |now| == |was| && h <= n <= 2 * h <= |was| && now[0..h] == was[h..][..h]
    ensures now[..n - h] == was[..n][h..]
  {
    assert now[..n - h] == now[0..h][..n - h];
  }
}
