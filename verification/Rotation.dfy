/** The block rotation that moves options in front of the arguments already
    skipped, and the number of element swaps it takes. */
module Rotation {

  ghost predicate Divides(d: nat, n: nat) {
    exists q: nat :: n == q * d
  }

  ghost predicate CommonDivisor(d: nat, a: nat, b: nat) {
    d > 0 && Divides(d, a) && Divides(d, b)
  }

  ghost predicate IsGcd(g: nat, a: nat, b: nat) {
    CommonDivisor(g, a, b) && forall d: nat :: CommonDivisor(d, a, b) ==> d <= g
  }

  ghost predicate SameDivisors(a: nat, b: nat, x: nat, y: nat) {
    forall d: nat :: CommonDivisor(d, a, b) <==> CommonDivisor(d, x, y)
  }

  lemma {:induction false} DividesSum(d: nat, m: nat, n: nat)
    requires d > 0 && Divides(d, n)
    ensures Divides(d, m) <==> Divides(d, m + n)
  {
    var q: nat :| n == q * d;
    if Divides(d, m) {
      var p: nat :| m == p * d;
      assert m + n == (p + q) * d;
    }
    if Divides(d, m + n) {
      var p: nat :| m + n == p * d;
      assert m == (p - q) * d;
      assert p - q >= 0;
    }
  }

  /** One step of subtractive Euclid keeps the common divisors. */
  lemma {:induction false} Subtract(x: nat, y: nat)
    ensures x >= y ==> SameDivisors(x, y, x - y, y)
    ensures y >= x ==> SameDivisors(x, y, x, y - x)
  {
    forall d: nat | d > 0
      ensures x >= y ==> (CommonDivisor(d, x, y) <==> CommonDivisor(d, x - y, y))
      ensures y >= x ==> (CommonDivisor(d, x, y) <==> CommonDivisor(d, x, y - x))
    {
      if x >= y && Divides(d, y) { DividesSum(d, x - y, y); }
      if y >= x && Divides(d, x) { DividesSum(d, y - x, x); }
    }
  }

  lemma AtLeastOnce(q: nat, d: nat)
    ensures q == 0 ==> q * d == 0
    ensures q >= 1 ==> q * d >= d
  {}

  lemma {:induction false} DivisorBound(d: nat, n: nat)
    requires n > 0 && Divides(d, n)
    ensures d <= n
  {
    var q: nat :| n == q * d;
    AtLeastOnce(q, d);
  }

  lemma {:induction false} EuclidEnds(a: nat, b: nat, x: nat, y: nat)
    requires SameDivisors(a, b, x, y) && (x == 0 || y == 0) && x + y > 0
    ensures IsGcd(x + y, a, b)
  {
    var n := x + y;
    assert 0 == 0 * n && n == 1 * n;
    assert CommonDivisor(n, x, y);
    forall d: nat | CommonDivisor(d, a, b) ensures d <= n {
      assert CommonDivisor(d, x, y);
      DivisorBound(d, n);
    }
  }

  /** s with the adjacent blocks [i..m) and [m..j) exchanged. */
  function Rotated<T>(s: seq<T>, i: nat, m: nat, j: nat): (r: seq<T>)
    requires i <= m <= j <= |s|
  {
    seq(|s|, k requires 0 <= k < |s| =>
      if i <= k < i + (j - m) then s[k - i + m] else if i + (j - m) <= k < j then s[k - (j - m)] else s[k])
  }

  lemma {:induction false} RotatedParts<T>(s: seq<T>, i: nat, m: nat, j: nat)
    requires i <= m <= j <= |s|
    ensures var r := Rotated(s, i, m, j);
      && r[..i] == s[..i] && r[i..i + (j - m)] == s[m..j]
      && r[i + (j - m)..j] == s[i..m] && r[j..] == s[j..]
  {
    var r := Rotated(s, i, m, j);
    var d := j - m;
    var a, a', b, b' := r[i..i + d], s[m..j], r[i + d..j], s[i..m];
    forall k | 0 <= k < d ensures a[k] == a'[k] { assert a[k] == r[i + k] == s[m + k]; }
    forall k | 0 <= k < m - i ensures b[k] == b'[k] { assert b[k] == r[i + d + k] == s[i + k]; }
    var c, c', e, e' := r[..i], s[..i], r[j..], s[j..];
    forall k | 0 <= k < i ensures c[k] == c'[k] { assert c[k] == r[k] == s[k]; }
    forall k | 0 <= k < |s| - j ensures e[k] == e'[k] { assert e[k] == r[j + k] == s[j + k]; }
  }

  lemma NothingToRotate<T>(s: seq<T>, i: nat, m: nat, j: nat)
    requires i <= m <= j <= |s| && (i == m || m == j)
    ensures Rotated(s, i, m, j) == s
  {}

  /** s with the n elements from i on and the n elements from j on exchanged. */
  function Swapped<T>(s: seq<T>, i: nat, j: nat, n: nat): (r: seq<T>)
    requires i + n <= j && j + n <= |s|
  {
    seq(|s|, k requires 0 <= k < |s| =>
      if i <= k < i + n then s[k - i + j] else if j <= k < j + n then s[k - j + i] else s[k])
  }

  /** A short bottom block swapped to the far end leaves the top block to be rotated. */
  lemma BottomShorter<T>(s: seq<T>, i: nat, m: nat, j: nat, j': nat, s': seq<T>, goal: seq<T>)
    requires i <= m <= j <= |s| && m - i <= j - m && j' == j - (m - i) && s' == Swapped(s, i, j', m - i)
    requires Rotated(s, i, m, j) == goal
    ensures Rotated(s', i, m, j') == goal
  {
  }

  /** A short top block swapped to the near end leaves the bottom block to be rotated. */
  lemma TopShorter<T>(s: seq<T>, i: nat, m: nat, j: nat, i': nat, s': seq<T>, goal: seq<T>)
    requires i <= m <= j <= |s| && j - m <= m - i && i' == i + (j - m) && s' == Swapped(s, i, m, j - m)
    requires Rotated(s, i, m, j) == goal
    ensures Rotated(s', i', m, j) == goal
  {
  }

  /** The inner loops: swaps two blocks element by element, and counts the swaps. */
  method SwapBlocks<T>(a: array<T>, i: nat, j: nat, n: nat) returns (swaps: nat)
    requires i + n <= j && j + n <= a.Length
    modifies a
    ensures a[..] == Swapped(old(a[..]), i, j, n) && swaps == n
  {
    swaps := 0;
    for m := 0 to n
      invariant swaps == m
      invariant forall k :: i <= k < i + m ==> a[k] == old(a[k - i + j])
      invariant forall k :: j <= k < j + m ==> a[k] == old(a[k - j + i])
      invariant forall k :: 0 <= k < a.Length && !(i <= k < i + m) && !(j <= k < j + m) ==> a[k] == old(a[k])
    {
      a[i + m], a[j + m] := a[j + m], a[i + m];
      swaps := swaps + 1;
    }
  }

  /** The bottom block is the short one: it goes to the far end, and the exchange
      goes on up to top'. */
  method PlaceBottom<T>(a: array<T>, bottom: nat, middle: nat, top: nat, top': nat, ghost goal: seq<T>) returns (swaps: nat)
    requires bottom < middle < top <= a.Length && top' == top - (middle - bottom) > middle
    requires Rotated(a[..], bottom, middle, top) == goal
    modifies a
    ensures swaps == middle - bottom && Rotated(a[..], bottom, middle, top') == goal
  {
    ghost var was := a[..];
    swaps := SwapBlocks(a, bottom, top', middle - bottom);
    BottomShorter(was, bottom, middle, top, top', a[..], goal);
  }

  /** The top block is the short one: it goes to the near end, and the exchange
      goes on from bottom' on. */
  method PlaceTop<T>(a: array<T>, bottom: nat, middle: nat, top: nat, bottom': nat, ghost goal: seq<T>) returns (swaps: nat)
    requires bottom < middle < top <= a.Length && bottom' == bottom + (top - middle) <= middle
    requires Rotated(a[..], bottom, middle, top) == goal
    modifies a
    ensures swaps == top - middle && Rotated(a[..], bottom', middle, top) == goal
  {
    ghost var was := a[..];
    swaps := SwapBlocks(a, bottom, middle, top - middle);
    TopShorter(was, bottom, middle, top, bottom', a[..], goal);
  }

  /** Exchanges the blocks [first..middle) and [middle..end) in place. Putting
      the shorter block into its final place leaves a smaller exchange inside
      the longer one; the swaps made are all but as many as the greatest common
      divisor of the two lengths. */
  method Rotate<T>(a: array<T>, first: nat, middle: nat, end: nat) returns (swaps: nat)
    requires first < middle < end <= a.Length
    modifies a
    ensures a[..] == Rotated(old(a[..]), first, middle, end)
    ensures swaps <= end - first && IsGcd(end - first - swaps, middle - first, end - middle)
  {
    var bottom, top := first, end;
    ghost var goal := Rotated(a[..], first, middle, end);
    swaps := 0;
    while top > middle && middle > bottom
      invariant first <= bottom <= middle <= top <= end && bottom < top
      invariant Rotated(a[..], bottom, middle, top) == goal
      invariant swaps + (top - bottom) == end - first
      invariant SameDivisors(middle - first, end - middle, middle - bottom, top - middle)
      decreases top - bottom
    {
      Subtract(middle - bottom, top - middle);
      if top - middle > middle - bottom {
        var made := PlaceBottom(a, bottom, middle, top, top - (middle - bottom), goal);
        swaps, top := swaps + made, top - (middle - bottom);
      } else {
        var made := PlaceTop(a, bottom, middle, top, bottom + (top - middle), goal);
        swaps, bottom := swaps + made, bottom + (top - middle);
      }
    }
    NothingToRotate(a[..], bottom, middle, top);
    EuclidEnds(middle - first, end - middle, middle - bottom, top - middle);
  }
}
