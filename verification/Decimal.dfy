/** Decimal numerals, as written by the formatters and read back by the parsers. */
module Decimal {
  import opened Options

  predicate IsDigit(c: char) {
    '0' <= c <= '9'
  }

  predicate AllDigits(s: string) {
    forall i :: 0 <= i < |s| ==> IsDigit(s[i])
  }

  function DigitOf(n: nat): char
    requires n < 10
  {
    '0' + n as char
  }

  function Digits(n: nat): (s: string)
    ensures s != [] && AllDigits(s)
  {
    if n < 10 then [DigitOf(n)] else Digits(n / 10) + [DigitOf(n % 10)]
  }

  function Value(s: string): nat
    requires AllDigits(s)
  {
    if s == [] then 0 else 10 * Value(s[..|s| - 1]) + (s[|s| - 1] as int - '0' as int)
  }

  lemma {:induction false} ValueOfDigits(n: nat)
    ensures Value(Digits(n)) == n
  {
    var s := Digits(n);
    if n >= 10 {
      ValueOfDigits(n / 10);
      assert s[..|s| - 1] == Digits(n / 10);
    } else {
      assert s[..|s| - 1] == [];
    }
  }

  /** The value counts tens, and the ten digits stand for the numbers below ten. */
  lemma {:induction false} TensAndOnes(s: string, c: char)
    requires AllDigits(s) && IsDigit(c)
    ensures AllDigits(s + [c]) && Value(s + [c]) == 10 * Value(s) + Value([c])
    ensures forall i :: 0 <= i < 10 ==> Value(["0123456789"[i]]) == i
  {
    var t := s + [c];
    assert t[..|t| - 1] == s && [c][..0] == "";
    forall i | 0 <= i < 10 ensures Value(["0123456789"[i]]) == i { assert ["0123456789"[i]][..0] == ""; }
  }

  /** Numerals have no leading zeros. */
  lemma {:induction false} NoLeadingZero(n: nat)
    ensures |Digits(n)| > 1 ==> Digits(n)[0] != '0'
    ensures n > 0 ==> Digits(n)[0] != '0'
  {
    if n >= 10 { NoLeadingZero(n / 10); }
  }

  /** A number below 10^k has at most k digits. */
  lemma {:induction false} DigitsBound(n: nat, k: nat)
    requires k >= 1 && n < Power10(k)
    ensures |Digits(n)| <= k
  {
    if n >= 10 { DigitsBound(n / 10, k - 1); }
  }

  function Power10(k: nat): nat {
    if k == 0 then 1 else 10 * Power10(k - 1)
  }

  /** Where the run of digits that starts at p ends. */
  function RunEnd(s: string, p: nat): (e: nat)
    requires p <= |s|
    ensures p <= e <= |s| && AllDigits(s[p..e]) && (e < |s| ==> !IsDigit(s[e]))
    decreases |s| - p
  {
    if p < |s| && IsDigit(s[p]) then
      var e := RunEnd(s, p + 1);
      assert s[p..e] == [s[p]] + s[p + 1..e];
      e
    else p
  }

  /** One more digit. */
  lemma {:induction false} RunGrows(s: string, p: nat, e: nat)
    requires p <= e < |s| && AllDigits(s[p..e]) && IsDigit(s[e])
    ensures AllDigits(s[p..e + 1]) && Value(s[p..e + 1]) == 10 * Value(s[p..e]) + (s[e] as int - '0' as int)
  {
    var t, was := s[p..e + 1], s[p..e];
    assert t == was + [s[e]] && t[..|t| - 1] == was;
  }

  /** Digits followed by something else are one run. */
  lemma {:induction false} RunOfDigits(s: string, p: nat, e: nat)
    requires p <= e <= |s| && AllDigits(s[p..e]) && (e < |s| ==> !IsDigit(s[e]))
    ensures RunEnd(s, p) == e
    decreases e - p
  {
    if p < e {
      assert s[p] == s[p..e][0] && s[p + 1..e] == s[p..e][1..];
      RunOfDigits(s, p + 1, e);
    }
  }

  /** A numeral in its context is read back exactly. */
  lemma {:induction false} ReadBack(before: string, n: nat, after: string)
    requires after == [] || !IsDigit(after[0])
    ensures var s, p := before + Digits(n) + after, |before|;
      RunEnd(s, p) == p + |Digits(n)| && s[p..p + |Digits(n)|] == Digits(n) && Value(Digits(n)) == n
  {
    var s, p, e := before + Digits(n) + after, |before|, |before| + |Digits(n)|;
    assert s[p..e] == Digits(n);
    ValueOfDigits(n);
    RunOfDigits(s, p, e);
  }

  /** A number with its sign, and its inverse. */
  function Signed(i: int): string {
    if i < 0 then "-" + Digits(-i) else Digits(i)
  }

  function SignedValue(s: string): Option<int> {
    if s != "" && s[0] == '-' then
      if s[1..] != "" && AllDigits(s[1..]) then Some(0 - Value(s[1..])) else None
    else if s != "" && AllDigits(s) then Some(Value(s))
    else None
  }

  /** No two numbers are written the same way. */
  lemma {:induction false} SignedReadBack(i: int)
    ensures SignedValue(Signed(i)) == Some(i)
  {
    ValueOfDigits(if i < 0 then -i else i);
    assert IsDigit(Digits(if i < 0 then -i else i)[0]);
    assert i < 0 ==> Signed(i)[1..] == Digits(-i);
  }

  // ----------------------------------------------------------------- ints of 32 bits

  const INT_MIN := -0x8000_0000

  predicate IsInt(n: int) {
    INT_MIN <= n < 0x8000_0000
  }

  /** What is left of a number in an int, in two's complement. */
  function ToInt(x: int): (n: int)
    ensures IsInt(n) && (IsInt(x) ==> n == x) && (x - n) % 0x1_0000_0000 == 0
  {
    var w := x % 0x1_0000_0000;
    if w >= 0x8000_0000 then w - 0x1_0000_0000 else w
  }

  lemma {:induction false} ToIntShift(x: int, k: int)
    ensures ToInt(x + 0x1_0000_0000 * k) == ToInt(x)
  {
    assert (x + 0x1_0000_0000 * k) % 0x1_0000_0000 == x % 0x1_0000_0000;
  }

  /** Losing high bits on the way makes no difference in the end. */
  lemma {:induction false} ToIntStep(x: int, d: int)
    ensures ToInt(10 * ToInt(x) + d) == ToInt(10 * x + d)
  {
    var k := x / 0x1_0000_0000;
    var r := x % 0x1_0000_0000;
    assert x == 0x1_0000_0000 * k + r;
    ToIntShift(10 * r + d, 10 * k);
    if r >= 0x8000_0000 { ToIntShift(10 * r + d, -10); }
  }

  /** Negation: the least int has no opposite. */
  function Negated(n: int): int {
    if n == INT_MIN then n else -n
  }

  /** Division and remainder by ten, towards zero. */
  function Quotient(v: int): int {
    if v < 0 then -(-v / 10) else v / 10
  }

  function Remainder(v: int): int {
    if v < 0 then -(-v % 10) else v % 10
  }

  /** The digits of a number as they come out when it is kept negative: each is
      as far below '0' as it should be above. */
  function Below(n: nat): string {
    if n < 10 then [('0' as int - n) as char] else Below(n / 10) + [('0' as int - n % 10) as char]
  }

  /** The least int, as it comes out with its sign lost. */
  lemma {:induction false} BelowLeast()
    ensures Below(0x8000_0000) == "./,),(-*,("
  {
    assert Below(2) == "." && Below(21) == "./" && Below(214) == "./," && Below(2147) == "./,)";
    assert Below(21474) == "./,)," && Below(214748) == "./,),(" && Below(2147483) == "./,),(-";
    assert Below(21474836) == "./,),(-*" && Below(214748364) == "./,),(-*,";
  }

  lemma {:induction false} BelowLength(n: nat)
    ensures |Below(n)| == |Digits(n)|
  {
    if n >= 10 { BelowLength(n / 10); }
  }

  /** A number at p and the place behind it, as getdec reads it. */
  function ReadDec(s: string, p: nat): (r: (int, nat))
    requires p <= |s|
    ensures p <= r.1 <= |s|
  {
    var e := RunEnd(s, p);
    (if e == p then -1 else ToInt(Value(s[p..e])), e)
  }

  /** A number is read right if and only if it is an int. */
  lemma {:induction false} ReadDecIff(s: string, p: nat)
    requires p < |s| && IsDigit(s[p])
    ensures var (n, e) := ReadDec(s, p); p < e && (n == Value(s[p..e]) <==> Value(s[p..e]) < 0x8000_0000)
  {}

  // ----------------------------------------------------- digits produced backwards

  /** The digits of a number that may be negative. */
  function Shown(i: int): string {
    if i >= 0 then Digits(i) else Below(-i)
  }

  /** Moving the last digit of i to the reversed part. */
  lemma {:induction false} OneDigit(i: int, done: string)
    ensures '0' as int + Remainder(i) >= 0
    ensures var more := done + [('0' as int + Remainder(i)) as char];
      if Quotient(i) != 0 then Shown(i) + Reverse(done) == Shown(Quotient(i)) + Reverse(more)
        && |Shown(i)| == |Shown(Quotient(i))| + 1
      else Shown(i) + Reverse(done) == Reverse(more) && |Shown(i)| == 1
  {
    var c := ('0' as int + Remainder(i)) as char;
    ReverseAppend(done, c);
    assert Shown(i) == if Quotient(i) != 0 then Shown(Quotient(i)) + [c] else [c] by { LastShown(i); }
    assert Shown(Quotient(i)) + [c] + Reverse(done) == Shown(Quotient(i)) + ([c] + Reverse(done));
  }

  lemma {:induction false} LastShown(i: int)
    ensures '0' as int + Remainder(i) >= 0
    ensures Shown(i) == (if Quotient(i) != 0 then Shown(Quotient(i)) else "") + [('0' as int + Remainder(i)) as char]
  {}

  function Reverse(s: string): (r: string)
    ensures |r| == |s|
  {
    if s == "" then "" else Reverse(s[1..]) + [s[0]]
  }

  lemma {:induction false} ReverseAt(s: string, k: nat)
    requires k < |s|
    ensures Reverse(s)[k] == s[|s| - 1 - k]
  {
    if k < |s| - 1 { ReverseAt(s[1..], k); }
  }

  lemma {:induction false} ReverseIs(was: string, now: string)
    requires |now| == |was| && forall k :: 0 <= k < |was| ==> now[k] == was[|was| - 1 - k]
    ensures now == Reverse(was)
  {
    forall k | 0 <= k < |was| ensures now[k] == Reverse(was)[k] { ReverseAt(was, k); }
  }

  lemma {:induction false} ReverseAppend(s: string, c: char)
    ensures Reverse(s + [c]) == [c] + Reverse(s)
  {
    if s == "" {
      assert s + [c] == [c];
    } else {
      ReverseAppend(s[1..], c);
      assert (s + [c])[1..] == s[1..] + [c];
    }
  }
}
