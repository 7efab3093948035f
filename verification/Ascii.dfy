/** The kernel's conversion of an int to text. */
module Ascii {
  import opened Decimal
  import opened Options

  /** What is written: the numeral, except for the least number, of which only
      one character comes out, eight below the digit zero. */
  function Text(n: int): string {
    if n == INT_MIN then "-(" else Signed(n)
  }

  function Digit(v: int): char {
    LastShown(v);
    ('0' as int + Remainder(v)) as char
  }

  /** The digits taken off v as long as more than zero is left. */
  function Magnitude(v: int): string
    decreases if v < 0 then -v else v
  {
    (if Quotient(v) > 0 then Magnitude(Quotient(v)) else "") + [Digit(v)]
  }

  lemma {:induction false} MagnitudeIs(v: int)
    ensures v >= 0 ==> Magnitude(v) == Digits(v)
    ensures v == INT_MIN ==> Magnitude(v) == "("
    decreases if v < 0 then -v else v
  {
    if Quotient(v) > 0 { MagnitudeIs(Quotient(v)); }
    assert "" + [Digit(v)] == [Digit(v)];
  }

  lemma {:induction false} NextDigit(v: int, done: string)
    ensures var more := done + [Digit(v)];
      && (Quotient(v) > 0 ==>
            && Magnitude(v) + Reverse(done) == Magnitude(Quotient(v)) + Reverse(more)
            && |Magnitude(v)| == |Magnitude(Quotient(v))| + 1)
      && (Quotient(v) <= 0 ==> Magnitude(v) + Reverse(done) == Reverse(more) && |Magnitude(v)| == 1)
  {
    ReverseAppend(done, Digit(v));
    assert Quotient(v) <= 0 ==> Magnitude(v) == [Digit(v)];
    assert Magnitude(Quotient(v)) + [Digit(v)] + Reverse(done) == Magnitude(Quotient(v)) + ([Digit(v)] + Reverse(done));
  }

  /** Puts the digits of v at the start of str, lowest first. */
  method PutDigits(str: array<char>, v0: int) returns (i: nat)
    requires (v0 == INT_MIN || 0 <= v0 < 0x8000_0000) && str.Length > 10
    modifies str
    ensures i == |Magnitude(v0)| <= 10 && Reverse(str[..i]) == Magnitude(v0)
    ensures forall k :: i <= k < str.Length ==> str[k] == old(str[k])
  {
    MagnitudeIs(v0);
    if v0 >= 0 { DigitsBound(v0, 10); }
    var v := v0;
    i := 0;
    while true
      invariant i + |Magnitude(v)| == |Magnitude(v0)|
      invariant i < str.Length && Magnitude(v0) == Magnitude(v) + Reverse(str[..i])
      invariant forall k :: i <= k < str.Length ==> str[k] == old(str[k])
      decreases if v < 0 then -v else v
    {
      ghost var done := str[..i];
      NextDigit(v, done);
      str[i] := Digit(v);
      assert str[..i + 1] == done + [Digit(v)];
      i := i + 1;
      v := Quotient(v);
      if v <= 0 { break; }
    }
  }

  /** Reverses the first i characters. */
  method ReverseStart(str: array<char>, i: nat)
    requires i <= str.Length
    modifies str
    ensures str[..i] == Reverse(old(str[..i])) && str[i..] == old(str[i..])
  {
    for j := 0 to i / 2
      invariant forall k :: 0 <= k < j || i - j <= k < i ==> str[k] == old(str[i - 1 - k])
      invariant forall k :: j <= k < i - j || i <= k < str.Length ==> str[k] == old(str[k])
    {
      str[j], str[i - j - 1] := str[i - j - 1], str[j];
    }
    ReverseIs(old(str[..i]), str[..i]);
  }

  /** Puts the text of n at the start of str, backwards. */
  method PutBackwards(str: array<char>, n: int) returns (i: nat)
    requires IsInt(n) && str.Length >= 12
    modifies str
    ensures i == |Text(n)| <= 11 && Reverse(str[..i]) == Text(n)
    ensures forall k :: i <= k < str.Length ==> str[k] == old(str[k])
  {
    MagnitudeIs(if n < 0 then Negated(n) else n);
    i := PutDigits(str, if n < 0 then Negated(n) else n);
    if n < 0 {
      ghost var done := str[..i];
      ReverseAppend(done, '-');
      str[i] := '-';
      assert str[..i + 1] == done + ['-'];
      i := i + 1;
    }
  }

  /** Writes n at the start of str, ended by a NUL. */
  method IntToAscii(n: int, str: array<char>)
    requires IsInt(n) && str.Length >= 12
    modifies str
    ensures |Text(n)| <= 11 && str[..] == Text(n) + ("\0" + old(str[|Text(n)| + 1..]))
  {
    ghost var was := str[..];
    var i := PutBackwards(str, n);
    ghost var now := str[..];
    SameTail(now, was, i + 1);
    str[i] := '\0';
    Terminated(str[..], now, i);
    ReverseStart(str, i);
    assert str[..] == str[..i] + str[i..];
  }

  lemma SameTail(now: string, was: string, i: nat)
    requires |now| == |was| && i <= |was| && forall k :: i <= k < |was| ==> now[k] == was[k]
    ensures now[i..] == was[i..]
  {}

  lemma Terminated(s: string, now: string, i: nat)
    requires i < |now| && s == now[i := '\0']
    ensures s[..i] == now[..i] && s[i..] == "\0" + now[i + 1..]
  {}

  /** The text is that of the number, so that it can be read back, except for
      the least int. */
  lemma {:induction false} TextIsRight(n: int)
    requires IsInt(n)
    ensures SignedValue(Text(n)) == Some(n) <==> n != INT_MIN
  {
    if n != INT_MIN { SignedReadBack(n); }
    else { assert Text(n)[1..] == "(" && !IsDigit(Text(n)[1..][0]); }
  }
}
