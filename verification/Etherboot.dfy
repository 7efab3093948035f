/** The formatter of the etherboot code, with its scratch area of 20 bytes, and
    the parsers that read its numbers and addresses back. */
module Etherboot {
  import opened Bytes
  import opened Decimal
  import opened Options

  /** What the words after the format stand for. */
  datatype Arg = Int(i: int) | Chr(c: char) | Str(s: string) | Ip(addr: seq<byte>) | Ether(mac: seq<byte>)

  predicate Sound(a: Arg) {
    match a
    case Int(i) => IsInt(i)
    case Ip(addr) => |addr| == 4
    case Ether(mac) => |mac| == 6
    case _ => true
  }

  // -------------------------------------------------------------- what is to be printed

  /** The text of an int. The least one has no opposite, and comes out with
      characters below the digit zero. */
  function IntText(i: int): string {
    if i == INT_MIN then "-" + Below(0x8000_0000) else Signed(i)
  }

  /** The text can be read back if and only if it is not that of the least int. */
  lemma {:induction false} IntTextIff(i: int)
    ensures SignedValue(IntText(i)) == Some(i) <==> i != INT_MIN
  {
    if i != INT_MIN {
      SignedReadBack(i);
    } else {
      BelowEnds(0x8000_0000);
      var s := IntText(i);
      assert s[1..] == Below(0x8000_0000) && !AllDigits(s[1..]);
    }
  }

  lemma {:induction false} BelowEnds(n: nat)
    ensures Below(n) != [] && (n % 10 != 0 ==> !AllDigits(Below(n)))
  {
    var s := Below(n);
    assert s[|s| - 1] == ('0' as int - n % 10) as char;
  }

  function HexDigit(n: nat, upper: bool): char
    requires n < 16
  {
    if n < 10 then '0' + n as char else (if upper then 'A' else 'a') + (n - 10) as char
  }

  /** h >> (4 * j), with the sign kept. */
  function Shifted(h: int, j: nat): int {
    if j == 0 then h else Shifted(h, j - 1) / 16
  }

  /** The k hexadecimal digits of h from its j-th one up, in two's complement. */
  function Hex(h: int, j: nat, k: nat, upper: bool): (s: string)
    ensures |s| == k
    decreases k
  {
    if k == 0 then "" else Hex(h, j + 1, k - 1, upper) + [HexDigit(Shifted(h, j) % 16, upper)]
  }

  function HexDigitValue(c: char): nat {
    if c <= '9' then (if c < '0' then 0 else c as int - '0' as int)
    else if 'a' <= c then c as int - 'a' as int + 10
    else if 'A' <= c then c as int - 'A' as int + 10 else 0
  }

  function HexValue(s: string): nat {
    if s == "" then 0 else 16 * HexValue(s[..|s| - 1]) + HexDigitValue(s[|s| - 1])
  }

  function Power16(k: nat): (p: nat)
    ensures p > 0
  {
    if k == 0 then 1 else 16 * Power16(k - 1)
  }

  lemma {:induction false} AwayFromZero(z: int, d: nat)
    ensures (z >= 1 ==> z * d >= d) && (z <= -1 ==> z * d <= 0 - d)
  {}

  lemma {:induction false} RemainderIs(x: int, q: int, d: nat, r: nat)
    requires x == q * d + r && r < d
    ensures x % d == r
  {
    var z := q - x / d;
    assert x == x / d * d + x % d;
    assert z * d == q * d - x / d * d;
    AwayFromZero(z, d);
  }

  /** The lowest digit of a number, and the others. */
  lemma {:induction false} SplitDigit(x: int, p: nat)
    requires p > 0
    ensures 16 * ((x / 16) % p) + x % 16 == x % (16 * p)
  {
    var y, m := x / 16, x % 16;
    var q, r := y / p, y % p;
    assert y == q * p + r;
    assert x == 16 * y + m;
    assert 16 * (q * p) == q * (16 * p);
    RemainderIs(x, q, 16 * p, 16 * r + m);
  }

  lemma {:induction false} HexGrows(s: string, c: char)
    ensures HexValue(s + [c]) == 16 * HexValue(s) + HexDigitValue(c)
  {
    var t := s + [c];
    assert t[..|t| - 1] == s;
  }

  /** The digits are those of the number, in two's complement. */
  lemma {:induction false} HexIs(h: int, j: nat, k: nat, upper: bool)
    ensures HexValue(Hex(h, j, k, upper)) == Shifted(h, j) % Power16(k)
    decreases k
  {
    if k > 0 {
      var d := Shifted(h, j) % 16;
      HexIs(h, j + 1, k - 1, upper);
      HexGrows(Hex(h, j + 1, k - 1, upper), HexDigit(d, upper));
      assert HexDigitValue(HexDigit(d, upper)) == d;
      SplitDigit(Shifted(h, j), Power16(k - 1));
    }
  }

  /** Every number of an address with a dot behind it. */
  function Dots(addr: seq<byte>): (s: string)
    ensures addr != [] ==> s != ""
  {
    if addr == [] then "" else Dots(addr[..|addr| - 1]) + Digits(addr[|addr| - 1]) + "."
  }

  function Colons(mac: seq<byte>): (s: string)
    ensures |s| == 3 * |mac|
  {
    if mac == [] then "" else Colons(mac[..|mac| - 1]) + Hex(mac[|mac| - 1], 0, 2, true) + ":"
  }

  function ButLast(s: string): string {
    if s == "" then s else s[..|s| - 1]
  }

  /** A conversion: its flags, its letter, and the format behind it. */
  datatype Conversion = Conversion(alt: bool, digits: nat, letter: char, rest: string)

  /** Reads the flags and the letter behind a '%'; a format that ends there is
      not one the formatter can handle. */
  function ReadConversion(f: string): (c: Option<Conversion>)
    ensures c.Some? ==> |c.value.rest| < |f| && c.value.rest == f[|f| - |c.value.rest|..]
    ensures c.Some? ==> c.value.letter == f[|f| - |c.value.rest| - 1] && c.value.digits in {8, 4, 2}
  {
    var f1 := if f != "" && f[0] == '#' then f[1..] else f;
    var f2 := if f1 != "" && f1[0] == 'h' then f1[1..] else f1;
    var f3 := if f2 != "" && f2[0] == 'h' then f2[1..] else f2;
    if f3 == "" then None
    else Some(Conversion(f1 != f, if f3 != f2 then 2 else if f2 != f1 then 4 else 8, f3[0], f3[1..]))
  }

  function TakesArg(letter: char): bool {
    letter in {'x', 'X', 'd', '@', '!', 'c'}
  }

  predicate Fits(letter: char, a: Arg) {
    && Sound(a)
    && (letter == 'x' || letter == 'X' || letter == 'd' ==> a.Int?)
    && (letter == 'c' ==> a.Chr?) && (letter == '@' ==> a.Ip?) && (letter == '!' ==> a.Ether?)
  }

  /** The text of one conversion other than %s. */
  function Item(c: Conversion, a: Arg): string
    requires TakesArg(c.letter) ==> Fits(c.letter, a)
  {
    match c.letter
    case 'x' => (if c.alt then "0x" else "") + Hex(a.i, 0, c.digits, false)
    case 'X' => (if c.alt then "0X" else "") + Hex(a.i, 0, c.digits, true)
    case 'd' => IntText(a.i)
    case '@' => ButLast(Dots(a.addr))
    case '!' => ButLast(Colons(a.mac))
    case 'c' => [a.c]
    case _ => [c.letter]
  }

  /** The first piece of text of a format, and what is left of the format and
      of the arguments; None if the format ends inside a conversion or the
      argument is not of the kind asked for. */
  function Piece(f: string, args: seq<Arg>): (r: Option<(string, string, seq<Arg>)>)
    requires f != ""
    ensures r.Some? ==> |r.value.1| < |f|
  {
    if f[0] != '%' then Some(([f[0]], f[1..], args))
    else if |f| >= 2 && f[1] == 's' then
      if args == [] || !args[0].Str? then None else Some((args[0].s, f[2..], args[1..]))
    else match ReadConversion(f[1..])
      case None => None
      case Some(c) =>
        if !TakesArg(c.letter) then Some((Item(c, Int(0)), c.rest, args))
        else if args == [] || !Fits(c.letter, args[0]) then None
        else Some((Item(c, args[0]), c.rest, args[1..]))
  }

  /** The text of a format with its arguments. */
  function Render(fmt: string, args: seq<Arg>): Option<string>
    decreases |fmt|
  {
    if fmt == "" then Some("")
    else match Piece(fmt, args)
      case None => None
      case Some((text, f, a)) =>
        var r := Render(f, a);
        if r.None? then None else Some(text + r.value)
  }

  /** No conversion of the format is cut off by its end. */
  predicate Complete(f: string)
    decreases |f|
  {
    f == "" ||
    if f[0] != '%' then Complete(f[1..])
    else if |f| >= 2 && f[1] == 's' then Complete(f[2..])
    else var c := ReadConversion(f[1..]); c.Some? && Complete(c.value.rest)
  }

  /** The letters of the conversions that take an argument. */
  function Wanted(f: string): string
    decreases |f|
  {
    if f == "" then ""
    else if f[0] != '%' then Wanted(f[1..])
    else if |f| >= 2 && f[1] == 's' then "s" + Wanted(f[2..])
    else match ReadConversion(f[1..])
      case None => ""
      case Some(c) => (if TakesArg(c.letter) then [c.letter] else "") + Wanted(c.rest)
  }

  predicate Suits(letter: char, a: Arg) {
    if letter == 's' then a.Str? else Fits(letter, a)
  }

  /** There is an argument of the right kind for each of them. */
  predicate AllSuit(letters: string, args: seq<Arg>) {
    |letters| <= |args| && forall i :: 0 <= i < |letters| ==> Suits(letters[i], args[i])
  }

  lemma {:induction false} OneSuits(letter: char, letters: string, args: seq<Arg>)
    ensures AllSuit([letter] + letters, args) <==> args != [] && Suits(letter, args[0]) && AllSuit(letters, args[1..])
  {
    var all := [letter] + letters;
    if AllSuit(all, args) {
      assert Suits(all[0], args[0]);
      forall i | 0 <= i < |letters| ensures Suits(letters[i], args[1..][i]) { assert Suits(all[i + 1], args[i + 1]); }
    }
    if args != [] && Suits(letter, args[0]) && AllSuit(letters, args[1..]) {
      forall i | 0 <= i < |all| ensures Suits(all[i], args[i]) {
        if i > 0 { assert Suits(letters[i - 1], args[1..][i - 1]); }
      }
    }
  }

  /** What a format prints is defined if and only if no conversion is cut off and
      the arguments suit. */
  lemma {:induction false} RenderIff(f: string, args: seq<Arg>)
    ensures Render(f, args).Some? <==> Complete(f) && AllSuit(Wanted(f), args)
    decreases |f|
  {
    if f == "" {
    } else if f[0] != '%' {
      RenderIff(f[1..], args);
    } else if |f| >= 2 && f[1] == 's' {
      OneSuits('s', Wanted(f[2..]), args);
      if args != [] { RenderIff(f[2..], args[1..]); }
    } else if ReadConversion(f[1..]).Some? {
      var c := ReadConversion(f[1..]).value;
      if TakesArg(c.letter) {
        OneSuits(c.letter, Wanted(c.rest), args);
        if args != [] { RenderIff(c.rest, args[1..]); }
      } else {
        assert "" + Wanted(c.rest) == Wanted(c.rest);
        RenderIff(c.rest, args);
      }
    }
  }

  /** A format that is cut off: the code reads past its end. */
  lemma {:induction false} CutOff(args: seq<Arg>)
    ensures !Complete("%") && !Complete("%#hh") && Render("%", args).None?
  {
    assert "%"[1..] == "" && "%#hh"[1..] == "#hh" && "#hh"[1..] == "hh" && "hh"[1..] == "h" && "h"[1..] == "";
    RenderIff("%", args);
  }

  // ------------------------------------------------------------------- the formatter

  /** Writes i in decimal at tmp[q..]. */
  method FormatDecimal(tmp: array<char>, q0: nat, i0: int) returns (q: nat)
    requires IsInt(i0) && q0 + 11 <= tmp.Length
    modifies tmp
    ensures q == q0 + |IntText(i0)| <= q0 + 11
    ensures tmp[..q] == old(tmp[..q0]) + IntText(i0)
  {
    q := q0;
    if i0 < 0 {
      tmp[q] := '-';
      q := q + 1;
      assert tmp[..q] == old(tmp[..q0]) + "-";
    }
    ghost var before := tmp[..q];
    var i := if i0 < 0 then Negated(i0) else i0;
    q := FormatDigits(tmp, q, i);
    assert before + Shown(i) == old(tmp[..q0]) + IntText(i0);
  }

  /** The digits come out backwards and are turned around in place. */
  method FormatDigits(tmp: array<char>, p: nat, n: int) returns (q: nat)
    requires (n == INT_MIN || 0 <= n < 0x8000_0000) && p + 10 <= tmp.Length
    modifies tmp
    ensures q == p + |Shown(n)| <= p + 10
    ensures tmp[..q] == old(tmp[..p]) + Shown(n)
  {
    q := PutBackwards(tmp, p, n);
    ReverseInPlace(tmp, p, q);
    TakeTwo(tmp[..], p, q);
  }

  lemma {:induction false} TakeTwo(s: string, p: nat, q: nat)
    requires p <= q <= |s|
    ensures s[..q] == s[..p] + s[p..q]
  {}

  lemma {:induction false} OneMoreAt(s: string, p: nat, q: nat, c: char, s': string)
    requires p <= q < |s| && s' == s[q := c]
    ensures s'[p..q + 1] == s[p..q] + [c] && s'[..p] == s[..p]
  {}

  lemma {:induction false} ShownBound(n: int)
    requires IsInt(n)
    ensures |Shown(n)| <= 10
  {
    if n < 0 { BelowLength(-n); }
    DigitsBound(if n < 0 then -n else n, 10);
  }

  /** Puts the digits at tmp[p..], the lowest first. */
  method PutBackwards(tmp: array<char>, p: nat, n: int) returns (q: nat)
    requires IsInt(n) && p + 10 <= tmp.Length
    modifies tmp
    ensures p < q == p + |Shown(n)| <= p + 10
    ensures tmp[..p] == old(tmp[..p]) && Reverse(tmp[p..q]) == Shown(n)
  {
    ShownBound(n);
    var i := n;
    q := p;
    while true
      invariant p <= q && q - p + |Shown(i)| == |Shown(n)|
      invariant tmp[..p] == old(tmp[..p]) && Shown(n) == Shown(i) + Reverse(tmp[p..q])
      decreases if i < 0 then -i else i
    {
      ghost var was := tmp[..];
      OneDigit(i, tmp[p..q]);
      tmp[q] := ('0' as int + Remainder(i)) as char;
      OneMoreAt(was, p, q, tmp[q], tmp[..]);
      q := q + 1;
      i := Quotient(i);
      if i == 0 { break; }
    }
  }

  /** Reverses tmp[p..q]. */
  method ReverseInPlace(tmp: array<char>, p0: nat, q: nat)
    requires p0 < q <= tmp.Length
    modifies tmp
    ensures tmp[..p0] == old(tmp[..p0]) && tmp[p0..q] == Reverse(old(tmp[p0..q]))
  {
    ghost var was := tmp[..];
    var p, r := p0, q - 1;
    while r > p
      invariant p0 <= p <= r + 1 <= q && p - p0 == q - 1 - r
      invariant Turned(was, tmp[..], p0, q, p, r)
    {
      ghost var before := tmp[..];
      tmp[r], tmp[p] := tmp[p], tmp[r];
      OneMoreTurned(was, before, p0, q, p, r, tmp[..]);
      p, r := p + 1, r - 1;
    }
    AllTurned(was, tmp[..], p0, q, p, r);
  }

  /** now is was with its part [p0..q) turned around, as far as p and r have come
      from both ends. */
  ghost predicate Turned(was: string, now: string, p0: nat, q: nat, p: nat, r: int)
    requires p0 <= p <= r + 1 <= q <= |was| == |now|
  {
    && (forall k :: 0 <= k < p0 || p <= k <= r ==> now[k] == was[k])
    && (forall k :: p0 <= k < p || r < k < q ==> now[k] == was[Opposite(p0, q, k)])
  }

  function Opposite(p0: nat, q: nat, k: int): int {
    p0 + q - 1 - k
  }

  lemma {:induction false} OneMoreTurned(was: string, before: string, p0: nat, q: nat, p: nat, r: nat, now: string)
    requires p0 <= p < r < q <= |was| == |before| && p - p0 == q - 1 - r && Turned(was, before, p0, q, p, r)
    requires now == before[p := before[r]][r := before[p]]
    ensures Turned(was, now, p0, q, p + 1, r - 1)
  {
    assert Opposite(p0, q, p) == r && Opposite(p0, q, r) == p;
  }

  lemma {:induction false} AllTurned(was: string, now: string, p0: nat, q: nat, p: nat, r: int)
    requires p0 <= p <= r + 1 <= q <= |was| == |now| && p - p0 == q - 1 - r && r <= p && Turned(was, now, p0, q, p, r)
    ensures now[..p0] == was[..p0] && now[p0..q] == Reverse(was[p0..q])
  {
    var part, turned := was[p0..q], now[p0..q];
    forall k | 0 <= k < |part| ensures turned[k] == part[|part| - 1 - k] {
      assert Opposite(p0, q, p0 + k) == q - 1 - k;
      assert turned[k] == now[p0 + k] == was[q - 1 - k];
    }
    ReverseIs(part, turned);
  }

  /** Writes the lowest k hexadecimal digits of h at tmp[q..], highest first. */
  method FormatHex(tmp: array<char>, q0: nat, h: int, k: nat, upper: bool) returns (q: nat)
    requires q0 + k <= tmp.Length
    modifies tmp
    ensures q == q0 + k && tmp[..q] == old(tmp[..q0]) + Hex(h, 0, k, upper)
  {
    q := q0;
    var j := k;
    while j > 0
      invariant 0 <= j <= k && q == q0 + (k - j)
      invariant tmp[..q] == old(tmp[..q0]) + Hex(h, j, k - j, upper)
    {
      j := j - 1;
      ghost var was := tmp[..q];
      tmp[q] := HexDigit(Shifted(h, j) % 16, upper);
      q := q + 1;
      assert tmp[..q] == was + [HexDigit(Shifted(h, j) % 16, upper)];
    }
  }

  /** The nested call that writes s, a separator and a NUL behind them. */
  method Nested(tmp: array<char>, q: nat, s: string, sep: char) returns (q': nat)
    requires q + |s| + 2 <= tmp.Length
    modifies tmp
    ensures q' == q + |s| + 1 && tmp[..q'] == old(tmp[..q]) + s + [sep]
  {
    for i := 0 to |s|
      invariant tmp[..q + i] == old(tmp[..q]) + s[..i]
    {
      ghost var was := tmp[..q + i];
      tmp[q + i] := s[i];
      assert tmp[..q + i + 1] == was + [s[i]];
    }
    ghost var was := tmp[..q + |s|];
    tmp[q + |s|] := sep;
    tmp[q + |s| + 1] := '\0';
    q' := q + |s| + 1;
    assert tmp[..q'] == was + [sep];
  }

  /** Writes an Internet address: four numbers of at most three digits. */
  method FormatIp(tmp: array<char>, addr: seq<byte>) returns (q: nat)
    requires |addr| == 4 && tmp.Length == 20
    modifies tmp
    ensures q <= 15 && tmp[..q] == ButLast(Dots(addr))
  {
    q := 0;
    for r := 0 to 4
      invariant q <= 4 * r && (r > 0 ==> q > 0) && tmp[..q] == Dots(addr[..r])
    {
      var inner := new char[20];
      var l := FormatDigits(inner, 0, addr[r]);
      DigitsBound(addr[r], 3);
      assert inner[..l] == Digits(addr[r]);
      q := Nested(tmp, q, inner[..l], '.');
      assert addr[..r + 1][..r] == addr[..r];
    }
    assert addr[..4] == addr;
    q := q - 1;
  }

  /** Writes an Ethernet address: six times two digits. */
  method FormatEther(tmp: array<char>, mac: seq<byte>) returns (q: nat)
    requires |mac| == 6 && tmp.Length == 20
    modifies tmp
    ensures q <= 17 && tmp[..q] == ButLast(Colons(mac))
  {
    q := 0;
    for r := 0 to 6
      invariant q == 3 * r && tmp[..q] == Colons(mac[..r])
    {
      var inner := new char[20];
      var l := FormatHex(inner, 0, mac[r], 2, true);
      assert inner[..l] == Hex(mac[r], 0, 2, true);
      q := Nested(tmp, q, inner[..l], ':');
      assert mac[..r + 1][..r] == mac[..r];
    }
    assert mac[..6] == mac;
    q := q - 1;
  }

  /** Writes one item into the scratch area, which is large enough for each. */
  method FormatItem(c: Conversion, a: Arg) returns (item: string)
    requires c.digits in {8, 4, 2} && (TakesArg(c.letter) ==> Fits(c.letter, a))
    ensures item == Item(c, a) && |item| <= 17
  {
    var tmp := new char[20];
    var q := 0;
    if c.letter == 'x' || c.letter == 'X' {
      if c.alt {
        tmp[0], tmp[1] := '0', c.letter;
        q := 2;
      }
      assert tmp[..q] == if c.alt then ['0', c.letter] else [];
      q := FormatHex(tmp, q, a.i, c.digits, c.letter == 'X');
    } else if c.letter == 'd' {
      q := FormatDecimal(tmp, 0, a.i);
    } else if c.letter == '@' {
      q := FormatIp(tmp, a.addr);
    } else if c.letter == '!' {
      q := FormatEther(tmp, a.mac);
    } else {
      tmp[0] := if c.letter == 'c' then a.c else c.letter;
      q := 1;
    }
    item := tmp[..q];
  }

  /** Formats the first piece of a format. */
  method NextPiece(f: string, args: seq<Arg>) returns (text: string, f': string, args': seq<Arg>)
    requires f != "" && Piece(f, args).Some?
    ensures Piece(f, args) == Some((text, f', args'))
  {
    if f[0] != '%' { return [f[0]], f[1..], args; }
    if f[1] == 's' { return args[0].s, f[2..], args[1..]; }
    var c := ReadConversion(f[1..]).value;
    text := FormatItem(c, if TakesArg(c.letter) then args[0] else Int(0));
    f', args' := c.rest, if TakesArg(c.letter) then args[1..] else args;
  }

  /** The formatter: reads the format from left to right and takes an argument
      for each conversion that needs one. */
  method Vsprintf(fmt: string, args: seq<Arg>) returns (out: string)
    requires Render(fmt, args).Some?
    ensures out == Render(fmt, args).value
  {
    out := "";
    var f, a := fmt, args;
    while f != ""
      invariant Render(f, a).Some? && Render(fmt, args).value == out + Render(f, a).value
      decreases |f|
    {
      var text;
      text, f, a := NextPiece(f, a);
      out := out + text;
    }
  }

  // -------------------------------------------------------------------- the parsers

  /** Reads a run of digits at p; -1 if there is none. The number wraps around
      where it does not fit an int. */
  method GetDec(s: string, p: nat) returns (ret: int, p': nat)
    requires p <= |s|
    ensures (ret, p') == ReadDec(s, p)
  {
    if p == |s| || s[p] < '0' || s[p] > '9' { return -1, p; }
    ret, p' := 0, p;
    while p' < |s| && s[p'] >= '0' && s[p'] <= '9'
      invariant p <= p' <= |s| && AllDigits(s[p..p']) && ret == ToInt(Value(s[p..p']))
    {
      RunGrows(s, p, p');
      ToIntStep(Value(s[p..p']), s[p'] as int - '0' as int);
      ret := ToInt(ret * 10 + (s[p'] as int - '0' as int));
      p' := p' + 1;
    }
    RunOfDigits(s, p, p');
  }

  /** A number below 256 at p, with a dot behind it if there are more, and the
      place behind. */
  function NumberAt(s: string, p: nat, more: bool): (r: Option<(byte, nat)>)
    requires p <= |s|
    ensures r.Some? ==> r.value.1 <= |s|
  {
    var (n, e) := ReadDec(s, p);
    if n < 0 || n > 255 || (more && (e == |s| || s[e] != '.')) then None
    else Some((n, if more then e + 1 else e))
  }

  /** k numbers with dots between them. */
  function ReadIp(s: string, p: nat, k: nat): Option<seq<byte>>
    requires p <= |s|
    decreases k
  {
    if k == 0 then Some([]) else
      match NumberAt(s, p, k > 1)
      case None => None
      case Some((v, q)) =>
        var r := ReadIp(s, q, k - 1);
        if r.None? then None else Some([v] + r.value)
  }

  method ReadNumber(s: string, p: nat, more: bool) returns (ok: bool, val: byte, p': nat)
    requires p <= |s|
    ensures ok <==> NumberAt(s, p, more).Some?
    ensures ok ==> NumberAt(s, p, more) == Some((val, p'))
  {
    var v, e := GetDec(s, p);
    if v < 0 || v > 255 { return false, 0, p; }
    if more && (e == |s| || s[e] != '.') { return false, 0, p; }
    return true, v, if more then e + 1 else e;
  }

  function Prefixed(read: seq<byte>, r: Option<seq<byte>>): Option<seq<byte>> {
    if r.None? then None else Some(read + r.value)
  }

  lemma {:induction false} OneMoreNumber(read: seq<byte>, s: string, p: nat, k: nat)
    requires p <= |s| && k > 0
    ensures Prefixed(read, ReadIp(s, p, k)) == match NumberAt(s, p, k > 1)
      case None => None
      case Some((v, q)) => Prefixed(read + [v], ReadIp(s, q, k - 1))
  {
    var n := NumberAt(s, p, k > 1);
    if n.Some? && ReadIp(s, n.value.1, k - 1).Some? {
      assert read + ([n.value.0] + ReadIp(s, n.value.1, k - 1).value) == read + [n.value.0] + ReadIp(s, n.value.1, k - 1).value;
    }
  }

  /** Reads an address; the number it is gathered in has 32 bits and is stored
      with its highest byte first. */
  method InetAton(s: string) returns (ok: bool, addr: seq<byte>)
    ensures ok == ReadIp(s, 0, 4).Some? && (ok ==> addr == ReadIp(s, 0, 4).value)
  {
    var ip, p: nat := 0, 0;
    ghost var read: seq<byte> := [];
    ghost var all := ReadIp(s, 0, 4);
    assert Prefixed([], all) == all by { if all.Some? { assert [] + all.value == all.value; } }
    for i := 0 to 4
      invariant p <= |s| && |read| == i && ip == BigEndian(read)
      invariant all == Prefixed(read, ReadIp(s, p, 4 - i))
    {
      OneMoreNumber(read, s, p, 4 - i);
      var val;
      ok, val, p := ReadNumber(s, p, i != 3);
      if !ok { return false, []; }
      assert (read + [val])[..|read|] == read;
      read := read + [val];
      ip := ip * 256 + val as int;
    }
    assert read + [] == read;
    BytesOf(read);
    ok, addr := true, [ip / 0x100_0000 % 256, ip / 0x1_0000 % 256, ip / 256 % 256, ip % 256];
  }

  function BigEndian(b: seq<byte>): nat {
    if b == [] then 0 else 256 * BigEndian(b[..|b| - 1]) + (b[|b| - 1] as int)
  }

  lemma {:induction false} FourBytes(w: byte, x: byte, y: byte, z: byte)
    ensures var ip := 0x100_0000 * (w as int) + 0x1_0000 * (x as int) + 256 * (y as int) + (z as int);
      ip / 0x100_0000 == w && ip / 0x1_0000 % 256 == x && ip / 256 % 256 == y && ip % 256 == z
  {
    var a: int := 256 * (w as int) + (x as int);
    var c: int := 256 * a + (y as int);
    var ip: int := 256 * c + (z as int);
    assert ip / 256 == c && ip % 256 == z;
    assert c / 256 == a && c % 256 == y && a / 256 == w && a % 256 == x;
    assert ip / 0x1_0000 == a && ip / 0x100_0000 == w;
  }

  lemma {:induction false} BytesOf(b: seq<byte>)
    requires |b| == 4
    ensures var ip := BigEndian(b); b == [ip / 0x100_0000 % 256, ip / 0x1_0000 % 256, ip / 256 % 256, ip % 256]
  {
    var b3, b2, b1 := b[..3], b[..2], b[..1];
    assert b3[..2] == b2 && b2[..1] == b1 && b1[..0] == [];
    var w, x, y, z: int := b[0] as int, b[1] as int, b[2] as int, b[3] as int;
    assert BigEndian(b1) == w && BigEndian(b2) == 256 * w + x && BigEndian(b3) == 0x1_0000 * w + 256 * x + y;
    assert BigEndian(b) == 0x100_0000 * w + 0x1_0000 * x + 256 * y + z;
    FourBytes(w, x, y, z);
  }

  // ------------------------------------------------------------------- round trips

  /** A format of one conversion prints its item. */
  lemma {:induction false} RenderOne(letter: char, a: Arg)
    requires letter in {'d', '@', '!'} && Fits(letter, a)
    ensures Render(['%', letter], [a]) == Some(Item(Conversion(false, 8, letter, ""), a))
  {
    var f, c := ['%', letter], Conversion(false, 8, letter, "");
    assert f[1..] == [letter] && [letter][1..] == "";
    assert ReadConversion([letter]) == Some(c);
    assert Piece(f, [a]) == Some((Item(c, a), "", [a][1..]));
    assert Render("", [a][1..]) == Some("");
    assert Item(c, a) + "" == Item(c, a);
  }

  /** What %d prints for a number is read back as that number, and consumed
      exactly, whatever follows it but a digit. */
  lemma {:induction false} DecimalRoundTrip(n: nat, after: string)
    requires n < 0x8000_0000 && (after == "" || !IsDigit(after[0]))
    ensures var text := Render("%d", [Int(n)]);
      text.Some? && ReadDec(text.value + after, 0) == (n, |text.value|)
  {
    assert "%d" == ['%', 'd'];
    RenderOne('d', Int(n));
    ReadBack("", n, after);
    assert "" + Digits(n) + after == Digits(n) + after;
  }

  /** What %@ prints for an address is read back as that address. */
  lemma {:induction false} AddressRoundTrip(addr: seq<byte>)
    requires |addr| == 4
    ensures Render("%@", [Ip(addr)]) == Some(ButLast(Dots(addr)))
    ensures ReadIp(ButLast(Dots(addr)), 0, 4) == Some(addr)
  {
    RenderOne('@', Ip(addr));
    assert "%@" == ['%', '@'];
    DotsInFull(addr);
    var s := ButLast(Dots(addr));
    assert s[0..] == s;
    NumeralsDenote(addr);
    JoinedAreRuns(s, 0, Numerals(addr));
    RunsAreRead(s, 0, Numerals(addr), addr);
  }

  /** The numbers of an address, with dots between them or behind them. */
  function Numerals(addr: seq<byte>): (words: seq<string>)
    ensures |words| == |addr|
  {
    if addr == [] then [] else [Digits(addr[0])] + Numerals(addr[1..])
  }

  function Joined(words: seq<string>): string {
    if words == [] then "" else if |words| == 1 then words[0] else words[0] + ("." + Joined(words[1..]))
  }

  function Dotted(words: seq<string>): string {
    if words == [] then "" else words[0] + ("." + Dotted(words[1..]))
  }

  lemma {:induction false} DottedIsJoined(words: seq<string>)
    requires words != []
    ensures Dotted(words) == Joined(words) + "."
  {
    var w, rest := words[0], words[1..];
    if rest == [] {
      assert "." + Dotted(rest) == ".";
    } else {
      DottedIsJoined(rest);
      assert w + ("." + (Joined(rest) + ".")) == w + ("." + Joined(rest)) + ".";
    }
  }

  lemma {:induction false} DottedAppend(words: seq<string>, w: string)
    ensures Dotted(words + [w]) == Dotted(words) + w + "."
  {
    if words == [] {
      assert words + [w] == [w] && [w][1..] == [] && Dotted([w]) == w + ("." + "");
      assert Dotted(words) + w + "." == w + ("." + "");
    } else {
      var v, rest := words[0], words[1..];
      assert (words + [w])[1..] == rest + [w];
      DottedAppend(rest, w);
      assert v + ("." + (Dotted(rest) + w + ".")) == v + ("." + Dotted(rest)) + w + ".";
    }
  }

  lemma {:induction false} NumeralsAppend(addr: seq<byte>, n: byte)
    ensures Numerals(addr + [n]) == Numerals(addr) + [Digits(n)]
  {
    if addr == [] {
      assert addr + [n] == [n] && [n][1..] == [];
    } else {
      assert (addr + [n])[1..] == addr[1..] + [n];
      NumeralsAppend(addr[1..], n);
    }
  }

  lemma {:induction false} DotsAreDotted(addr: seq<byte>)
    ensures Dots(addr) == Dotted(Numerals(addr))
  {
    if addr != [] {
      var rest, n := addr[..|addr| - 1], addr[|addr| - 1];
      DotsAreDotted(rest);
      assert addr == rest + [n];
      NumeralsAppend(rest, n);
      DottedAppend(Numerals(rest), Digits(n));
    }
  }

  lemma {:induction false} DotsInFull(addr: seq<byte>)
    requires addr != []
    ensures ButLast(Dots(addr)) == Joined(Numerals(addr))
  {
    DotsAreDotted(addr);
    DottedIsJoined(Numerals(addr));
  }

  predicate IsNumeral(w: string) {
    w != "" && AllDigits(w)
  }

  predicate AllNumerals(words: seq<string>) {
    forall i :: 0 <= i < |words| ==> IsNumeral(words[i])
  }

  /** From p on, s has the words, as runs of digits that cannot be longer, with
      dots between them; anything but a digit may follow. */
  predicate Runs(s: string, p: nat, words: seq<string>)
    requires p <= |s|
    decreases |words|
  {
    words == [] ||
    var e := p + |words[0]|;
    && IsNumeral(words[0]) && e <= |s| && s[p..e] == words[0]
    && if |words| == 1 then e == |s| || !IsDigit(s[e]) else e < |s| && s[e] == '.' && Runs(s, e + 1, words[1..])
  }

  /** The words denote the numbers of addr in 32 bits. */
  predicate Denote(words: seq<string>, addr: seq<byte>)
    requires AllNumerals(words)
  {
    |words| == |addr| && forall i :: 0 <= i < |words| ==> ToInt(Value(words[i])) == addr[i]
  }

  lemma {:induction false} SplitHead(s: string, p: nat, d: string, rest: string)
    requires p <= |s| && s[p..] == d + rest
    ensures p + |d| <= |s| && s[p..p + |d|] == d && s[p + |d|..] == rest
  {
    assert s[p..][..|d|] == d && s[p..][|d|..] == rest;
  }

  lemma {:induction false} JoinedAreRuns(s: string, p: nat, words: seq<string>)
    requires p <= |s| && s[p..] == Joined(words) && AllNumerals(words)
    ensures Runs(s, p, words)
    decreases |words|
  {
    if |words| == 1 {
      OneRun(s, p, words);
    } else if words != [] {
      var e := SplitWord(s, p, words[0], Joined(words[1..]));
      RestNumerals(words);
      JoinedAreRuns(s, e + 1, words[1..]);
      MoreRuns(s, p, words, e);
    }
  }

  lemma {:induction false} SplitWord(s: string, p: nat, w: string, rest: string) returns (e: nat)
    requires p <= |s| && s[p..] == w + ("." + rest)
    ensures p <= e < |s| && e == p + |w| && s[p..e] == w && s[e..e + 1] == "." && s[e + 1..] == rest
  {
    e := p + |w|;
    SplitHead(s, p, w, "." + rest);
    SplitHead(s, e, ".", rest);
  }

  lemma {:induction false} OneRun(s: string, p: nat, words: seq<string>)
    requires p <= |s| && |words| == 1 && s[p..] == words[0] && IsNumeral(words[0])
    ensures Runs(s, p, words)
  {}

  lemma {:induction false} OneMoreRun(s: string, p: nat, words: seq<string>, e: nat)
    requires p <= e <= |s| && |words| == 1 && IsNumeral(words[0]) && e == p + |words[0]| && s[p..e] == words[0]
    requires e == |s| || !IsDigit(s[e])
    ensures Runs(s, p, words)
  {}

  lemma {:induction false} MoreRuns(s: string, p: nat, words: seq<string>, e: nat)
    requires p <= e < |s| && |words| > 1 && IsNumeral(words[0]) && e == p + |words[0]| && s[p..e] == words[0]
    requires s[e..e + 1] == "." && Runs(s, e + 1, words[1..])
    ensures Runs(s, p, words)
  {
    assert s[e] == s[e..e + 1][0];
  }

  lemma {:induction false} RestNumerals(words: seq<string>)
    requires AllNumerals(words) && words != []
    ensures IsNumeral(words[0]) && AllNumerals(words[1..])
  {}

  lemma {:induction false} RestDenote(words: seq<string>, addr: seq<byte>)
    requires AllNumerals(words) && words != [] && Denote(words, addr)
    ensures addr != [] && ToInt(Value(words[0])) == addr[0] && AllNumerals(words[1..]) && Denote(words[1..], addr[1..])
  {}

  lemma {:induction false} MoreDenote(w: string, v: byte, words: seq<string>, addr: seq<byte>)
    requires IsNumeral(w) && AllNumerals(words) && Denote(words, addr) && ToInt(Value(w)) == v
    ensures AllNumerals([w] + words) && Denote([w] + words, [v] + addr)
  {}

  lemma {:induction false} NumeralsDenote(addr: seq<byte>)
    ensures AllNumerals(Numerals(addr)) && Denote(Numerals(addr), addr)
  {
    if addr != [] {
      NumeralsDenote(addr[1..]);
      ValueOfDigits(addr[0]);
      MoreDenote(Digits(addr[0]), addr[0], Numerals(addr[1..]), addr[1..]);
      assert [addr[0]] + addr[1..] == addr;
    }
  }

  /** A run of digits at p is the number there. */
  lemma {:induction false} NumberIs(s: string, p: nat, w: string, n: byte, more: bool)
    requires p + |w| <= |s| && IsNumeral(w) && s[p..p + |w|] == w && ToInt(Value(w)) == n
    requires if more then p + |w| < |s| && s[p + |w|] == '.' else p + |w| == |s| || !IsDigit(s[p + |w|])
    ensures NumberAt(s, p, more) == Some((n, if more then p + |w| + 1 else p + |w|))
  {
    RunOfDigits(s, p, p + |w|);
  }

  /** Such runs are read as the numbers they denote. */
  lemma {:induction false} RunsAreRead(s: string, p: nat, words: seq<string>, addr: seq<byte>)
    requires p <= |s| && Runs(s, p, words) && AllNumerals(words) && Denote(words, addr)
    ensures ReadIp(s, p, |words|) == Some(addr)
    decreases |words|
  {
    if words != [] {
      var w, more := words[0], |words| > 1;
      RestDenote(words, addr);
      NumberIs(s, p, w, addr[0], more);
      RunsAreRead(s, if more then p + |w| + 1 else p + |w|, words[1..], addr[1..]);
      assert [addr[0]] + addr[1..] == addr;
    }
  }

  /** Only such runs are read. */
  lemma {:induction false} ReadHasRuns(s: string, p: nat, k: nat) returns (words: seq<string>)
    requires p <= |s| && ReadIp(s, p, k).Some?
    ensures |words| == k && Runs(s, p, words) && AllNumerals(words) && Denote(words, ReadIp(s, p, k).value)
    decreases k
  {
    if k == 0 {
      words := [];
    } else {
      var e := RunEnd(s, p);
      var (v, q) := NumberAt(s, p, k > 1).value;
      var rest := ReadHasRuns(s, q, k - 1);
      words := [s[p..e]] + rest;
      assert words[1..] == rest;
      if k == 1 { OneMoreRun(s, p, words, e); } else { MoreRuns(s, p, words, e); }
      MoreDenote(s[p..e], v, rest, ReadIp(s, q, k - 1).value);
    }
  }

  /** What is accepted as an address: four runs of digits with dots between them,
      with numbers that are 0 to 255 in 32 bits. */
  lemma {:induction false} AddressIff(s: string, addr: seq<byte>)
    ensures ReadIp(s, 0, 4) == Some(addr) <==>
      exists words :: |words| == 4 && Runs(s, 0, words) && AllNumerals(words) && Denote(words, addr)
  {
    if ReadIp(s, 0, 4) == Some(addr) {
      var words := ReadHasRuns(s, 0, 4);
    }
    forall words | |words| == 4 && Runs(s, 0, words) && AllNumerals(words) && Denote(words, addr)
      ensures ReadIp(s, 0, 4) == Some(addr)
    {
      RunsAreRead(s, 0, words, addr);
    }
  }

  /** The address is the one written if and only if all its numbers are ints. */
  lemma {:induction false} AddressIsRight(words: seq<string>, addr: seq<byte>)
    requires AllNumerals(words) && Denote(words, addr)
    ensures (forall i :: 0 <= i < |words| ==> Value(words[i]) == addr[i])
      <==> (forall i :: 0 <= i < |words| ==> Value(words[i]) < 0x8000_0000)
  {
    forall i | 0 <= i < |words| ensures Value(words[i]) == addr[i] <==> Value(words[i]) < 0x8000_0000 {
      assert ToInt(Value(words[i])) == addr[i];
    }
  }

  /** Instances that are taken for another address: a number too large by 2^32. */
  lemma {:induction false} AddressWraps(n: byte, rest: seq<byte>)
    requires |rest| == 3
    ensures ReadIp(Joined([Digits(0x1_0000_0000 + n as int)] + Numerals(rest)), 0, 4) == Some([n] + rest)
  {
    var w := Digits(0x1_0000_0000 + n as int);
    var words := [w] + Numerals(rest);
    var s := Joined(words);
    ValueOfDigits(0x1_0000_0000 + n as int);
    ToIntShift(n as int, 1);
    NumeralsDenote(rest);
    MoreDenote(w, n, Numerals(rest), rest);
    assert s[0..] == s;
    JoinedAreRuns(s, 0, words);
    RunsAreRead(s, 0, words, [n] + rest);
  }
}
