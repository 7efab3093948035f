/** Formats as they are written, and what each form prints. */
module EtherbootForms {
  import opened Bytes
  import opened Decimal
  import opened Etherboot
  import opened Options

  /** A character that stands for itself, %s, or a conversion: with or without #,
      with up to two h, and a letter. */
  datatype Form = Ordinary(c: char) | Text | Conv(alt: bool, halves: nat, letter: char)

  function Halves(halves: nat): string {
    if halves == 0 then "" else if halves == 1 then "h" else "hh"
  }

  function Spelled(form: Form): string {
    match form
    case Ordinary(c) => [c]
    case Text => "%s"
    case Conv(alt, halves, letter) => "%" + (if alt then "#" else "") + Halves(halves) + [letter]
  }

  /** The letter is the first character that is not taken for a flag. */
  predicate IsForm(form: Form) {
    match form
    case Ordinary(c) => c != '%'
    case Text => true
    case Conv(alt, halves, letter) =>
      halves <= 2 && (halves < 2 ==> letter != 'h') && (!alt && halves == 0 ==> letter != '#' && letter != 's')
  }

  /** How many arguments the form takes. */
  function Takes(form: Form): nat {
    if form.Text? || (form.Conv? && form.letter in {'x', 'X', 'd', '@', '!', 'c'}) then 1 else 0
  }

  /** The argument is of the kind the form asks for. */
  predicate Matches(form: Form, a: Arg) {
    match form
    case Ordinary(_) => true
    case Text => a.Str?
    case Conv(_, _, letter) =>
      && (letter in {'x', 'X', 'd'} ==> a.Int? && -0x8000_0000 <= a.i < 0x8000_0000)
      && (letter == 'c' ==> a.Chr?)
      && (letter == '@' ==> a.Ip? && |a.addr| == 4) && (letter == '!' ==> a.Ether? && |a.mac| == 6)
  }

  predicate Serve(form: Form, args: seq<Arg>) {
    |args| >= Takes(form) && (Takes(form) == 1 ==> Matches(form, args[0]))
  }

  // ------------------------------------------------------------------ the texts

  predicate IsHexChar(c: char, upper: bool) {
    '0' <= c <= '9' || (if upper then 'A' <= c <= 'F' else 'a' <= c <= 'f')
  }

  /** The numeral of n with k hexadecimal digits of one case. */
  predicate IsHexText(t: string, n: int, k: nat, upper: bool) {
    |t| == k && (forall i :: 0 <= i < k ==> IsHexChar(t[i], upper)) && HexValue(t) == n
  }

  /** The sixteen digits stand for the numbers below sixteen, in both cases. */
  lemma {:induction false} SixteenDigits(i: nat)
    requires i < 16
    ensures HexDigitValue("0123456789ABCDEF"[i]) == i == HexDigitValue("0123456789abcdef"[i])
  {}

  /** There is only one. */
  lemma {:induction false} OneHexText(t: string, u: string, n: int, k: nat, upper: bool)
    requires IsHexText(t, n, k, upper) && IsHexText(u, n, k, upper)
    ensures t == u
    decreases k
  {
    if k > 0 {
      var c, d := t[k - 1], u[k - 1];
      assert HexDigitValue(c) < 16 && HexDigitValue(d) < 16;
      assert n == 16 * HexValue(t[..k - 1]) + HexDigitValue(c) == 16 * HexValue(u[..k - 1]) + HexDigitValue(d);
      OneHexText(t[..k - 1], u[..k - 1], HexValue(t[..k - 1]), k - 1, upper);
      assert t == t[..k - 1] + [c] && u == u[..k - 1] + [d];
    }
  }

  /** A plain decimal numeral of n, without leading zeros. */
  predicate IsDecimal(t: string, n: nat) {
    t != "" && AllDigits(t) && Value(t) == n && (|t| > 1 ==> t[0] != '0')
  }

  /** Four numerals with dots between them. */
  ghost predicate IsAddress(t: string, addr: seq<byte>)
    requires |addr| == 4
  {
    exists a, b, c, d ::
      && t == a + "." + b + "." + c + "." + d
      && IsDecimal(a, addr[0]) && IsDecimal(b, addr[1]) && IsDecimal(c, addr[2]) && IsDecimal(d, addr[3])
  }

  /** Six numerals of two digits with colons between them. */
  predicate IsStation(t: string, mac: seq<byte>)
    requires |mac| == 6
  {
    && |t| == 17
    && (forall i :: 0 <= i < 6 ==> IsHexText(t[3 * i..3 * i + 2], mac[i], 2, true))
    && (forall i :: 0 <= i < 5 ==> t[3 * i + 2] == ':')
  }

  /** Eight hexadecimal digits show all of an int, four its lower half, two its
      lowest byte. */
  predicate IsHexItem(t: string, i: int, alt: bool, halves: nat, upper: bool) {
    var n := if alt then 2 else 0;
    && |t| >= n && (alt ==> t[..2] == if upper then "0X" else "0x")
    && if halves == 0 then IsHexText(t[n..], i % 0x1_0000_0000, 8, upper)
       else if halves == 1 then IsHexText(t[n..], i % 0x1_0000, 4, upper)
       else IsHexText(t[n..], i % 0x100, 2, upper)
  }

  /** The least int has no opposite; its digits come out below the digit zero. */
  predicate IsSigned(t: string, i: int) {
    if i >= 0 then IsDecimal(t, i)
    else if i == -0x8000_0000 then t == "-./,),(-*,("
    else t != "" && t[0] == '-' && IsDecimal(t[1..], -i)
  }

  /** What the form prints for its arguments. */
  ghost predicate Prints(form: Form, args: seq<Arg>, t: string)
    requires Serve(form, args)
  {
    match form
    case Ordinary(c) => t == [c]
    case Text => t == args[0].s
    case Conv(alt, halves, letter) =>
      if letter == 'x' then IsHexItem(t, args[0].i, alt, halves, false)
      else if letter == 'X' then IsHexItem(t, args[0].i, alt, halves, true)
      else if letter == 'd' then IsSigned(t, args[0].i)
      else if letter == '@' then IsAddress(t, args[0].addr)
      else if letter == '!' then IsStation(t, args[0].mac)
      else if letter == 'c' then t == [args[0].c]
      else t == [letter]
  }

  // ------------------------------------------------------------------ the items print them

  lemma {:induction false} HexChars(h: int, j: nat, k: nat, upper: bool)
    ensures forall i :: 0 <= i < k ==> IsHexChar(Hex(h, j, k, upper)[i], upper)
    decreases k
  {
    if k > 0 { HexChars(h, j + 1, k - 1, upper); }
  }

  lemma {:induction false} Powers()
    ensures Power16(8) == 0x1_0000_0000 && Power16(4) == 0x1_0000 && Power16(2) == 0x100
  {
    assert Power16(3) == 0x1000 && Power16(6) == 0x100_0000;
  }

  lemma {:induction false} HexTextIs(h: int, k: nat, upper: bool, m: nat)
    requires Power16(k) == m > 0
    ensures IsHexText(Hex(h, 0, k, upper), h % m, k, upper)
  {
    HexIs(h, 0, k, upper);
    HexChars(h, 0, k, upper);
  }

  lemma {:induction false} HexItemIs(t: string, i: int, alt: bool, halves: nat, upper: bool)
    requires halves <= 2
    requires t == (if alt then (if upper then "0X" else "0x") else "")
      + Hex(i, 0, if halves == 0 then 8 else if halves == 1 then 4 else 2, upper)
    ensures IsHexItem(t, i, alt, halves, upper)
  {
    var k, n := if halves == 0 then 8 else if halves == 1 then 4 else 2, if alt then 2 else 0;
    Powers();
    HexTextIs(i, k, upper, Power16(k));
    assert t[n..] == Hex(i, 0, k, upper) && (alt ==> t[..2] == if upper then "0X" else "0x");
  }

  lemma {:induction false} DigitsAre(n: nat)
    ensures IsDecimal(Digits(n), n)
  {
    ValueOfDigits(n);
    NoLeadingZero(n);
  }

  lemma {:induction false} SignedIs(i: int)
    requires IsInt(i)
    ensures IsSigned(IntText(i), i)
  {
    if i != INT_MIN {
      DigitsAre(if i < 0 then -i else i);
      assert i < 0 ==> Signed(i)[1..] == Digits(-i);
    } else {
      BelowLeast();
      assert "-" + "./,),(-*,(" == "-./,),(-*,(";
    }
  }

  lemma {:induction false} DotsStep(addr: seq<byte>, n: nat)
    requires n < |addr|
    ensures Dots(addr[..n + 1]) == Dots(addr[..n]) + Digits(addr[n]) + "."
  {
    assert addr[..n + 1][..n] == addr[..n];
  }

  lemma {:induction false} FourDots(addr: seq<byte>, a: string, b: string, c: string, d: string)
    requires |addr| == 4
    requires a == Digits(addr[0]) && b == Digits(addr[1]) && c == Digits(addr[2]) && d == Digits(addr[3])
    ensures Dots(addr) == a + "." + b + "." + c + "." + d + "."
  {
    DotsStep(addr, 0);
    DotsStep(addr, 1);
    DotsStep(addr, 2);
    DotsStep(addr, 3);
    assert addr[..0] == [] && addr[..4] == addr && "" + a == a;
  }

  lemma {:induction false} WithoutLast(t: string, c: char)
    ensures ButLast(t + [c]) == t
  {}

  lemma {:induction false} AddressIs(addr: seq<byte>)
    requires |addr| == 4
    ensures IsAddress(ButLast(Dots(addr)), addr)
  {
    var a, b, c, d := Digits(addr[0]), Digits(addr[1]), Digits(addr[2]), Digits(addr[3]);
    FourDots(addr, a, b, c, d);
    WithoutLast(a + "." + b + "." + c + "." + d, '.');
    DigitsAre(addr[0]);
    DigitsAre(addr[1]);
    DigitsAre(addr[2]);
    DigitsAre(addr[3]);
  }

  lemma {:induction false} ColonsAt(mac: seq<byte>, i: nat)
    requires i < |mac|
    ensures var s := Colons(mac); s[3 * i..3 * i + 2] == Hex(mac[i], 0, 2, true) && s[3 * i + 2] == ':'
  {
    var n := |mac| - 1;
    var front, h := Colons(mac[..n]), Hex(mac[n], 0, 2, true);
    assert Colons(mac) == front + h + ":";
    if i < n {
      ColonsAt(mac[..n], i);
      assert Colons(mac)[..|front|] == front;
      assert Colons(mac)[3 * i..3 * i + 2] == front[3 * i..3 * i + 2];
    } else {
      assert (front + h + ":")[|front|..|front| + 2] == h;
    }
  }

  lemma {:induction false} StationIs(mac: seq<byte>)
    requires |mac| == 6
    ensures IsStation(ButLast(Colons(mac)), mac)
  {
    var t := ButLast(Colons(mac));
    forall i | 0 <= i < 6 ensures IsHexText(t[3 * i..3 * i + 2], mac[i], 2, true) {
      StationAt(mac, i);
      TwoDigits(mac[i]);
    }
    forall i | 0 <= i < 5 ensures t[3 * i + 2] == ':' { StationAt(mac, i); }
  }

  lemma {:induction false} TwoDigits(n: byte)
    ensures IsHexText(Hex(n, 0, 2, true), n, 2, true)
  {
    Powers();
    HexTextIs(n, 2, true, 0x100);
  }

  lemma {:induction false} StationAt(mac: seq<byte>, i: nat)
    requires i < |mac|
    ensures var t := ButLast(Colons(mac));
      |t| == 3 * |mac| - 1 && t[3 * i..3 * i + 2] == Hex(mac[i], 0, 2, true) && (i < |mac| - 1 ==> t[3 * i + 2] == ':')
  {
    ColonsAt(mac, i);
    var s, t := Colons(mac), ButLast(Colons(mac));
    assert t == s[..|s| - 1];
    assert t[3 * i..3 * i + 2] == s[3 * i..3 * i + 2];
  }

  function WidthOf(halves: nat): nat {
    if halves == 0 then 8 else if halves == 1 then 4 else 2
  }

  lemma {:induction false} ItemPrints(form: Form, args: seq<Arg>)
    requires form.Conv? && IsForm(form) && Serve(form, args)
    ensures var c := Conversion(form.alt, WidthOf(form.halves), form.letter, "");
      && (TakesArg(c.letter) <==> Takes(form) == 1) && (TakesArg(c.letter) ==> Fits(c.letter, args[0]))
      && Prints(form, args, Item(c, if Takes(form) == 1 then args[0] else Int(0)))
  {
    var letter := form.letter;
    if letter == 'x' || letter == 'X' {
      var c := Conversion(form.alt, WidthOf(form.halves), letter, "");
      HexItemIs(Item(c, args[0]), args[0].i, form.alt, form.halves, letter == 'X');
    } else if letter == 'd' {
      SignedIs(args[0].i);
    } else if letter == '@' {
      AddressIs(args[0].addr);
    } else if letter == '!' {
      StationIs(args[0].mac);
    }
  }

  // ------------------------------------------------------------------ reading the forms

  /** The flags and the letter of a conversion, with the rest of the format. */
  function Flags(form: Form, rest: string): string
    requires form.Conv? && form.halves <= 2
  {
    var f3 := [form.letter] + rest;
    var f2 := if form.halves == 2 then "h" + f3 else f3;
    var f1 := if form.halves >= 1 then "h" + f2 else f2;
    if form.alt then "#" + f1 else f1
  }

  lemma {:induction false} Regrouped(a: string, b: string, c: string, d: string, r: string)
    ensures a + b + c + d + r == a + (b + (c + (d + r)))
  {}

  lemma {:induction false} NothingBefore(s: string)
    ensures "" + s == s && "hh" + s == "h" + ("h" + s)
  {}

  lemma {:induction false} SpelledIs(form: Form, rest: string)
    requires form.Conv? && form.halves <= 2
    ensures Spelled(form) + rest == "%" + Flags(form, rest)
  {
    var f3 := [form.letter] + rest;
    Regrouped("%", if form.alt then "#" else "", Halves(form.halves), [form.letter], rest);
    NothingBefore(f3);
    NothingBefore(Halves(form.halves) + f3);
  }

  lemma {:induction false} Stripped(c: char, s: string)
    ensures [c] + s != "" && ([c] + s)[0] == c && ([c] + s)[1..] == s
  {}

  /** A string without its first character, if that is c. */
  function Strip(c: char, s: string): string {
    if s != "" && s[0] == c then s[1..] else s
  }

  lemma {:induction false} ReadIs(f: string, f1: string, f2: string, f3: string)
    requires f1 == Strip('#', f) && f2 == Strip('h', f1) && f3 == Strip('h', f2)
    ensures ReadConversion(f) ==
      if f3 == "" then None
      else Some(Conversion(|f1| < |f|, if |f3| < |f2| then 2 else if |f2| < |f1| then 4 else 8, f3[0], f3[1..]))
  {}

  lemma {:induction false} FlagsAreRead(form: Form, rest: string)
    requires form.Conv? && IsForm(form)
    ensures ReadConversion(Flags(form, rest)) == Some(Conversion(form.alt, WidthOf(form.halves), form.letter, rest))
  {
    var f3 := [form.letter] + rest;
    var f2 := if form.halves == 2 then "h" + f3 else f3;
    var f1 := if form.halves >= 1 then "h" + f2 else f2;
    var f := if form.alt then "#" + f1 else f1;
    Stripped(form.letter, rest);
    Stripped('h', f3);
    Stripped('h', f2);
    Stripped('#', f1);
    ReadIs(f, f1, if form.halves >= 1 then f2 else f1, f3);
  }

  lemma {:induction false} ConvIsRead(form: Form, rest: string)
    requires form.Conv? && IsForm(form)
    ensures var f := Spelled(form) + rest;
      && f != "" && f[0] == '%' && !(|f| >= 2 && f[1] == 's')
      && ReadConversion(f[1..]) == Some(Conversion(form.alt, WidthOf(form.halves), form.letter, rest))
  {
    SpelledIs(form, rest);
    Stripped('%', Flags(form, rest));
    FlagsAreRead(form, rest);
    FirstFlag(form, rest);
    assert ("%" + Flags(form, rest))[1] == Flags(form, rest)[0];
  }

  lemma {:induction false} FirstFlag(form: Form, rest: string)
    requires form.Conv? && IsForm(form)
    ensures Flags(form, rest) != "" && Flags(form, rest)[0] != 's'
  {}

  /** A form is printed as it means, and then the rest of the format. */
  lemma {:induction false} FormIsRendered(form: Form, rest: string, args: seq<Arg>) returns (t: string)
    requires IsForm(form)
    ensures var f := Spelled(form) + rest;
      && (Render(f, args).Some? <==> Serve(form, args) && Render(rest, args[Takes(form)..]).Some?)
      && (Render(f, args).Some? ==>
            Prints(form, args, t) && Render(f, args).value == t + Render(rest, args[Takes(form)..]).value)
  {
    var f := Spelled(form) + rest;
    t := "";
    match form {
      case Ordinary(c) =>
        assert f[1..] == rest && args[0..] == args;
        t := [c];
      case Text =>
        assert f[2..] == rest && f[0] == '%' && f[1] == 's';
        if Serve(form, args) { t := args[0].s; }
      case Conv(alt, halves, letter) =>
        ConvIsRead(form, rest);
        assert args[0..] == args;
        var c := Conversion(alt, WidthOf(halves), letter, rest);
        if Serve(form, args) {
          ItemPrints(form, args);
          t := Item(c, if Takes(form) == 1 then args[0] else Int(0));
        }
    }
  }

  // ------------------------------------------------------------------ whole formats

  function Format(forms: seq<Form>): string {
    if forms == [] then "" else Spelled(forms[0]) + Format(forms[1..])
  }

  predicate AllForms(forms: seq<Form>) {
    forall i :: 0 <= i < |forms| ==> IsForm(forms[i])
  }

  /** out is what the forms print, one after the other, each taking its
      arguments from the front. */
  ghost predicate PrintsAll(forms: seq<Form>, args: seq<Arg>, out: string)
    decreases |forms|
  {
    if forms == [] then out == ""
    else Serve(forms[0], args) && exists t: string ::
      (t <= out && Prints(forms[0], args, t) && PrintsAll(forms[1..], args[Takes(forms[0])..], out[|t|..]))
  }

  /** There are arguments for all forms, of the kinds they ask for. */
  predicate AllServe(forms: seq<Form>, args: seq<Arg>)
    decreases |forms|
  {
    forms == [] || (Serve(forms[0], args) && AllServe(forms[1..], args[Takes(forms[0])..]))
  }

  /** The formatter prints what the forms of the format mean, if the arguments
      serve them. */
  lemma {:induction false} FormatIsRendered(forms: seq<Form>, args: seq<Arg>)
    requires AllForms(forms)
    ensures Render(Format(forms), args).Some? <==> AllServe(forms, args)
    ensures Render(Format(forms), args).Some? ==> PrintsAll(forms, args, Render(Format(forms), args).value)
    decreases |forms|
  {
    if forms != [] {
      var form, rest := forms[0], Format(forms[1..]);
      var t := FormIsRendered(form, rest, args);
      if Serve(form, args) { FormatIsRendered(forms[1..], args[Takes(form)..]); }
      if Render(Format(forms), args).Some? {
        var out := Render(Format(forms), args).value;
        assert out[|t|..] == Render(rest, args[Takes(form)..]).value && t <= out;
      }
    }
  }

  lemma {:induction false} FormIsWritten(f: string) returns (form: Form, rest: string)
    requires Complete(f) && f != ""
    ensures IsForm(form) && f == Spelled(form) + rest && Complete(rest) && |rest| < |f|
  {
    if f[0] != '%' {
      form, rest := Ordinary(f[0]), f[1..];
    } else if |f| >= 2 && f[1] == 's' {
      form, rest := Text, f[2..];
      assert f == f[..2] + f[2..] && f[..2] == "%s";
    } else {
      form := ConvIsWritten(f);
      rest := f[|Spelled(form)|..];
    }
  }

  lemma {:induction false} OneMoreForm(form: Form, forms: seq<Form>)
    requires IsForm(form) && AllForms(forms)
    ensures AllForms([form] + forms) && Format([form] + forms) == Spelled(form) + Format(forms)
  {
    assert ([form] + forms)[1..] == forms;
  }

  lemma {:induction false} FormsAreComplete(forms: seq<Form>)
    requires AllForms(forms)
    ensures Complete(Format(forms))
  {
    if forms != [] {
      var form, rest := forms[0], Format(forms[1..]);
      FormsAreComplete(forms[1..]);
      var f := Spelled(form) + rest;
      match form
      case Ordinary(c) => assert f[1..] == rest;
      case Text => assert f[2..] == rest && f[0] == '%' && f[1] == 's';
      case Conv(_, _, _) => ConvIsRead(form, rest);
    }
  }

  /** Every format that is not cut off is written in these forms. */
  lemma {:induction false} EveryFormatIsWritten(f: string) returns (forms: seq<Form>)
    requires Complete(f)
    ensures AllForms(forms) && Format(forms) == f
    decreases |f|
  {
    if f == "" { return []; }
    var form, rest := FormIsWritten(f);
    var more := EveryFormatIsWritten(rest);
    OneMoreForm(form, more);
    forms := [form] + more;
  }

  lemma {:induction false} Restored(c: char, s: string)
    requires s != "" && s[0] == c
    ensures s == [c] + s[1..]
  {}

  lemma {:induction false} ConvIsWritten(f: string) returns (form: Form)
    requires Complete(f) && f != "" && f[0] == '%' && !(|f| >= 2 && f[1] == 's')
    ensures form.Conv? && IsForm(form) && Spelled(form) <= f && Complete(f[|Spelled(form)|..])
  {
    var f0 := f[1..];
    var f1 := Strip('#', f0);
    var f2 := Strip('h', f1);
    var f3 := Strip('h', f2);
    ReadIs(f0, f1, f2, f3);
    form := Conv(f1 != f0, if f3 != f2 then 2 else if f2 != f1 then 1 else 0, f3[0]);
    Restored('%', f);
    Restored(f3[0], f3);
    if f1 != f0 { Restored('#', f0); }
    if f2 != f1 { Restored('h', f1); }
    if f3 != f2 { Restored('h', f2); }
    assert f0 == Flags(form, f3[1..]);
    SpelledIs(form, f3[1..]);
    assert f == Spelled(form) + f3[1..];
    assert f[|Spelled(form)|..] == f3[1..];
  }
}
