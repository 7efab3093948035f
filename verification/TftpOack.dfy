/** The text of an OACK (RFC 2347): names and numbers, each ended by a NUL. */
module TftpOack {
  import opened Decimal
  import Etherboot
  import opened Folding

  const TFTP_DEFAULTSIZE_PACKET := 512
  const TFTP_MAX_PACKET := 1432

  datatype OackOption = Blksize(value: int) | Tsize(value: int) | Unknown

  /** The options the client goes along with. */
  predicate Acceptable(o: OackOption) {
    match o
    case Blksize(n) => n >= TFTP_DEFAULTSIZE_PACKET
    case Tsize(n) => n >= 0
    case Unknown => false
  }

  predicate AllAcceptable(options: seq<OackOption>) {
    forall i :: 0 <= i < |options| ==> Acceptable(options[i])
  }

  // -------------------------------------------------------------------- what the client reads

  /** Memory from the text on; data may go beyond the datagram, and a NUL follows. */
  function CharAt(data: string, p: nat): char {
    if p < |data| then data[p] else '\0'
  }

  /** Whether the text at p, up to its NUL, is the name. */
  predicate IsNamed(data: string, p: nat, name: string) {
    p + |name| <= |data| && data[p..p + |name|] == name && CharAt(data, p + |name|) == '\0'
  }

  /** A number at p and the place behind it. */
  function NumberAt(data: string, p: nat): (r: (int, nat))
    ensures r.1 >= p
  {
    if p <= |data| then ReadDec(data, p) else (-1, p)
  }

  /** The place behind the text at p and its NUL, as far as they lie before e. */
  function Behind(data: string, e: nat, p: nat): (q: nat)
    ensures q >= p
    decreases e - p
  {
    if p >= e then p
    else if CharAt(data, p) == '\0' then p + 1
    else Behind(data, e, p + 1)
  }

  /** The option at p and the place behind it. */
  function OptionOf(data: string, e: nat, p: nat): (r: (OackOption, nat))
    ensures !r.0.Unknown? ==> r.1 > p
  {
    if IsNamed(data, p, "blksize") then
      var (n, q) := NumberAt(data, p + 8); (Blksize(n), Behind(data, e, q))
    else if IsNamed(data, p, "tsize") then
      var (n, q) := NumberAt(data, p + 6); (Tsize(n), Behind(data, e, q))
    else (Unknown, p)
  }

  ghost predicate IsOption(data: string, e: nat, p: nat, r: (OackOption, nat)) {
    (!r.0.Unknown? ==> r.1 > p) && forall b {:trigger Key(b)} :: Key(b) ==> r == OptionOf(data, e, p)
  }

  /** OptionOf, kept folded; UnfoldOption gives its value. */
  ghost function OptionAt(data: string, e: nat, p: nat): (r: (OackOption, nat))
    ensures !r.0.Unknown? ==> r.1 > p
  {
    assert IsOption(data, e, p, OptionOf(data, e, p));
    var r :| IsOption(data, e, p, r);
    r
  }

  lemma {:induction false} UnfoldOption(data: string, e: nat, p: nat)
    ensures OptionAt(data, e, p) == OptionOf(data, e, p)
  {
    assert IsOption(data, e, p, OptionAt(data, e, p));
    assert Key(true);
  }

  predicate AtEnd(data: string, e: nat, p: nat) {
    CharAt(data, p) == '\0' || p >= e
  }

  /** The options from p on; a text that goes on behind e does not count as one. */
  ghost function OptionsFrom(data: string, e: nat, p: nat): seq<OackOption>
    decreases |data| - p
  {
    if AtEnd(data, e, p) then (if p > e then [Unknown] else [])
    else
      var (o, q) := OptionAt(data, e, p);
      if o.Unknown? then [Unknown] else [o] + OptionsFrom(data, e, q)
  }

  lemma {:induction false} FromStep(data: string, e: nat, p: nat, o: OackOption, q: nat)
    requires !AtEnd(data, e, p) && OptionAt(data, e, p) == (o, q) && !o.Unknown?
    ensures OptionsFrom(data, e, p) == [o] + OptionsFrom(data, e, q)
  {}

  lemma {:induction false} FromNext(data: string, e: nat, p: nat, o: OackOption, q: nat)
    requires !AtEnd(data, e, p) && OptionAt(data, e, p) == (o, q)
    ensures var rest := OptionsFrom(data, e, p);
      rest != [] && rest[0] == o && (!o.Unknown? ==> rest[1..] == OptionsFrom(data, e, q))
  {}

  lemma {:induction false} FromEnd(data: string, e: nat, p: nat)
    requires AtEnd(data, e, p)
    ensures OptionsFrom(data, e, p) == if p > e then [Unknown] else []
  {}

  /** The length of the text, as the client computes it in an unsigned short. */
  function OackLength(udpLen: nat): nat {
    (udpLen - 10) % 0x10000
  }

  ghost function OptionsOf(data: string, udpLen: nat): seq<OackOption> {
    if OackLength(udpLen) > TFTP_MAX_PACKET then [Unknown] else OptionsFrom(data, OackLength(udpLen), 0)
  }

  ghost predicate AreOptions(data: string, udpLen: nat, options: seq<OackOption>) {
    forall b {:trigger Key(b)} :: Key(b) ==> options == OptionsOf(data, udpLen)
  }

  /** OptionsOf, kept folded; UnfoldOptions gives its value. */
  ghost function OptionsIn(data: string, udpLen: nat): seq<OackOption> {
    assert AreOptions(data, udpLen, OptionsOf(data, udpLen));
    var options :| AreOptions(data, udpLen, options);
    options
  }

  lemma {:induction false} UnfoldOptions(data: string, udpLen: nat)
    ensures OptionsIn(data, udpLen) == OptionsOf(data, udpLen)
  {
    assert AreOptions(data, udpLen, OptionsIn(data, udpLen));
    assert Key(true);
  }

  /** Reads the option at p. */
  method ReadOptionAt(data: string, e: nat, p: nat) returns (o: OackOption, q: nat)
    ensures (o, q) == OptionAt(data, e, p)
  {
    UnfoldOption(data, e, p);
    if IsNamed(data, p, "blksize") {
      var n, after := ReadNumber(data, p + 8);
      o := Blksize(n);
      q := SkipText(data, e, after);
    } else if IsNamed(data, p, "tsize") {
      var n, after := ReadNumber(data, p + 6);
      o := Tsize(n);
      q := SkipText(data, e, after);
    } else {
      o, q := Unknown, p;
    }
  }

  method ReadNumber(data: string, p: nat) returns (n: int, q: nat)
    ensures (n, q) == NumberAt(data, p)
  {
    if p > |data| { return -1, p; }
    n, q := Etherboot.GetDec(data, p);
  }

  method SkipText(data: string, e: nat, p: nat) returns (q: nat)
    ensures q == Behind(data, e, p)
  {
    q := p;
    while q < e && CharAt(data, q) != '\0'
      invariant Behind(data, e, q) == Behind(data, e, p)
    {
      q := q + 1;
    }
    if q < e { q := q + 1; }
  }

  // -------------------------------------------------------------------- what a server writes

  function Name(o: OackOption): string
    requires !o.Unknown?
  {
    if o.Blksize? then "blksize" else "tsize"
  }

  /** An option that can be written: its number is an int that is not negative. */
  predicate Writable(o: OackOption) {
    !o.Unknown? && 0 <= o.value < 0x8000_0000
  }

  predicate AllWritable(options: seq<OackOption>) {
    forall i :: 0 <= i < |options| ==> Writable(options[i])
  }

  function WrittenOption(o: OackOption): string
    requires Writable(o)
  {
    Name(o) + ['\0'] + Digits(o.value) + ['\0']
  }

  function Written(options: seq<OackOption>): string
    requires AllWritable(options)
  {
    if options == [] then "" else WrittenOption(options[0]) + Written(options[1..])
  }

  lemma {:induction false} BehindText(data: string, e: nat, p: nat, q: nat)
    requires p <= q < e && CharAt(data, q) == '\0'
    requires forall i :: p <= i < q ==> CharAt(data, i) != '\0'
    ensures Behind(data, e, p) == q + 1
    decreases q - p
  {
    if p < q { BehindText(data, e, p + 1, q); }
  }

  /** The parts of an option that stands at p: the digits of its number stand
      from start to q. */
  lemma {:induction false} OptionParts(data: string, p: nat, o: OackOption, w: string)
    returns (start: nat, q: nat, digits: string)
    requires Writable(o) && w == WrittenOption(o) && p + |w| <= |data| && data[p..p + |w|] == w
    ensures IsNamed(data, p, Name(o)) && start == p + |Name(o)| + 1
    ensures q == start + |digits| && q + 1 == p + |w| && data[start..start + |digits|] == digits && data[q] == '\0'
    ensures digits != "" && AllDigits(digits) && Value(digits) == o.value
  {
    var name := Name(o);
    digits := Digits(o.value);
    ValueOfDigits(o.value);
    FourParts(name, '\0', digits, w);
    var i, j := |name| + 1, |name| + 1 + |digits|;
    PartOf(data, p, w, 0, |name|);
    PartOf(data, p, w, i, j);
    PartOf(data, p, w, |name|, i);
    PartOf(data, p, w, j, |w|);
    start, q := p + i, p + j;
  }

  lemma {:induction false} FourParts(name: string, nul: char, digits: string, w: string)
    requires w == name + [nul] + digits + [nul]
    ensures var start, q := |name| + 1, |name| + 1 + |digits|;
      |w| == q + 1 && w[0..|name|] == name && w[|name|] == nul && w[start..q] == digits && w[q] == nul
  {
    var front := name + [nul];
    var middle := front + digits;
    assert w == middle + [nul] && w[..|middle|] == middle;
    assert middle[..|front|] == front && middle[|front|..] == digits;
    assert w[0..|name|] == w[..|middle|][..|front|][0..|name|];
    assert w[|front|..|middle|] == w[..|middle|][|front|..];
  }

  lemma {:induction false} PartOf(data: string, p: nat, w: string, i: nat, j: nat)
    requires p + |w| <= |data| && data[p..p + |w|] == w && i <= j <= |w|
    ensures data[p + i..p + j] == w[i..j] && (i < j ==> data[p + i] == w[i])
  {
    var part := data[p + i..p + j];
    forall k | 0 <= k < j - i ensures part[k] == w[i..j][k] { assert data[p..p + |w|][i + k] == w[i + k]; }
  }

  lemma {:induction false} NumberIs(data: string, e: nat, p: nat, digits: string, n: nat)
    requires p + |digits| < e <= |data| && data[p..p + |digits|] == digits && data[p + |digits|] == '\0'
    requires digits != "" && AllDigits(digits) && Value(digits) == n < 0x8000_0000
    ensures NumberAt(data, p) == (n, p + |digits|) && Behind(data, e, p + |digits|) == p + |digits| + 1
  {
    RunOfDigits(data, p, p + |digits|);
  }

  /** Where the name and the number of an option stand. */
  lemma {:induction false} OptionStands(data: string, e: nat, p: nat, o: OackOption, w: string) returns (start: nat, q: nat)
    requires Writable(o) && w == WrittenOption(o) && p + |w| <= e <= |data| && data[p..p + |w|] == w
    ensures IsNamed(data, p, Name(o)) && start == p + |Name(o)| + 1 && q + 1 == p + |w|
    ensures NumberAt(data, start) == (o.value, q) && Behind(data, e, q) == q + 1
  {
    var digits;
    start, q, digits := OptionParts(data, p, o, w);
    NumberIs(data, e, start, digits, o.value);
  }

  /** An option in its context is read back exactly. */
  lemma {:induction false} OptionReadBack(data: string, e: nat, p: nat, o: OackOption, w: string)
    requires Writable(o) && w == WrittenOption(o) && p + |w| <= e <= |data| && data[p..p + |w|] == w
    ensures OptionAt(data, e, p) == (o, p + |w|) && !AtEnd(data, e, p)
  {
    var start, q := OptionStands(data, e, p, o, w);
    OptionIs(data, e, p, o, start, q, p + |w|);
  }

  lemma {:induction false} OptionIs(data: string, e: nat, p: nat, o: OackOption, start: nat, q: nat, end: nat)
    requires !o.Unknown? && IsNamed(data, p, Name(o)) && p < e && start == p + |Name(o)| + 1
    requires NumberAt(data, start) == (o.value, q) && Behind(data, e, q) == end
    ensures OptionAt(data, e, p) == (o, end) && !AtEnd(data, e, p)
  {
    UnfoldOption(data, e, p);
    CharOf(data, p, Name(o), 0);
    if o.Tsize? && IsNamed(data, p, "blksize") { CharOf(data, p, "blksize", 0); }
  }

  lemma {:induction false} CharOf(data: string, p: nat, name: string, i: nat)
    requires IsNamed(data, p, name) && i < |name|
    ensures data[p + i] == name[i] && name[i] in name
  {
    assert data[p + i] == data[p..p + |name|][i];
  }

  /** Splits a text after its first option. */
  lemma {:induction false} WrittenCut(data: string, e: nat, p: nat, options: seq<OackOption>, w: string)
    returns (o: OackOption, more: seq<OackOption>, first: string, rest: string)
    requires AllWritable(options) && options != [] && w == Written(options)
    requires p + |w| == e <= |data| && data[p..p + |w|] == w
    ensures options == [o] + more && |more| < |options| && Writable(o) && AllWritable(more)
    ensures first == WrittenOption(o) && p + |first| <= e && data[p..p + |first|] == first
    ensures rest == Written(more) && p + |first| + |rest| == e && data[p + |first|..p + |first| + |rest|] == rest
  {
    o, more := options[0], options[1..];
    first, rest := WrittenOption(o), Written(more);
    assert w[0..|first|] == first && w[|first|..|w|] == rest;
    PartOf(data, p, w, 0, |first|);
    PartOf(data, p, w, |first|, |w|);
  }

  /** The first option of a text, and the text behind it. */
  lemma {:induction false} FirstReadBack(data: string, e: nat, p: nat, options: seq<OackOption>, w: string)
    returns (o: OackOption, more: seq<OackOption>, q: nat, rest: string)
    requires AllWritable(options) && options != [] && w == Written(options)
    requires p + |w| == e <= |data| && data[p..p + |w|] == w
    ensures options == [o] + more && |more| < |options| && !o.Unknown? && AllWritable(more)
    ensures OptionAt(data, e, p) == (o, q) && !AtEnd(data, e, p)
    ensures rest == Written(more) && q + |rest| == e && data[q..q + |rest|] == rest
  {
    var first;
    o, more, first, rest := WrittenCut(data, e, p, options, w);
    OptionReadBack(data, e, p, o, first);
    q := p + |first|;
  }

  lemma {:induction false} FromReadBack(data: string, e: nat, p: nat, options: seq<OackOption>, w: string)
    requires AllWritable(options) && w == Written(options) && p + |w| == e <= |data| && data[p..p + |w|] == w
    ensures OptionsFrom(data, e, p) == options
    decreases |options|
  {
    if options == [] {
      assert AtEnd(data, e, p);
    } else {
      var o, more, q, rest := FirstReadBack(data, e, p, options, w);
      FromStep(data, e, p, o, q);
      FromReadBack(data, e, q, more, rest);
    }
  }

  lemma {:induction false} StartReadBack(data: string, options: seq<OackOption>, w: string)
    requires AllWritable(options) && w == Written(options) && |w| <= |data| && |w| <= TFTP_MAX_PACKET && data[0..|w|] == w
    ensures OptionsIn(data, |w| + 10) == options
  {
    FromReadBack(data, |w|, 0, options, w);
    InText(data, |w|);
  }

  /** The options of a datagram whose text is e characters long. */
  lemma {:induction false} InText(data: string, e: nat)
    requires e <= TFTP_MAX_PACKET
    ensures OptionsIn(data, e + 10) == OptionsFrom(data, e, 0)
  {
    UnfoldOptions(data, e + 10);
    assert OackLength(e + 10) == e;
  }

  /** What a server writes is read back, whatever lies behind it in memory. */
  lemma {:induction false} WrittenReadBack(options: seq<OackOption>, behind: string)
    requires AllWritable(options) && |Written(options)| <= TFTP_MAX_PACKET
    ensures OptionsIn(Written(options) + behind, |Written(options)| + 10) == options
  {
    var text, data := Written(options), Written(options) + behind;
    assert data[0..|text|] == text;
    StartReadBack(data, options, text);
  }

  /** The names, and how a number follows them. */
  lemma {:induction false} OptionTexts(n: nat)
    requires n < 0x8000_0000
    ensures WrittenOption(Blksize(n)) == "blksize\0" + Digits(n) + "\0"
    ensures WrittenOption(Tsize(n)) == "tsize\0" + Digits(n) + "\0"
  {
    assert "blksize" + ['\0'] == "blksize\0" && "tsize" + ['\0'] == "tsize\0";
  }

  lemma {:induction false} OneOptionIsShort(o: OackOption)
    requires Writable(o)
    ensures |Written([o])| <= 19
  {
    assert Written([o]) == WrittenOption(o) + "";
    DigitsBound(o.value, 10);
  }

  // ------------------------------------------------------------- what lies behind a datagram

  /** Two memories that agree up to e, where the text ends with a NUL. */
  predicate Agree(a: string, b: string, e: nat) {
    0 < e <= |a| && e <= |b| && a[..e] == b[..e] && a[e - 1] == '\0'
  }

  lemma {:induction false} SameSlice(a: string, b: string, e: nat, p: nat, q: nat)
    requires Agree(a, b, e) && p <= q <= e
    ensures a[p..q] == b[p..q]
  {
    var here, there := a[p..q], b[p..q];
    forall k | 0 <= k < q - p ensures here[k] == there[k] { assert a[..e][p + k] == b[..e][p + k]; }
  }

  lemma {:induction false} NamesAgree(a: string, b: string, e: nat, p: nat, name: string)
    requires Agree(a, b, e) && p < e && '\0' !in name && IsNamed(a, p, name)
    ensures IsNamed(b, p, name) && p + |name| < e
  {
    forall k | p <= k < p + |name| ensures a[k] != '\0' { CharOf(a, p, name, k - p); }
    SameSlice(a, b, e, p, p + |name|);
    assert a[..e][p + |name|] == b[..e][p + |name|];
  }

  lemma {:induction false} NumbersAgree(a: string, b: string, e: nat, p: nat)
    requires Agree(a, b, e) && p < e
    ensures NumberAt(a, p) == NumberAt(b, p) && NumberAt(a, p).1 < e
  {
    RunsAgree(a, b, e, p);
    var q := RunEnd(a, p);
    SameSlice(a, b, e, p, q);
  }

  lemma {:induction false} RunsAgree(a: string, b: string, e: nat, p: nat)
    requires Agree(a, b, e) && p < e
    ensures RunEnd(a, p) == RunEnd(b, p) < e
    decreases e - p
  {
    assert a[p] == a[..e][p] == b[..e][p] == b[p];
    if IsDigit(a[p]) { RunsAgree(a, b, e, p + 1); }
  }

  lemma {:induction false} BehindAgrees(a: string, b: string, e: nat, p: nat)
    requires Agree(a, b, e) && p <= e
    ensures Behind(a, e, p) == Behind(b, e, p) <= e
    decreases e - p
  {
    if p < e {
      assert a[p] == a[..e][p] == b[..e][p] == b[p];
      if a[p] != '\0' { BehindAgrees(a, b, e, p + 1); }
    }
  }

  /** A number that would lie behind the datagram makes the client refuse it. */
  lemma {:induction false} NumberBehind(a: string, e: nat, p: nat)
    requires !AtEnd(a, e, p) && !OptionAt(a, e, p).0.Unknown? && p + |Name(OptionAt(a, e, p).0)| + 1 >= e
    ensures !AllAcceptable(OptionsFrom(a, e, p))
  {
    UnfoldOption(a, e, p);
    var (o, q) := OptionAt(a, e, p);
    var all := OptionsFrom(a, e, p);
    assert all[0] == o;
    if q == e {
      assert o.value == -1;
    } else {
      assert all[1] == Unknown;
    }
  }

  /** After an acceptable option come acceptable ones. */
  lemma {:induction false} RestAcceptable(a: string, e: nat, p: nat)
    requires !AtEnd(a, e, p) && AllAcceptable(OptionsFrom(a, e, p))
    ensures !OptionAt(a, e, p).0.Unknown? && AllAcceptable(OptionsFrom(a, e, OptionAt(a, e, p).1))
  {
    var (o, q) := OptionAt(a, e, p);
    var all := OptionsFrom(a, e, p);
    assert Acceptable(all[0]);
    var more := OptionsFrom(a, e, q);
    forall i | 0 <= i < |more| ensures Acceptable(more[i]) { assert more[i] == all[i + 1]; }
  }

  lemma {:induction false} OptionAgrees(a: string, b: string, e: nat, p: nat)
    requires Agree(a, b, e) && p < e && !OptionAt(a, e, p).0.Unknown? && p + |Name(OptionAt(a, e, p).0)| + 1 < e
    ensures OptionAt(b, e, p) == OptionAt(a, e, p) && OptionAt(a, e, p).1 <= e
  {
    UnfoldOption(a, e, p);
    var o := OptionAt(a, e, p).0;
    NamesAgree(a, b, e, p, Name(o));
    var start := p + |Name(o)| + 1;
    NumbersAgree(a, b, e, start);
    BehindAgrees(a, b, e, NumberAt(a, start).1);
    OptionIs(b, e, p, o, start, NumberAt(b, start).1, OptionAt(a, e, p).1);
  }

  /** A datagram that ends with a NUL is accepted or refused, and read, for what
      is in it: the client looks behind it only to refuse it. */
  lemma {:induction false} FromAgrees(a: string, b: string, e: nat, p: nat)
    requires Agree(a, b, e) && p <= e && AllAcceptable(OptionsFrom(a, e, p))
    ensures OptionsFrom(b, e, p) == OptionsFrom(a, e, p)
    decreases e - p
  {
    if p < e {
      assert a[p] == a[..e][p] == b[..e][p] == b[p];
      if a[p] != '\0' {
        RestAcceptable(a, e, p);
        if p + |Name(OptionAt(a, e, p).0)| + 1 >= e { NumberBehind(a, e, p); }
        OptionAgrees(a, b, e, p);
        FromAgrees(a, b, e, OptionAt(a, e, p).1);
      }
    }
  }

  lemma {:induction false} BehindIsNoMatter(a: string, b: string, e: nat)
    requires Agree(a, b, e) && e <= TFTP_MAX_PACKET && AllAcceptable(OptionsIn(a, e + 10))
    ensures OptionsIn(b, e + 10) == OptionsIn(a, e + 10)
  {
    InText(a, e);
    InText(b, e);
    FromAgrees(a, b, e, 0);
  }

  /** A text longer than the client's packets is refused, and so is one that its
      length puts before the header. */
  lemma {:induction false} TooLong(data: string, udpLen: nat)
    requires udpLen < 10 || 1442 < udpLen < 0x10000
    ensures OptionsIn(data, udpLen) == [Unknown]
  {
    UnfoldOptions(data, udpLen);
    assert OackLength(udpLen) == if udpLen < 10 then udpLen + 0xFFF6 else udpLen - 10;
  }

  /** A NUL in place of a name ends the options. */
  lemma {:induction false} NoMoreText(data: string, udpLen: nat)
    requires 10 <= udpLen <= 1442 && (data == "" || data[0] == '\0')
    ensures OptionsIn(data, udpLen) == []
  {
    UnfoldOptions(data, udpLen);
    assert OackLength(udpLen) == udpLen - 10;
  }

  /** Any name but the two is refused. RFC 2347 leaves the case of names open;
      this client does not. */
  lemma {:induction false} OtherName(data: string, udpLen: nat)
    requires 10 < udpLen <= 1442 && data != "" && data[0] != '\0'
    requires !("blksize\0" <= data) && !("tsize\0" <= data) && data != "blksize" && data != "tsize"
    ensures OptionsIn(data, udpLen) == [Unknown]
  {
    UnfoldOptions(data, udpLen);
    assert OackLength(udpLen) == udpLen - 10;
    UnfoldOption(data, udpLen - 10, 0);
    NamedStarts(data, "blksize");
    NamedStarts(data, "tsize");
    assert "blksize" + ['\0'] == "blksize\0" && "tsize" + ['\0'] == "tsize\0";
  }

  lemma {:induction false} NamedStarts(data: string, name: string)
    ensures IsNamed(data, 0, name) ==> name + ['\0'] <= data || data == name
  {
    if IsNamed(data, 0, name) {
      assert data[..|name|] == data[0..|name|] == name;
      if |data| > |name| { assert data[..|name| + 1] == name + ['\0']; }
    }
  }
}
