/** The scanner that permutes argv while it runs. Its state between calls is
    related to the unpermuted reading of GetoptSpec: Total() is what the whole
    run will have found, and no call changes it except by reporting. */
module GetoptScanner {
  import opened Folding
  import opened GetoptSpec
  import opened Options
  import Rotation

  class Scanner {
    const cfg: Config
    const argv: array<string>
    var optind: nat
    var optarg: Option<string>
    var optopt: int
    var longind: nat
    var flags: map<nat, int>
    var initialized: bool
    var firstNonopt: nat
    var lastNonopt: nat
    var nextchar: Option<string>

    constructor (cfg: Config, argv: array<string>)
      requires Supported(cfg) && argv.Length >= 1
      ensures Valid() && this.cfg == cfg && this.argv == argv
      ensures Total() == Parse(cfg, argv[1..])
    {
      this.cfg, this.argv := cfg, argv;
      optind, optarg, optopt, longind, flags := 1, None, '?' as int, 0, map[];
      initialized, firstNonopt, lastNonopt, nextchar := false, 0, 0, None;
      new;
      Unfold(cfg, "", argv[1..]);
    }

    // ------------------------------------------------------- the state, read back

    ghost predicate Fresh() reads this {
      optind == 0 || !initialized
    }

    ghost function Pos(): nat reads this {
      if optind == 0 then 1 else optind
    }

    ghost function First(): nat reads this {
      if Fresh() || firstNonopt > optind then Pos() else firstNonopt
    }

    ghost function Last(): nat reads this {
      if Fresh() || lastNonopt > optind then Pos() else lastNonopt
    }

    /** What is left of a cluster of short options that is being read. */
    ghost function Cluster(): string reads this {
      if Fresh() || nextchar.None? then "" else nextchar.value
    }

    /** Elements below optind are options or skipped arguments. A caller may set
        optind back, or to 0. */
    ghost predicate InRange() reads this {
      && Supported(cfg)
      && 1 <= argv.Length && Pos() <= argv.Length
      && (!Fresh() ==> 1 <= firstNonopt <= lastNonopt <= argv.Length)
    }

    /** Between calls, a cluster that is being read is the element at optind. */
    ghost predicate Valid() reads this, argv {
      && InRange()
      && (Cluster() != "" ==> lastNonopt <= optind < argv.Length && InCluster(cfg, argv[optind]))
    }

    /** What the whole run will have found: the options done and still to be
        read, and the arguments skipped and still to be skipped. */
    ghost function Total(): Parsed
      requires InRange()
      reads this, argv
    {
      TotalOf(cfg, argv[..], First(), Last(), Pos(), Cluster())
    }

    /** The call reported e: its code, the argument, and the variables set. */
    ghost predicate Reported(e: Event, code: int, optopt0: int, longind0: nat, flags0: map<nat, int>)
      reads this
    {
      && code == e.code && optarg == e.arg
      && optopt == e.badOption.GetOr(optopt0)
      && longind == e.index.GetOr(longind0)
      && flags == FlagsAfter(cfg, flags0, e)
    }

    // -------------------------------------------------------------- the operations

    /** Moves the options [lastNonopt..optind) in front of the skipped
        arguments [firstNonopt..lastNonopt). */
    method Exchange()
      requires 1 <= firstNonopt < lastNonopt < optind <= argv.Length
      modifies this`firstNonopt, this`lastNonopt, argv
      ensures firstNonopt == old(firstNonopt) + (optind - old(lastNonopt)) && lastNonopt == optind
      ensures argv[..] == Rotation.Rotated(old(argv[..]), old(firstNonopt), old(lastNonopt), optind)
    {
      var _ := Rotation.Rotate(argv, firstNonopt, lastNonopt, optind);
      firstNonopt, lastNonopt := firstNonopt + (optind - lastNonopt), optind;
    }

    /** Brings the options found since the last skipped argument to the front. */
    method Settle()
      requires 1 <= firstNonopt <= lastNonopt <= optind <= argv.Length
      modifies this`firstNonopt, this`lastNonopt, argv
      ensures 1 <= firstNonopt <= lastNonopt == optind
      ensures argv[0] == old(argv[0])
      ensures TotalOf(cfg, argv[..], firstNonopt, lastNonopt, optind, "")
           == old(TotalOf(cfg, argv[..], firstNonopt, lastNonopt, optind, ""))
    {
      ghost var was, first, last := argv[..], firstNonopt, lastNonopt;
      if firstNonopt != lastNonopt && lastNonopt != optind {
        Exchange();
      } else if lastNonopt != optind {
        firstNonopt := optind;
        assert argv[..] == was;
      }
      lastNonopt := optind;
      TotalSettled(cfg, was, first, last, optind, argv[..], firstNonopt);
      assert argv[0] == argv[..][0];
    }

    /** Skips arguments; they join those skipped before. */
    method SkipArguments()
      requires 1 <= firstNonopt <= lastNonopt == optind <= argv.Length
      modifies this`optind, this`lastNonopt
      ensures firstNonopt <= lastNonopt == optind <= argv.Length
      ensures optind < argv.Length ==> IsOption(argv[optind])
      ensures TotalOf(cfg, argv[..], firstNonopt, lastNonopt, optind, "")
           == old(TotalOf(cfg, argv[..], firstNonopt, lastNonopt, optind, ""))
    {
      ghost var start := optind;
      while optind < argv.Length && !IsOption(argv[optind])
        invariant start <= optind <= argv.Length
        invariant forall k :: start <= k < optind ==> !IsOption(argv[k])
      {
        optind := optind + 1;
      }
      lastNonopt := optind;
      TotalSkipped(cfg, argv[..], firstNonopt, start, optind);
    }

    /** The element "--" is an option; everything after it is an argument. */
    method PassTerminator()
      requires 1 <= firstNonopt <= lastNonopt == optind < argv.Length && argv[optind] == "--"
      modifies this`optind, this`firstNonopt, this`lastNonopt, argv
      ensures 1 <= firstNonopt <= lastNonopt == optind == argv.Length && argv[0] == old(argv[0])
      ensures TotalOf(cfg, argv[..], firstNonopt, lastNonopt, optind, "")
           == old(TotalOf(cfg, argv[..], firstNonopt, lastNonopt, optind, ""))
    {
      ghost var was, first, p := argv[..], firstNonopt, optind;
      optind := optind + 1;
      if firstNonopt != lastNonopt && lastNonopt != optind {
        Exchange();
      } else if firstNonopt == lastNonopt {
        firstNonopt := optind;
        assert argv[..] == was;
      }
      lastNonopt := argv.Length;
      optind := argv.Length;
      TerminatorPassed(cfg, was, first, p, argv[..]);
      assert argv[0] == argv[..][0];
    }

    /** The option element at optind has been entered. */
    ghost predicate AtElement(total: Parsed) reads this, argv {
      && Supported(cfg) && initialized && nextchar.Some?
      && 1 <= firstNonopt <= lastNonopt <= optind < argv.Length && IsOption(argv[optind])
      && if IsLong(cfg, argv[optind]) then
           && argv[optind] != "--" && nextchar.value == argv[optind][2..]
           && total == TotalOf(cfg, argv[..], firstNonopt, lastNonopt, optind, "")
         else
           && nextchar.value != ""
           && total == TotalOf(cfg, argv[..], firstNonopt, lastNonopt, optind, nextchar.value)
    }

    /** The state after a report, with total still to come. */
    ghost predicate Between(total: Parsed) reads this, argv {
      && Supported(cfg) && initialized
      && 1 <= firstNonopt <= lastNonopt <= optind <= argv.Length
      && (nextchar.GetOr("") != "" ==> optind < argv.Length && InCluster(cfg, argv[optind]))
      && total == TotalOf(cfg, argv[..], firstNonopt, lastNonopt, optind, nextchar.GetOr(""))
    }

    /** Initializes on the first call, and gives the bounds of the skipped
        arguments rational values if the caller moved optind back. */
    method Begin(ghost total: Parsed)
      requires Valid() && total == Total()
      modifies this`optind, this`optarg, this`firstNonopt, this`lastNonopt, this`nextchar, this`initialized
      ensures optarg == None
      ensures if nextchar.GetOr("") == "" then Between(total) else AtElement(total)
    {
      optarg := None;
      if optind == 0 || !initialized {
        if optind == 0 { optind := 1; }
        firstNonopt, lastNonopt, nextchar := optind, optind, None;
        initialized := true;
      }
      if nextchar.GetOr("") == "" {
        if lastNonopt > optind { lastNonopt := optind; }
        if firstNonopt > optind { firstNonopt := optind; }
      }
    }

    /** Sets optind to the first of the arguments that were skipped. */
    method BackUp(ghost total: Parsed)
      requires Between(total) && nextchar.GetOr("") == "" && lastNonopt == optind == argv.Length
      modifies this`optind
      ensures Valid()
      ensures argv[1..] == total.opts + total.rest && optind == 1 + |total.opts| && total.events == []
    {
      TotalEnded(cfg, argv[..], firstNonopt);
      if firstNonopt != lastNonopt { optind := firstNonopt; }
    }

    /** Moves on to the next option element, or ends the scan with optind at
        the first argument. */
    method Advance(ghost total: Parsed) returns (done: bool)
      requires Between(total) && nextchar.GetOr("") == ""
      modifies this`optind, this`firstNonopt, this`lastNonopt, this`nextchar, argv
      ensures argv[0] == old(argv[0])
      ensures done ==> Valid()
      ensures done ==> argv[1..] == total.opts + total.rest && optind == 1 + |total.opts| && total.events == []
      ensures !done ==> AtElement(total)
    {
      Settle();
      SkipArguments();
      if optind != argv.Length && argv[optind] == "--" {
        PassTerminator();
      }
      if optind == argv.Length {
        BackUp(total);
        return true;
      }
      ElementStep(cfg, argv[..], firstNonopt, lastNonopt, optind);
      nextchar := Some(argv[optind][if IsLong(cfg, argv[optind]) then 2 else 1..]);
      done := false;
    }

    /** The element after the one at optind, if any. */
    ghost function Next(): Option<string>
      reads this, argv
    {
      if optind + 1 < argv.Length then Some(argv[optind + 1]) else None
    }

    /** Reads the next letter of the cluster at optind. */
    method DecodeShort() returns (code: int)
      requires optarg == None && optind < argv.Length && nextchar.Some? && nextchar.value != ""
      modifies this`optind, this`optarg, this`optopt, this`nextchar
      ensures var r := ShortEvent(cfg, old(nextchar).value, old(Next()));
        && Reported(r.event, code, old(optopt), old(longind), old(flags)) && nextchar.GetOr("") == r.left
        && optind == old(optind) + (if r.left != "" then 0 else if r.takesNext then 2 else 1)
    {
      var c := nextchar.value[0];
      var temp := MyIndex(cfg.optstring, c);
      nextchar := Some(nextchar.value[1..]);
      // Increment optind when the last letter of its element is processed.
      if nextchar.value == "" { optind := optind + 1; }
      if temp.None? || c == ':' {
        optopt := c as int;
        return '?' as int;
      }
      code := c as int;
      if |temp.value| >= 2 && temp.value[1] == ':' {
        code := TakeArgument(c, |temp.value| >= 3 && temp.value[2] == ':');
      }
    }

    /** Takes the argument of the letter c: the rest of its element, or the next
        element if the argument is not optional. */
    method TakeArgument(c: char, optional: bool) returns (code: int)
      requires optarg == None && nextchar.Some? && optind <= argv.Length && cfg.optstring != ""
      requires nextchar.value != "" ==> optind < argv.Length
      modifies this`optind, this`optarg, this`optopt, this`nextchar
      ensures nextchar == None
      ensures var rest, missing := old(nextchar), old(nextchar).value == "" && !optional && old(optind) == argv.Length;
        && code == (if missing then MissingCode(cfg) else c as int)
        && optopt == (if missing then c as int else old(optopt))
        && optarg == (if rest.value != "" then rest else if optional || missing then None else Some(argv[old(optind)]))
        && optind == old(optind) + (if optarg.Some? then 1 else 0)
    {
      code := c as int;
      if optional {
        if nextchar.value != "" {
          optarg := nextchar;
          optind := optind + 1;
        } else {
          optarg := None;
        }
      } else if nextchar.value != "" {
        optarg := nextchar;
        optind := optind + 1;
      } else if optind == argv.Length {
        optopt := c as int;
        code := if cfg.optstring[0] == ':' then ':' as int else '?' as int;
      } else {
        optarg := Some(argv[optind]);
        optind := optind + 1;
      }
      nextchar := None;
    }

    /** Reads the long option at optind; nextchar is past its two dashes. */
    method DecodeLong() returns (code: int)
      requires optarg == None && optind < argv.Length && nextchar.Some? && cfg.longopts.Some?
      modifies this`optind, this`optarg, this`optopt, this`longind, this`flags, this`nextchar
      ensures var (e, takesNext) := LongEvent(cfg, old(nextchar).value, old(Next()));
        && Reported(e, code, old(optopt), old(longind), old(flags)) && nextchar == Some("")
        && optind == old(optind) + (if takesNext then 2 else 1)
    {
      var s := nextchar.value;
      var nameend := 0;
      while nameend < |s| && s[nameend] != '='
        invariant nameend <= |s| && '=' !in s[..nameend]
      {
        nameend := nameend + 1;
      }
      NameEndIs(s, nameend);
      var found := FindLong(cfg.longopts.value, s[..nameend]);
      nextchar := Some("");
      optind := optind + 1;
      if !found.Found? {
        optopt := 0;
        return '?' as int;
      }
      var o := cfg.longopts.value[found.index];
      if nameend < |s| {
        if o.hasArg != NO_ARGUMENT {
          optarg := Some(s[nameend + 1..]);
        } else {
          optopt := o.val;
          return '?' as int;
        }
      } else if o.hasArg == REQUIRED_ARGUMENT {
        if optind < argv.Length {
          optarg := Some(argv[optind]);
          optind := optind + 1;
        } else {
          optopt := o.val;
          return if cfg.optstring != "" && cfg.optstring[0] == ':' then ':' as int else '?' as int;
        }
      }
      longind := found.index;
      if o.flag.Some? {
        flags := flags[o.flag.value := o.val];
        return 0;
      }
      return o.val;
    }

    lemma BetweenIsTotal(total: Parsed)
      requires Between(total)
      ensures Valid() && !Fresh() && Total() == total
    {}

    /** Decodes the long option at optind. */
    method LongElement(ghost total: Parsed) returns (code: int)
      requires AtElement(total) && optarg == None && IsLong(cfg, argv[optind])
      modifies this`optind, this`optarg, this`optopt, this`longind, this`flags, this`nextchar
      ensures total.events != [] && code != -1 && Reported(total.events[0], code, old(optopt), old(longind), old(flags))
      ensures Valid() && Total() == total.(events := total.events[1..])
    {
      ElementStep(cfg, argv[..], firstNonopt, lastNonopt, optind);
      code := DecodeLong();
      BetweenIsTotal(total.(events := total.events[1..]));
    }

    /** Decodes the next short option of the element at optind. */
    method ClusterElement(ghost total: Parsed) returns (code: int)
      requires AtElement(total) && optarg == None && !IsLong(cfg, argv[optind])
      modifies this`optind, this`optarg, this`optopt, this`longind, this`flags, this`nextchar
      ensures total.events != [] && code != -1 && Reported(total.events[0], code, old(optopt), old(longind), old(flags))
      ensures Valid() && Total() == total.(events := total.events[1..])
    {
      ClusterStep(cfg, argv[..], firstNonopt, lastNonopt, optind, nextchar.value);
      code := DecodeShort();
      BetweenIsTotal(total.(events := total.events[1..]));
    }

    /** One call: reports the next option in the order in which they stand in
        argv, or -1 when there are no more. */
    method GetoptInternal() returns (code: int)
      requires Valid()
      modifies this, argv
      ensures Valid() && argv[0] == old(argv[0])
      ensures var t := old(Total());
        if code == -1 then t.events == [] && argv[1..] == t.opts + t.rest && optind == 1 + |t.opts|
        else t.events != [] && Total() == t.(events := t.events[1..]) && Reported(t.events[0], code, old(optopt), old(longind), old(flags))
    {
      ghost var total := Total();
      Begin(total);
      if nextchar.GetOr("") == "" {
        var done := Advance(total);
        if done { return -1; }
      }
      assert optopt == old(optopt) && longind == old(longind) && flags == old(flags);
      if cfg.longopts.Some? && argv[optind][1] == '-' {
        code := LongElement(total);
      } else {
        code := ClusterElement(total);
      }
    }

    /** The call as its caller sees it. */
    method Getopt(ghost t: Parsed) returns (code: int)
      requires WillFind(this, t)
      modifies this, argv
      ensures argv.Length > 0 && argv[0] == old(argv[0])
      ensures code == -1 ==> Valid() && t.events == [] && argv[1..] == t.opts + t.rest && optind == 1 + |t.opts|
      ensures code != -1 ==> t.events != [] && WillFind(this, t.(events := t.events[1..]))
      ensures code != -1 ==> code == t.events[0].code && optarg == t.events[0].arg
    {
      Means(this, t);
      code := GetoptInternal();
      if code != -1 { Means(this, t.(events := t.events[1..])); }
    }
  }

  ghost predicate WillFindIs(v: bool, sc: Scanner, t: Parsed) reads sc, sc.argv {
    forall b {:trigger Key(b)} :: Key(b) ==> v == (sc.Valid() && sc.Total() == t)
  }

  /** The run of sc will have found t; kept folded for callers of Getopt, see Means. */
  ghost predicate WillFind(sc: Scanner, t: Parsed) reads sc, sc.argv {
    assert WillFindIs(sc.Valid() && sc.Total() == t, sc, t);
    var v :| WillFindIs(v, sc, t);
    v
  }

  lemma {:induction false} Means(sc: Scanner, t: Parsed)
    ensures WillFind(sc, t) <==> sc.Valid() && sc.Total() == t
  {
    assert WillFindIs(WillFind(sc, t), sc, t);
    assert Key(true);
  }

  method MyIndex(str: string, chr: char) returns (t: Option<string>)
    ensures t == Lookfor(str, chr)
  {
    var i := 0;
    while i < |str|
      invariant i <= |str| && Lookfor(str, chr) == Lookfor(str[i..], chr)
    {
      if str[i] == chr { return Some(str[i..]); }
      assert str[i..][1..] == str[i + 1..];
      i := i + 1;
    }
    return None;
  }

  lemma {:induction false} NameEndIs(s: string, n: nat)
    requires n <= |s| && '=' !in s[..n] && (n < |s| ==> s[n] == '=')
    ensures n == NameEnd(s)
  {
    if n > 0 {
      assert s[0] == s[..n][0];
      assert s[..n][1..] == s[1..][..n - 1];
      NameEndIs(s[1..], n - 1);
    }
  }

  /** Tests all long options for an exact or abbreviated name. */
  method FindLong(opts: seq<LongOption>, name: string) returns (r: Lookup)
    ensures r == Resolve(opts, name)
  {
    var pfound: Option<nat> := None;
    var ambig := false;
    ghost var second: nat := 0;
    var i := 0;
    while i < |opts|
      invariant i <= |opts|
      invariant forall k :: 0 <= k < i ==> !IsExact(opts, name, k)
      invariant pfound.None? ==> !ambig && forall k :: 0 <= k < i ==> !IsMatch(opts, name, k)
      invariant pfound.Some? ==> pfound.value < i && IsMatch(opts, name, pfound.value)
      invariant pfound.Some? && !ambig ==> forall k :: 0 <= k < i && IsMatch(opts, name, k) ==> k == pfound.value
      invariant ambig ==> IsMatch(opts, name, second) && second != pfound.value
    {
      if name <= opts[i].name {
        if |name| == |opts[i].name| {
          assert IsFirstExact(opts, name, i);
          return Found(i);
        } else if pfound.None? {
          pfound := Some(i);
        } else {
          ambig, second := true, i;
        }
      }
      i := i + 1;
    }
    if ambig { return Ambiguous; }
    if pfound.None? { return Unknown; }
    assert IsOnlyMatch(opts, name, pfound.value);
    return Found(pfound.value);
  }

  /** The first step into an option element, seen from the whole argv. */
  lemma {:induction false} ElementStep(cfg: Config, a: seq<string>, f: nat, l: nat, p: nat)
    requires Supported(cfg) && 1 <= f <= l <= p < |a| && IsOption(a[p]) && a[p] != "--"
    ensures !IsLong(cfg, a[p]) ==> TotalOf(cfg, a, f, l, p, "") == TotalOf(cfg, a, f, l, p, a[p][1..])
    ensures IsLong(cfg, a[p]) ==>
      var (e, takesNext) := LongEvent(cfg, a[p][2..], if p + 1 < |a| then Some(a[p + 1]) else None);
      var t := TotalOf(cfg, a, f, l, if takesNext then p + 2 else p + 1, "");
      e.code != -1 && TotalOf(cfg, a, f, l, p, "") == t.(events := [e] + t.events)
  {
    Unfold(cfg, "", a[p..]);
    Unfold(cfg, a[p][1..], a[p..]);
    if IsLong(cfg, a[p]) {
      var next := if p + 1 < |a| then Some(a[p + 1]) else None;
      assert Head(a[p..][1..]) == next;
      var (e, takesNext) := LongEvent(cfg, a[p][2..], next);
      TotalTaken(cfg, a, f, l, p, if takesNext then 2 else 1, "", e);
    }
  }

  /** One letter of a cluster, seen from the whole argv. */
  lemma {:induction false} ClusterStep(cfg: Config, a: seq<string>, f: nat, l: nat, p: nat, s: string)
    requires 1 <= f <= l <= p < |a| && s != ""
    ensures var next := if p + 1 < |a| then Some(a[p + 1]) else None;
      var r := ShortEvent(cfg, s, next);
      var t := if r.left == "" then TotalOf(cfg, a, f, l, if r.takesNext then p + 2 else p + 1, "")
               else TotalOf(cfg, a, f, l, p, r.left);
      TotalOf(cfg, a, f, l, p, s) == t.(events := [r.event] + t.events)
  {
    var w := a[p..];
    var next := if p + 1 < |a| then Some(a[p + 1]) else None;
    assert Head(w[1..]) == next;
    var r := ShortEvent(cfg, s, next);
    Unfold(cfg, s, w);
    Unfold(cfg, r.left, w);
    if r.left == "" {
      TotalTaken(cfg, a, f, l, p, if r.takesNext then 2 else 1, s, r.event);
    } else {
      SameTotal(cfg, a, f, l, p, s, r);
    }
  }

  lemma {:induction false} SameTotal(cfg: Config, a: seq<string>, f: nat, l: nat, p: nat, s: string, r: Short)
    requires 1 <= f <= l <= p <= |a|
    requires var t := Reading(cfg, r.left, a[p..]); Reading(cfg, s, a[p..]) == t.(events := [r.event] + t.events)
    ensures var t := TotalOf(cfg, a, f, l, p, r.left); TotalOf(cfg, a, f, l, p, s) == t.(events := [r.event] + t.events)
  {}

  lemma {:induction false} TotalTaken(cfg: Config, a: seq<string>, f: nat, l: nat, p: nat, k: nat, s: string, e: Event)
    requires 1 <= f <= l <= p && p + k <= |a|
    requires ParseFrom(cfg, s, a[p..]) == Push(e, a[p..][..k], ParseFrom(cfg, "", a[p..][k..]))
    ensures var t := TotalOf(cfg, a, f, l, p + k, "");
      TotalOf(cfg, a, f, l, p, s) == t.(events := [e] + t.events)
  {
    Unfold(cfg, s, a[p..]);
    Unfold(cfg, "", a[p + k..]);
    assert a[p..][k..] == a[p + k..];
    assert a[l..p] + a[p..][..k] == a[l..p + k];
  }

  ghost predicate IsReading(cfg: Config, s: string, w: seq<string>, r: Parsed) {
    forall b {:trigger Key(b)} :: Key(b) ==> r == ParseFrom(cfg, s, w)
  }

  /** ParseFrom, kept folded so that proofs about the state of the scanner do
      not follow it into the elements; Unfold gives its value. */
  ghost function Reading(cfg: Config, s: string, w: seq<string>): Parsed {
    assert IsReading(cfg, s, w, ParseFrom(cfg, s, w));
    var r :| IsReading(cfg, s, w, r);
    r
  }

  lemma {:induction false} Unfold(cfg: Config, s: string, w: seq<string>)
    ensures Reading(cfg, s, w) == ParseFrom(cfg, s, w)
  {
    assert IsReading(cfg, s, w, Reading(cfg, s, w));
    assert Key(true);
  }

  /** The reading of a whole argv: options a[1..f] and a[l..p], skipped
      arguments a[f..l], and the part from p on still to be read. */
  ghost function TotalOf(cfg: Config, a: seq<string>, f: nat, l: nat, p: nat, s: string): Parsed
    requires 1 <= f <= l <= p <= |a|
  {
    var r := Reading(cfg, s, a[p..]);
    Parsed(r.events, a[1..f] + a[l..p] + r.opts, a[f..l] + r.rest)
  }

  lemma {:induction false} TotalSettled(cfg: Config, a: seq<string>, f: nat, l: nat, p: nat, b: seq<string>, f': nat)
    requires 1 <= f <= l <= p <= |a|
    requires b == if f != l && l != p then Rotation.Rotated(a, f, l, p) else a
    requires f' == if f != l && l != p then f + (p - l) else if l != p then p else f
    ensures |b| == |a| && b[0] == a[0] && TotalOf(cfg, b, f', p, p, "") == TotalOf(cfg, a, f, l, p, "")
  {
    if f != l && l != p {
      Rotation.RotatedParts(a, f, l, p);
      assert b[1..f'] == b[..f][1..] + b[f..f'];
      assert b[p..p] == [];
    } else if l != p {
      assert a[1..p] == a[1..f] + a[l..p];
    }
  }

  lemma {:induction false} Assoc(a: seq<string>, b: seq<string>, c: seq<string>)
    ensures a + (b + c) == a + b + c
  {}

  lemma {:induction false} TotalSkipped(cfg: Config, a: seq<string>, f: nat, l: nat, p: nat)
    requires 1 <= f <= l <= p <= |a|
    requires forall k :: l <= k < p ==> !IsOption(a[k])
    ensures TotalOf(cfg, a, f, p, p, "") == TotalOf(cfg, a, f, l, l, "")
  {
    Unfold(cfg, "", a[l..]);
    Unfold(cfg, "", a[p..]);
    ReadArguments(cfg, a[l..], p - l);
    assert a[l..][p - l..] == a[p..];
    Assoc(a[f..l], a[l..][..p - l], Reading(cfg, "", a[p..]).rest);
    assert a[f..l] + a[l..][..p - l] == a[f..p];
    assert a[l..l] == a[p..p];
  }

  lemma {:induction false} TotalEnded(cfg: Config, a: seq<string>, f: nat)
    requires 1 <= f <= |a|
    ensures TotalOf(cfg, a, f, |a|, |a|, "") == Parsed([], a[1..f], a[f..])
    ensures a[1..] == a[1..f] + a[f..]
  {
    Unfold(cfg, "", a[|a|..]);
  }

  /** The scan ends at a terminator, which joins the options before it. */
  lemma {:induction false} TerminatorPassed(cfg: Config, a: seq<string>, f: nat, p: nat, b: seq<string>)
    requires 1 <= f <= p < |a| && a[p] == "--"
    requires b == if f == p then a else Rotation.Rotated(a, f, p, p + 1)
    ensures |b| == |a| && b[0] == a[0] && TotalOf(cfg, b, f + 1, |b|, |b|, "") == TotalOf(cfg, a, f, p, p, "")
  {
    TerminatorRead(cfg, a[p..]);
    TerminatorMoved(a, f, p);
    TotalEnded(cfg, b, f + 1);
    assert a[p..][..1] == a[p..p + 1] && a[p..][1..] == a[p + 1..];
    assert a[1..f] + a[p..p] == a[1..f];
  }

  lemma {:induction false} TerminatorRead(cfg: Config, w: seq<string>)
    requires w != [] && w[0] == "--"
    ensures Reading(cfg, "", w) == Parsed([], w[..1], w[1..])
  {
    Unfold(cfg, "", w);
  }

  lemma TerminatorMoved(a: seq<string>, f: nat, p: nat)
    requires 1 <= f <= p < |a|
    ensures var b := Rotation.Rotated(a, f, p, p + 1);
      && b[0] == a[0] && b[1..f + 1] == a[1..f] + a[p..p + 1] && b[f + 1..] == a[f..p] + a[p + 1..]
    ensures f == p ==> a[1..p + 1] == a[1..f] + a[p..p + 1] && a[p + 1..] == a[f..p] + a[p + 1..]
  {
  }

  /** Leading arguments are passed over by a reading. */
  lemma {:induction false} ReadArguments(cfg: Config, w: seq<string>, k: nat)
    requires k <= |w| && forall i :: 0 <= i < k ==> !IsOption(w[i])
    ensures var p := ParseFrom(cfg, "", w[k..]);
      ParseFrom(cfg, "", w) == Parsed(p.events, p.opts, w[..k] + p.rest)
  {
    if k == 0 {
      assert w[0..] == w && w[..0] == [];
    } else {
      ReadArguments(cfg, w[1..], k - 1);
      assert w[1..][k - 1..] == w[k..];
      assert w[..k] == w[..1] + w[1..][..k - 1];
    }
  }

  /** A cluster element: an option that is not read as a long one. */
  ghost predicate InCluster(cfg: Config, a: string) {
    IsOption(a) && !IsLong(cfg, a)
  }

  /** A matched long option with a flag variable stores its value there. */
  ghost function FlagsAfter(cfg: Config, flags: map<nat, int>, e: Event): map<nat, int> {
    if e.index.Some? && cfg.longopts.Some? && e.index.value < |cfg.longopts.value| then
      var o := cfg.longopts.value[e.index.value];
      if o.flag.Some? then flags[o.flag.value := o.val] else flags
    else flags
  }
}
