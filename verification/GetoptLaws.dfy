/** What the reading of a command line guarantees, and the caller's loop. */
module GetoptLaws {
  import opened GetoptSpec
  import opened GetoptScanner
  import opened Options

  // -------------------------------------------------------------- the caller's loop

  /** The loop of a program that parses its command line, for a scanner whose
      run will find t. */
  method ParseAll(sc: Scanner, ghost t: Parsed) returns (reports: seq<(int, Option<string>)>)
    requires WillFind(sc, t) && sc.argv.Length > 0
    modifies sc, sc.argv
    ensures sc.argv[..] == [old(sc.argv[0])] + (t.opts + t.rest) && sc.optind == 1 + |t.opts|
    ensures |reports| == |t.events| && forall i :: 0 <= i < |reports| ==> reports[i] == (t.events[i].code, t.events[i].arg)
  {
    ghost var name, now := sc.argv[0], t;
    reports := [];
    while true
      invariant sc.argv[0] == name && WillFind(sc, now) && Collected(reports, t, now)
      decreases |now.events|
    {
      var c := sc.Getopt(now);
      if c == -1 { break; }
      CollectOne(reports, t, now);
      reports := reports + [(c, sc.optarg)];
      now := now.(events := now.events[1..]);
    }
    assert sc.argv[..] == [sc.argv[0]] + sc.argv[1..];
  }

  /** Of the reading t, now is still to come. */
  ghost predicate Collected(reports: seq<(int, Option<string>)>, t: Parsed, now: Parsed) {
    && |reports| <= |t.events| && now == t.(events := t.events[|reports|..])
    && forall i :: 0 <= i < |reports| ==> reports[i] == (t.events[i].code, t.events[i].arg)
  }

  lemma {:induction false} CollectOne(reports: seq<(int, Option<string>)>, t: Parsed, now: Parsed)
    requires Collected(reports, t, now) && now.events != []
    ensures Collected(reports + [(now.events[0].code, now.events[0].arg)], t, now.(events := now.events[1..]))
  {}

  /** Parsing a command line reports what a left-to-right reading of it would,
      and leaves the options first and the arguments from optind on. */
  method ParseCommandLine(cfg: Config, argv: array<string>) returns (reports: seq<(int, Option<string>)>, optind: nat)
    requires Supported(cfg) && argv.Length >= 1
    modifies argv
    ensures var p := Parse(cfg, old(argv[1..]));
      && argv[..] == [old(argv[0])] + (p.opts + p.rest)
      && optind == 1 + |p.opts|
      && |reports| == |p.events|
      && forall i :: 0 <= i < |reports| ==> reports[i] == (p.events[i].code, p.events[i].arg)
  {
    ghost var p := Parse(cfg, argv[1..]);
    var sc := new Scanner(cfg, argv);
    Means(sc, p);
    reports := ParseAll(sc, p);
    optind := sc.optind;
  }

  // ---------------------------------------------------------------- long names

  /** A name matches the options that it abbreviates; the exact one is its own. */
  lemma {:induction false} MatchMeaning(opts: seq<LongOption>, name: string, i: nat)
    ensures IsExact(opts, name, i) <==> i < |opts| && opts[i].name == name
    ensures IsMatch(opts, name, i) <==> i < |opts| && exists rest: string :: opts[i].name == name + rest
  {
    if IsMatch(opts, name, i) { assert opts[i].name == name + opts[i].name[|name|..]; }
  }

  lemma {:induction false} FirstExactExists(opts: seq<LongOption>, name: string, i: nat)
    requires IsExact(opts, name, i)
    ensures exists k :: IsFirstExact(opts, name, k)
  {
    if k: nat :| k < i && IsExact(opts, name, k) {
      FirstExactExists(opts, name, k);
    } else {
      assert IsFirstExact(opts, name, i);
    }
  }

  /** An exact name beats every abbreviation, and an abbreviation is accepted
      just when it fits one option. */
  lemma {:induction false} ResolveMeaning(opts: seq<LongOption>, name: string)
    ensures forall i :: Resolve(opts, name) == Found(i) <==>
        IsFirstExact(opts, name, i) || (IsOnlyMatch(opts, name, i) && !exists k :: IsExact(opts, name, k))
    ensures Resolve(opts, name) == Ambiguous <==>
        (exists i, j :: i != j && IsMatch(opts, name, i) && IsMatch(opts, name, j)) && !exists k :: IsExact(opts, name, k)
    ensures Resolve(opts, name) == Unknown <==> !exists i :: IsMatch(opts, name, i)
  {
    if k :| IsExact(opts, name, k) {
      FirstExactExists(opts, name, k);
      assert IsMatch(opts, name, k);
    } else if i :| IsMatch(opts, name, i) {
      if forall j :: IsMatch(opts, name, j) ==> j == i {
        assert IsOnlyMatch(opts, name, i);
      }
    }
  }

  // ------------------------------------------------------------ the stable partition

  /** w is a and b merged, each in its own order. */
  ghost predicate Interleaves(w: seq<string>, a: seq<string>, b: seq<string>) {
    if w == [] then a == [] && b == [] else
      || (a != [] && a[0] == w[0] && Interleaves(w[1..], a[1..], b))
      || (b != [] && b[0] == w[0] && Interleaves(w[1..], a, b[1..]))
  }

  lemma {:induction false} InterleavesPrefix(v: seq<string>, w: seq<string>, a: seq<string>, b: seq<string>)
    requires Interleaves(w, a, b)
    ensures Interleaves(v + w, v + a, b)
  {
    if v == [] {
      assert v + w == w && v + a == a;
    } else {
      InterleavesPrefix(v[1..], w, a, b);
      assert (v + w)[1..] == v[1..] + w && (v + a)[1..] == v[1..] + a;
    }
  }

  /** No element is lost, invented or reordered within its group. */
  lemma {:induction false} PartitionIsStable(cfg: Config, s: string, w: seq<string>)
    ensures var p := ParseFrom(cfg, s, w); Interleaves(w, p.opts, p.rest)
    decreases |w|, if s == "" && w != [] then |w[0]| else |s|
  {
    if w == [] {
    } else if s != "" {
      var r := ShortEvent(cfg, s, Head(w[1..]));
      var k := if r.takesNext then 2 else 1;
      if r.left == "" {
        PartitionIsStable(cfg, "", w[k..]);
        var q := ParseFrom(cfg, "", w[k..]);
        InterleavesPrefix(w[..k], w[k..], q.opts, q.rest);
        assert w == w[..k] + w[k..];
      } else {
        PartitionIsStable(cfg, r.left, w);
        assert [] + ParseFrom(cfg, r.left, w).opts == ParseFrom(cfg, r.left, w).opts;
      }
    } else if w[0] == "--" {
      AllArguments(w[1..]);
      assert w[..1][1..] == [] && w[..1][0] == w[0];
    } else if !IsOption(w[0]) {
      PartitionIsStable(cfg, "", w[1..]);
      var q := ParseFrom(cfg, "", w[1..]);
      assert (w[..1] + q.rest)[1..] == q.rest;
    } else if IsLong(cfg, w[0]) {
      var (e, takesNext) := LongEvent(cfg, w[0][2..], Head(w[1..]));
      var k := if takesNext then 2 else 1;
      PartitionIsStable(cfg, "", w[k..]);
      var q := ParseFrom(cfg, "", w[k..]);
      InterleavesPrefix(w[..k], w[k..], q.opts, q.rest);
      assert w == w[..k] + w[k..];
    } else {
      PartitionIsStable(cfg, w[0][1..], w);
    }
  }

  lemma {:induction false} AllArguments(w: seq<string>)
    ensures Interleaves(w, [], w)
  {
    if w != [] { AllArguments(w[1..]); }
  }

  // --------------------------------------------------------------------- progress

  function Letters(w: seq<string>): nat {
    if w == [] then 0 else |w[0]| + Letters(w[1..])
  }

  /** A command line yields at most one report per character. */
  lemma {:induction false} ReportsAreBounded(cfg: Config, s: string, w: seq<string>)
    ensures |ParseFrom(cfg, s, w).events| <= |s| + (if s != "" && w != [] then Letters(w[1..]) else Letters(w))
    decreases |w|, if s == "" && w != [] then |w[0]| else |s|
  {
    if w != [] && w[1..] != [] { assert w[1..][1..] == w[2..]; }
    if w == [] {
    } else if s != "" {
      var r := ShortEvent(cfg, s, Head(w[1..]));
      if r.left == "" {
        ReportsAreBounded(cfg, "", w[if r.takesNext then 2 else 1..]);
      } else {
        ReportsAreBounded(cfg, r.left, w);
      }
    } else if w[0] == "--" {
    } else if !IsOption(w[0]) {
      ReportsAreBounded(cfg, "", w[1..]);
    } else if IsLong(cfg, w[0]) {
      var (e, takesNext) := LongEvent(cfg, w[0][2..], Head(w[1..]));
      ReportsAreBounded(cfg, "", w[if takesNext then 2 else 1..]);
    } else {
      ReportsAreBounded(cfg, w[0][1..], w);
    }
  }

  // ---------------------------------------------------- reading the permuted line again

  /** How a reading ends: out of elements, at the terminator, or at an option
      whose required argument is missing. */
  datatype Ending = Exhausted | Terminated | Wanting

  ghost predicate ShortWants(cfg: Config, s: string) {
    |s| == 1 && KindOf(cfg, s[0]).Required?
  }

  ghost predicate LongWants(cfg: Config, s: string) {
    cfg.longopts.Some? && NameEnd(s) == |s| &&
    var r := Resolve(cfg.longopts.value, s);
    r.Found? && cfg.longopts.value[r.index].hasArg == REQUIRED_ARGUMENT
  }

  /** Only a long option that wants an argument looks at the next element. */
  lemma {:induction false} LongLooksAhead(cfg: Config, s: string, next: Option<string>, next': Option<string>)
    requires cfg.longopts.Some?
    ensures LongEvent(cfg, s, next).1 <==> LongWants(cfg, s) && next.Some?
    ensures !LongWants(cfg, s) ==> LongEvent(cfg, s, next) == LongEvent(cfg, s, next')
  {
    assert s[..|s|] == s;
  }

  ghost function EndOf(cfg: Config, s: string, w: seq<string>): Ending
    decreases |w|, if s == "" && w != [] then |w[0]| else |s|
  {
    if w == [] then Exhausted
    else if s != "" then
      var r := ShortEvent(cfg, s, Head(w[1..]));
      if ShortWants(cfg, s) && |w| == 1 then Wanting
      else if r.left == "" then EndOf(cfg, "", w[if r.takesNext then 2 else 1..])
      else EndOf(cfg, r.left, w)
    else if w[0] == "--" then Terminated
    else if !IsOption(w[0]) then EndOf(cfg, "", w[1..])
    else if IsLong(cfg, w[0]) then
      if LongWants(cfg, w[0][2..]) && |w| == 1 then Wanting
      else EndOf(cfg, "", w[if LongEvent(cfg, w[0][2..], Head(w[1..])).1 then 2 else 1..])
    else EndOf(cfg, w[0][1..], w)
  }

  ghost predicate NoOptions(w: seq<string>) {
    forall i :: 0 <= i < |w| ==> !IsOption(w[i])
  }

  /** Unless the scan met the terminator, what is left over holds no option. */
  lemma {:induction false} RestHoldsNoOptions(cfg: Config, s: string, w: seq<string>)
    ensures EndOf(cfg, s, w) != Terminated ==> NoOptions(ParseFrom(cfg, s, w).rest)
    decreases |w|, if s == "" && w != [] then |w[0]| else |s|
  {
    if w == [] {
    } else if s != "" {
      var r := ShortEvent(cfg, s, Head(w[1..]));
      if r.left == "" {
        RestHoldsNoOptions(cfg, "", w[if r.takesNext then 2 else 1..]);
      } else {
        RestHoldsNoOptions(cfg, r.left, w);
      }
    } else if w[0] == "--" {
    } else if !IsOption(w[0]) {
      RestHoldsNoOptions(cfg, "", w[1..]);
    } else if IsLong(cfg, w[0]) {
      var (e, takesNext) := LongEvent(cfg, w[0][2..], Head(w[1..]));
      RestHoldsNoOptions(cfg, "", w[if takesNext then 2 else 1..]);
    } else {
      RestHoldsNoOptions(cfg, w[0][1..], w);
    }
  }

  /** Reading the options of p again, followed by t, finds the same. */
  ghost predicate SameAgain(cfg: Config, s: string, p: Parsed, t: seq<string>) {
    ParseFrom(cfg, s, p.opts + t) == Parsed(p.events, p.opts, t)
  }

  lemma {:induction false} ClusterAgain(cfg: Config, s: string, w: seq<string>, t: seq<string>)
    requires s != "" && w != [] && !(ShortWants(cfg, s) && |w| == 1)
    requires var r := ShortEvent(cfg, s, Head(w[1..]));
      r.left == "" && SameAgain(cfg, "", ParseFrom(cfg, "", w[if r.takesNext then 2 else 1..]), t)
    ensures SameAgain(cfg, s, ParseFrom(cfg, s, w), t)
  {
    var r := ShortEvent(cfg, s, Head(w[1..]));
    var k := if r.takesNext then 2 else 1;
    Regroup(w, k, ParseFrom(cfg, "", w[k..]).opts, t);
  }

  lemma {:induction false} LetterAgain(cfg: Config, s: string, w: seq<string>, t: seq<string>)
    requires s != "" && w != []
    requires var r := ShortEvent(cfg, s, Head(w[1..])); r.left != "" && SameAgain(cfg, r.left, ParseFrom(cfg, r.left, w), t)
    ensures SameAgain(cfg, s, ParseFrom(cfg, s, w), t)
  {
    var r := ShortEvent(cfg, s, Head(w[1..]));
    var o := ParseFrom(cfg, r.left, w).opts;
    StartsWithElement(cfg, r.left, w);
    assert [] + o == o && o + t != [];
  }

  lemma {:induction false} LongAgain(cfg: Config, w: seq<string>, t: seq<string>)
    requires w != [] && w[0] != "--" && IsOption(w[0]) && IsLong(cfg, w[0]) && !(LongWants(cfg, w[0][2..]) && |w| == 1)
    requires SameAgain(cfg, "", ParseFrom(cfg, "", w[if LongEvent(cfg, w[0][2..], Head(w[1..])).1 then 2 else 1..]), t)
    ensures SameAgain(cfg, "", ParseFrom(cfg, "", w), t)
  {
    var (e, takesNext) := LongEvent(cfg, w[0][2..], Head(w[1..]));
    var k := if takesNext then 2 else 1;
    var o := ParseFrom(cfg, "", w[k..]).opts;
    Regroup(w, k, o, t);
    LongLooksAhead(cfg, w[0][2..], Head(w[1..]), Head((w[..k] + o + t)[1..]));
  }

  /** Reading the options again, followed by other arguments t, finds the same. */
  lemma {:induction false} OptionsReadTheSame(cfg: Config, s: string, w: seq<string>, t: seq<string>)
    requires EndOf(cfg, s, w) != Wanting
    requires EndOf(cfg, s, w) == Terminated || NoOptions(t)
    requires s != "" ==> w != []
    ensures SameAgain(cfg, s, ParseFrom(cfg, s, w), t)
    decreases |w|, if s == "" && w != [] then |w[0]| else |s|
  {
    var p := ParseFrom(cfg, s, w);
    if w == [] {
      assert p.opts + t == t;
      ReadArguments(cfg, t, |t|);
      assert t[|t|..] == [] && t[..|t|] == t;
    } else if s != "" {
      var r := ShortEvent(cfg, s, Head(w[1..]));
      if r.left == "" {
        OptionsReadTheSame(cfg, "", w[if r.takesNext then 2 else 1..], t);
        ClusterAgain(cfg, s, w, t);
      } else {
        OptionsReadTheSame(cfg, r.left, w, t);
        LetterAgain(cfg, s, w, t);
      }
    } else if w[0] == "--" {
      assert (p.opts + t)[1..] == t && (p.opts + t)[..1] == p.opts;
    } else if !IsOption(w[0]) {
      OptionsReadTheSame(cfg, "", w[1..], t);
    } else if IsLong(cfg, w[0]) {
      OptionsReadTheSame(cfg, "", w[if LongEvent(cfg, w[0][2..], Head(w[1..])).1 then 2 else 1..], t);
      LongAgain(cfg, w, t);
    } else {
      OptionsReadTheSame(cfg, w[0][1..], w, t);
      StartsWithElement(cfg, w[0][1..], w);
      assert (p.opts + t)[0] == w[0];
    }
  }

  lemma {:induction false} Regroup(w: seq<string>, k: nat, o: seq<string>, t: seq<string>)
    requires 1 <= k <= |w|
    ensures var v := w[..k] + o + t;
      v[0] == w[0] && v[..k] == w[..k] && v[k..] == o + t && Head(v[1..]) == if k > 1 then Some(w[1]) else Head(o + t)
  {
    var v := w[..k] + o + t;
    assert v == w[..k] + (o + t);
    if k == 1 { assert v[1..] == o + t; }
  }

  /** The element whose cluster is being read is the first option of the reading. */
  lemma {:induction false} StartsWithElement(cfg: Config, s: string, w: seq<string>)
    requires s != "" && w != []
    ensures var p := ParseFrom(cfg, s, w); p.opts != [] && p.opts[0] == w[0]
    decreases |s|
  {
    var r := ShortEvent(cfg, s, Head(w[1..]));
    if r.left != "" { StartsWithElement(cfg, r.left, w); }
  }

  /** The options of p, followed by t, use up more than themselves. */
  ghost predicate TakesMore(cfg: Config, s: string, p: Parsed, t: seq<string>) {
    |ParseFrom(cfg, s, p.opts + t).opts| > |p.opts|
  }

  lemma {:induction false} ClusterTakesMore(cfg: Config, s: string, w: seq<string>, t: seq<string>)
    requires s != "" && w != [] && t != []
    requires var r := ShortEvent(cfg, s, Head(w[1..]));
      r.left == "" && ((ShortWants(cfg, s) && |w| == 1) || TakesMore(cfg, "", ParseFrom(cfg, "", w[if r.takesNext then 2 else 1..]), t))
    ensures TakesMore(cfg, s, ParseFrom(cfg, s, w), t)
  {
    var r := ShortEvent(cfg, s, Head(w[1..]));
    var k := if r.takesNext then 2 else 1;
    Regroup(w, k, ParseFrom(cfg, "", w[k..]).opts, t);
  }

  lemma {:induction false} LongTakesMore(cfg: Config, w: seq<string>, t: seq<string>)
    requires w != [] && w[0] != "--" && IsOption(w[0]) && IsLong(cfg, w[0]) && t != []
    requires (LongWants(cfg, w[0][2..]) && |w| == 1)
      || TakesMore(cfg, "", ParseFrom(cfg, "", w[if LongEvent(cfg, w[0][2..], Head(w[1..])).1 then 2 else 1..]), t)
    ensures TakesMore(cfg, "", ParseFrom(cfg, "", w), t)
  {
    var p := ParseFrom(cfg, "", w);
    var (e, takesNext) := LongEvent(cfg, w[0][2..], Head(w[1..]));
    var k := if takesNext then 2 else 1;
    Regroup(w, k, ParseFrom(cfg, "", w[k..]).opts, t);
    LongLooksAhead(cfg, w[0][2..], Head(w[1..]), Head((p.opts + t)[1..]));
    LongLooksAhead(cfg, w[0][2..], Head((p.opts + t)[1..]), None);
  }

  lemma {:induction false} LetterTakesMore(cfg: Config, s: string, w: seq<string>, t: seq<string>)
    requires s != "" && w != []
    requires var r := ShortEvent(cfg, s, Head(w[1..])); r.left != "" && TakesMore(cfg, r.left, ParseFrom(cfg, r.left, w), t)
    ensures TakesMore(cfg, s, ParseFrom(cfg, s, w), t)
  {
    var r := ShortEvent(cfg, s, Head(w[1..]));
    StartsWithElement(cfg, r.left, w);
    assert [] + ParseFrom(cfg, r.left, w).opts == ParseFrom(cfg, r.left, w).opts;
  }

  /** If the last option lacks its argument, the first of t is taken for it. */
  lemma {:induction false} WantingTakesMore(cfg: Config, s: string, w: seq<string>, t: seq<string>)
    requires EndOf(cfg, s, w) == Wanting && t != []
    ensures |ParseFrom(cfg, s, ParseFrom(cfg, s, w).opts + t).opts| > |ParseFrom(cfg, s, w).opts|
    decreases |w|, if s == "" && w != [] then |w[0]| else |s|
  {
    if s != "" {
      var r := ShortEvent(cfg, s, Head(w[1..]));
      if r.left == "" {
        if !(ShortWants(cfg, s) && |w| == 1) { WantingTakesMore(cfg, "", w[if r.takesNext then 2 else 1..], t); }
        ClusterTakesMore(cfg, s, w, t);
      } else {
        WantingTakesMore(cfg, r.left, w, t);
        LetterTakesMore(cfg, s, w, t);
      }
    } else if !IsOption(w[0]) {
      WantingTakesMore(cfg, "", w[1..], t);
    } else if IsLong(cfg, w[0]) {
      if !(LongWants(cfg, w[0][2..]) && |w| == 1) {
        WantingTakesMore(cfg, "", w[if LongEvent(cfg, w[0][2..], Head(w[1..])).1 then 2 else 1..], t);
      }
      LongTakesMore(cfg, w, t);
    } else {
      WantingTakesMore(cfg, w[0][1..], w, t);
      StartsWithElement(cfg, w[0][1..], w);
    }
  }

  /** The options alone use up no argument that stood in front of them. */
  lemma {:induction false} NothingLeftOver(w: seq<string>, a: seq<string>, b: seq<string>)
    requires Interleaves(w, a, b) && b == []
    ensures a == w
  {
    if w != [] { NothingLeftOver(w[1..], a[1..], b); }
  }

  /** Reading the permuted command line gives the same result as reading the
      original, unless the last option lacks its argument and an argument that
      stood before it, now behind it, is taken instead. */
  lemma {:induction false} PermutedLineReadsTheSame(cfg: Config, w: seq<string>)
    ensures var p := Parse(cfg, w);
      Parse(cfg, p.opts + p.rest) == p <==> !(EndOf(cfg, "", w) == Wanting && p.rest != [])
  {
    var p := Parse(cfg, w);
    if EndOf(cfg, "", w) != Wanting {
      RestHoldsNoOptions(cfg, "", w);
      OptionsReadTheSame(cfg, "", w, p.rest);
    } else if p.rest == [] {
      PartitionIsStable(cfg, "", w);
      NothingLeftOver(w, p.opts, p.rest);
      assert p.opts + p.rest == w;
    } else {
      WantingTakesMore(cfg, "", w, p.rest);
    }
  }

  /** An instance of the exception: "x -o" against "-o x", where -o wants an argument. */
  lemma {:induction false} PermutedLineDiffers()
    ensures var cfg := Config("o:", None);
      && Parse(cfg, ["x", "-o"]) == Parsed([Event('?' as int, None, Some('o' as int), None)], ["-o"], ["x"])
      && Parse(cfg, ["-o", "x"]) == Parsed([Event('o' as int, Some("x"), None, None)], ["-o", "x"], [])
  {
    var cfg := Config("o:", None);
    assert KindOf(cfg, 'o') == Required;
    var w := ["-o"];
    assert w[0][1..] == "o" && w[1..] == [] && w[..1] == w && Head(w[1..]) == None;
    assert ["x", "-o"][1..] == w && ["x", "-o"][..1] == ["x"];
    var v := ["-o", "x"];
    assert v[0][1..] == "o" && v[1..] == ["x"] && v[2..] == [] && v[..2] == v;
    assert ParseFrom(cfg, "o", w).events == [Event('?' as int, None, Some('o' as int), None)];
  }
}
