/** Command lines as a user writes them, and what each form of an option
    reports. Every line is written in one way, and read as it is written. */
module GetoptForms {
  import opened GetoptLaws
  import opened GetoptScanner
  import opened GetoptSpec
  import opened Options

  // ------------------------------------------------------------------ letters

  /** The first c in the option string stands at i. */
  predicate LetterAt(cfg: Config, c: char, i: nat) {
    i < |cfg.optstring| && cfg.optstring[i] == c && c !in cfg.optstring[..i] && c != ':'
  }

  predicate ColonAt(cfg: Config, i: nat) {
    i < |cfg.optstring| && cfg.optstring[i] == ':'
  }

  predicate IsUnknown(cfg: Config, c: char) {
    c == ':' || c !in cfg.optstring
  }

  ghost predicate TakesNone(cfg: Config, c: char) {
    exists i: nat :: LetterAt(cfg, c, i) && !ColonAt(cfg, i + 1)
  }

  ghost predicate MustTake(cfg: Config, c: char) {
    exists i: nat :: LetterAt(cfg, c, i) && ColonAt(cfg, i + 1) && !ColonAt(cfg, i + 2)
  }

  ghost predicate MayTake(cfg: Config, c: char) {
    exists i: nat :: LetterAt(cfg, c, i) && ColonAt(cfg, i + 1) && ColonAt(cfg, i + 2)
  }

  lemma {:induction false} LookforAt(s: string, c: char, i: nat)
    requires i < |s| && s[i] == c && c !in s[..i]
    ensures Lookfor(s, c) == Some(s[i..])
  {
    if i > 0 {
      assert s[..i][0] == s[0] && s[1..][..i - 1] == s[..i][1..];
      LookforAt(s[1..], c, i - 1);
    }
  }

  lemma {:induction false} FirstAt(s: string, c: char) returns (i: nat)
    requires c in s
    ensures i < |s| && s[i] == c && c !in s[..i]
  {
    if s[0] == c { return 0; }
    var j := FirstAt(s[1..], c);
    i := j + 1;
    assert s[..i] == [s[0]] + s[1..][..j];
  }

  /** One colon behind a letter in the option string means an argument, two
      mean an optional one. */
  lemma {:induction false} KindIs(cfg: Config, c: char)
    ensures KindOf(cfg, c) == Invalid <==> IsUnknown(cfg, c)
    ensures KindOf(cfg, c) == Plain <==> TakesNone(cfg, c)
    ensures KindOf(cfg, c) == Required <==> MustTake(cfg, c)
    ensures KindOf(cfg, c) == Optional <==> MayTake(cfg, c)
  {
    if !IsUnknown(cfg, c) {
      var i := FirstAt(cfg.optstring, c);
      assert LetterAt(cfg, c, i);
    }
    forall i: nat | LetterAt(cfg, c, i)
      ensures KindOf(cfg, c) == if !ColonAt(cfg, i + 1) then Plain else if ColonAt(cfg, i + 2) then Optional else Required
    {
      LookforAt(cfg.optstring, c, i);
    }
  }

  // ------------------------------------------------------------- what is written

  /** A group of letters, with an argument for the last one or without; a long
      name, with an argument or without; or an argument of the program. */
  datatype Item =
    | Letters(letters: string)
    | Attached(letters: string, c: char, value: string)
    | Separate(letters: string, c: char, value: string)
    | Name(name: string)
    | NameAttached(name: string, value: string)
    | NameSeparate(name: string, value: string)
    | Argument(a: string)

  function Spelled(item: Item): seq<string> {
    match item
    case Letters(letters) => ["-" + letters]
    case Attached(letters, c, value) => ["-" + letters + [c] + value]
    case Separate(letters, c, value) => ["-" + letters + [c], value]
    case Name(name) => ["--" + name]
    case NameAttached(name, value) => ["--" + name + "=" + value]
    case NameSeparate(name, value) => ["--" + name, value]
    case Argument(a) => [a]
  }

  ghost predicate Simple(cfg: Config, letters: string) {
    forall i :: 0 <= i < |letters| ==> IsUnknown(cfg, letters[i]) || TakesNone(cfg, letters[i])
  }

  /** The first two characters of a group do not make it a long option. */
  predicate IsGroup(cfg: Config, text: string) {
    text != "" && text != "-" && (text[0] == '-' ==> cfg.longopts.None?)
  }

  ghost predicate HasName(cfg: Config, name: string, i: nat) {
    cfg.longopts.Some? && '=' !in name && Resolve(cfg.longopts.value, name) == Found(i)
  }

  ghost predicate NoName(cfg: Config, name: string) {
    cfg.longopts.Some? && '=' !in name && !Resolve(cfg.longopts.value, name).Found?
  }

  /** The item is written in a form that the option tables have. */
  ghost predicate Fits(cfg: Config, item: Item) {
    match item
    case Letters(letters) =>
      && IsGroup(cfg, letters) && Simple(cfg, letters[..|letters| - 1])
      && (Simple(cfg, letters) || MayTake(cfg, letters[|letters| - 1]))
    case Attached(letters, c, value) =>
      IsGroup(cfg, letters + [c] + value) && Simple(cfg, letters) && value != "" && (MustTake(cfg, c) || MayTake(cfg, c))
    case Separate(letters, c, value) => IsGroup(cfg, letters + [c]) && Simple(cfg, letters) && MustTake(cfg, c)
    case Name(name) =>
      name != "" && (NoName(cfg, name) || exists i: nat :: HasName(cfg, name, i) && cfg.longopts.value[i].hasArg != REQUIRED_ARGUMENT)
    case NameAttached(name, _) => NoName(cfg, name) || exists i: nat :: HasName(cfg, name, i)
    case NameSeparate(name, _) =>
      name != "" && exists i: nat :: HasName(cfg, name, i) && cfg.longopts.value[i].hasArg == REQUIRED_ARGUMENT
    case Argument(a) => a == "" || a[0] != '-' || a == "-"
  }

  // ------------------------------------------------------------- what it reports

  /** A letter without an argument: itself, or that it is not known. */
  ghost function LetterReport(cfg: Config, c: char): Event {
    if IsUnknown(cfg, c) then Event('?' as int, None, Some(c as int), None) else Event(c as int, None, None, None)
  }

  ghost function LetterReports(cfg: Config, letters: string): (events: seq<Event>)
    ensures |events| == |letters|
    ensures forall i :: 0 <= i < |letters| ==> events[i] == LetterReport(cfg, letters[i])
  {
    seq(|letters|, i requires 0 <= i < |letters| => LetterReport(cfg, letters[i]))
  }

  /** A long option: the value of its entry, or 0 if that goes to a variable. */
  ghost function NameReport(cfg: Config, i: nat, arg: Option<string>): Event
    requires cfg.longopts.Some? && i < |cfg.longopts.value|
  {
    var o := cfg.longopts.value[i];
    Event(if o.flag.Some? then 0 else o.val, arg, None, Some(i))
  }

  const NOT_KNOWN := Event('?' as int, None, Some(0), None)

  ghost function Reports(cfg: Config, item: Item): seq<Event>
    requires Fits(cfg, item)
  {
    match item
    case Letters(letters) => LetterReports(cfg, letters)
    case Attached(letters, c, value) => LetterReports(cfg, letters) + [Event(c as int, Some(value), None, None)]
    case Separate(letters, c, value) => LetterReports(cfg, letters) + [Event(c as int, Some(value), None, None)]
    case Name(name) =>
      if NoName(cfg, name) then [NOT_KNOWN] else var i: nat :| HasName(cfg, name, i); [NameReport(cfg, i, None)]
    case NameAttached(name, value) =>
      if NoName(cfg, name) then [NOT_KNOWN] else
        var i: nat :| HasName(cfg, name, i);
        var o := cfg.longopts.value[i];
        [if o.hasArg == NO_ARGUMENT then Event('?' as int, None, Some(o.val), None) else NameReport(cfg, i, Some(value))]
    case NameSeparate(name, value) => var i: nat :| HasName(cfg, name, i); [NameReport(cfg, i, Some(value))]
    case Argument(_) => []
  }

  function OptionPart(item: Item): seq<string> {
    if item.Argument? then [] else Spelled(item)
  }

  function ArgumentPart(item: Item): seq<string> {
    if item.Argument? then Spelled(item) else []
  }

  // ------------------------------------------------------------- an item is read as written

  /** Reading w after the item gives the item's reports and then those of w. */
  ghost predicate ReadsAs(cfg: Config, item: Item, w: seq<string>)
    requires Fits(cfg, item)
  {
    var p := Parse(cfg, w);
    Parse(cfg, Spelled(item) + w) == Parsed(Reports(cfg, item) + p.events, OptionPart(item) + p.opts, ArgumentPart(item) + p.rest)
  }

  lemma {:induction false} SimpleLetter(cfg: Config, c: char, left: string, next: Option<string>)
    requires IsUnknown(cfg, c) || TakesNone(cfg, c)
    ensures ShortEvent(cfg, [c] + left, next) == Short(LetterReport(cfg, c), left, false)
  {
    KindIs(cfg, c);
    assert ([c] + left)[1..] == left;
  }

  lemma {:induction false} MoreReports(cfg: Config, c: char, more: string, events: seq<Event>)
    ensures [LetterReport(cfg, c)] + (LetterReports(cfg, more) + events) == LetterReports(cfg, [c] + more) + events
  {
    assert LetterReports(cfg, [c] + more) == [LetterReport(cfg, c)] + LetterReports(cfg, more);
  }

  lemma {:induction false} SimpleStep(cfg: Config, c: char, left: string, w: seq<string>)
    requires (IsUnknown(cfg, c) || TakesNone(cfg, c)) && left != "" && w != []
    ensures var p := ParseFrom(cfg, left, w);
      ParseFrom(cfg, [c] + left, w) == p.(events := [LetterReport(cfg, c)] + p.events)
  {
    SimpleLetter(cfg, c, left, Head(w[1..]));
    assert [] + ParseFrom(cfg, left, w).opts == ParseFrom(cfg, left, w).opts;
  }

  /** Letters without arguments are reported one by one. */
  lemma {:induction false} SimpleLetters(cfg: Config, letters: string, t: string, w: seq<string>)
    requires Simple(cfg, letters) && t != "" && w != []
    ensures var p := ParseFrom(cfg, t, w);
      ParseFrom(cfg, letters + t, w) == p.(events := LetterReports(cfg, letters) + p.events)
    decreases |letters|
  {
    if letters == "" {
      assert letters + t == t;
    } else {
      var c, more := letters[0], letters[1..];
      assert letters == [c] + more && letters + t == [c] + (more + t);
      SimpleLetters(cfg, more, t, w);
      SimpleStep(cfg, c, more + t, w);
      MoreReports(cfg, c, more, ParseFrom(cfg, t, w).events);
    }
  }

  /** How a group of letters is entered. */
  lemma {:induction false} EnterGroup(cfg: Config, text: string, w: seq<string>)
    requires IsGroup(cfg, text) && w != [] && w[0] == "-" + text
    ensures Parse(cfg, w) == ParseFrom(cfg, text, w)
  {
    assert w[0][1..] == text && w[0][1] == text[0];
    assert "--"[1..] == "-";
  }

  /** The last report of a group, and what follows the elements used. */
  lemma {:induction false} LastOfGroup(cfg: Config, letters: string, t: string, e: Event, elements: seq<string>, w: seq<string>)
    requires Simple(cfg, letters) && t != "" && IsGroup(cfg, letters + t)
    requires elements != [] && elements[0] == "-" + (letters + t)
    requires ShortEvent(cfg, t, Head((elements + w)[1..])) == Short(e, "", |elements| == 2) && |elements| <= 2
    ensures var p := Parse(cfg, w);
      Parse(cfg, elements + w) == Parsed(LetterReports(cfg, letters) + [e] + p.events, elements + p.opts, p.rest)
  {
    var all, p := elements + w, Parse(cfg, w);
    EnterGroup(cfg, letters + t, all);
    SimpleLetters(cfg, letters, t, all);
    assert all[|elements|..] == w && all[..|elements|] == elements;
    assert LetterReports(cfg, letters) + ([e] + p.events) == LetterReports(cfg, letters) + [e] + p.events;
  }

  lemma {:induction false} LettersAreRead(cfg: Config, letters: string, w: seq<string>)
    requires Fits(cfg, Letters(letters))
    ensures ReadsAs(cfg, Letters(letters), w)
  {
    var n := |letters| - 1;
    var front, c := letters[..n], letters[n];
    assert letters == front + [c];
    KindIs(cfg, c);
    LastOfGroup(cfg, front, [c], LetterReport(cfg, c), Spelled(Letters(letters)), w);
    assert LetterReports(cfg, letters) == LetterReports(cfg, front) + [LetterReport(cfg, c)];
  }

  lemma {:induction false} AttachedIsRead(cfg: Config, letters: string, c: char, value: string, w: seq<string>)
    requires Fits(cfg, Attached(letters, c, value))
    ensures ReadsAs(cfg, Attached(letters, c, value), w)
  {
    var t := [c] + value;
    assert letters + [c] + value == letters + t && t[1..] == value;
    assert "-" + letters + [c] + value == "-" + (letters + t);
    KindIs(cfg, c);
    LastOfGroup(cfg, letters, t, Event(c as int, Some(value), None, None), Spelled(Attached(letters, c, value)), w);
  }

  lemma {:induction false} SeparateIsRead(cfg: Config, letters: string, c: char, value: string, w: seq<string>)
    requires Fits(cfg, Separate(letters, c, value))
    ensures ReadsAs(cfg, Separate(letters, c, value), w)
  {
    var elements := Spelled(Separate(letters, c, value));
    assert elements[0] == "-" + (letters + [c]);
    assert (elements + w)[1..] == [value] + w;
    KindIs(cfg, c);
    LastOfGroup(cfg, letters, [c], Event(c as int, Some(value), None, None), elements, w);
  }

  /** How a long option is read. */
  lemma {:induction false} EnterName(cfg: Config, s: string, e: Event, elements: seq<string>, w: seq<string>)
    requires cfg.longopts.Some? && s != "" && elements != [] && elements[0] == "--" + s && |elements| <= 2
    requires LongEvent(cfg, s, Head((elements + w)[1..])) == (e, |elements| == 2)
    ensures var p := Parse(cfg, w); Parse(cfg, elements + w) == Parsed([e] + p.events, elements + p.opts, p.rest)
  {
    var all := elements + w;
    assert all[0][2..] == s && all[0][1] == '-' && all[0] != "--";
    assert all[|elements|..] == w && all[..|elements|] == elements;
  }

  lemma {:induction false} NameEndsAt(name: string, tail: string)
    requires '=' !in name && (tail == "" || tail[0] == '=')
    ensures NameEnd(name + tail) == |name| && (name + tail)[..|name|] == name && (tail != "" ==> (name + tail)[|name| + 1..] == tail[1..])
  {
    assert (name + tail)[..|name|] == name;
    NameEndIs(name + tail, |name|);
  }

  lemma {:induction false} NameIsRead(cfg: Config, name: string, w: seq<string>)
    requires Fits(cfg, Name(name))
    ensures ReadsAs(cfg, Name(name), w)
  {
    NameEndsAt(name, "");
    assert name + "" == name;
    EnterName(cfg, name, Reports(cfg, Name(name))[0], Spelled(Name(name)), w);
  }

  lemma {:induction false} NameAttachedIsRead(cfg: Config, name: string, value: string, w: seq<string>)
    requires Fits(cfg, NameAttached(name, value))
    ensures ReadsAs(cfg, NameAttached(name, value), w)
  {
    var tail := "=" + value;
    NameEndsAt(name, tail);
    assert tail[1..] == value;
    assert "--" + name + "=" + value == "--" + (name + tail);
    EnterName(cfg, name + tail, Reports(cfg, NameAttached(name, value))[0], Spelled(NameAttached(name, value)), w);
  }

  lemma {:induction false} NameSeparateIsRead(cfg: Config, name: string, value: string, w: seq<string>)
    requires Fits(cfg, NameSeparate(name, value))
    ensures ReadsAs(cfg, NameSeparate(name, value), w)
  {
    var elements := Spelled(NameSeparate(name, value));
    NameEndsAt(name, "");
    assert name + "" == name;
    assert (elements + w)[1..] == [value] + w;
    EnterName(cfg, name, Reports(cfg, NameSeparate(name, value))[0], elements, w);
  }

  lemma {:induction false} ItemIsRead(cfg: Config, item: Item, w: seq<string>)
    requires Fits(cfg, item)
    ensures ReadsAs(cfg, item, w)
  {
    match item
    case Letters(letters) => LettersAreRead(cfg, letters, w);
    case Attached(letters, c, value) => AttachedIsRead(cfg, letters, c, value, w);
    case Separate(letters, c, value) => SeparateIsRead(cfg, letters, c, value, w);
    case Name(name) => NameIsRead(cfg, name, w);
    case NameAttached(name, value) => NameAttachedIsRead(cfg, name, value, w);
    case NameSeparate(name, value) => NameSeparateIsRead(cfg, name, value, w);
    case Argument(a) =>
      var all := [a] + w;
      assert all[1..] == w && all[..1] == [a] && !IsOption(all[0]);
  }

  // ------------------------------------------------------------------ whole lines

  /** How a line ends: just so, with a terminator and whatever follows it, or
      with an option whose argument is missing. */
  datatype End = Just | Terminator(rest: seq<string>) | Missing(letters: string, c: char) | NameMissing(name: string)

  function EndSpelled(end: End): seq<string> {
    match end
    case Just => []
    case Terminator(rest) => ["--"] + rest
    case Missing(letters, c) => ["-" + letters + [c]]
    case NameMissing(name) => ["--" + name]
  }

  ghost predicate EndFits(cfg: Config, end: End) {
    match end
    case Missing(letters, c) => IsGroup(cfg, letters + [c]) && Simple(cfg, letters) && MustTake(cfg, c)
    case NameMissing(name) => name != "" && exists i: nat :: HasName(cfg, name, i) && cfg.longopts.value[i].hasArg == REQUIRED_ARGUMENT
    case _ => true
  }

  /** That the option is missing its argument; a leading colon in the option
      string asks for another code. */
  ghost function MissingReport(cfg: Config, option: int): Event {
    Event(if cfg.optstring != "" && cfg.optstring[0] == ':' then ':' as int else '?' as int, None, Some(option), None)
  }

  ghost function EndReports(cfg: Config, end: End): seq<Event>
    requires EndFits(cfg, end)
  {
    match end
    case Missing(letters, c) => LetterReports(cfg, letters) + [MissingReport(cfg, c as int)]
    case NameMissing(name) => var i: nat :| HasName(cfg, name, i); [MissingReport(cfg, cfg.longopts.value[i].val)]
    case _ => []
  }

  function EndRest(end: End): seq<string> {
    if end.Terminator? then end.rest else []
  }

  function EndOptions(end: End): seq<string> {
    if end.Terminator? then ["--"] else EndSpelled(end)
  }

  ghost predicate AllFit(cfg: Config, items: seq<Item>, end: End) {
    EndFits(cfg, end) && forall i :: 0 <= i < |items| ==> Fits(cfg, items[i])
  }

  function Line(items: seq<Item>, end: End): seq<string> {
    if items == [] then EndSpelled(end) else Spelled(items[0]) + Line(items[1..], end)
  }

  ghost function AllReports(cfg: Config, items: seq<Item>, end: End): seq<Event>
    requires AllFit(cfg, items, end)
  {
    if items == [] then EndReports(cfg, end) else Reports(cfg, items[0]) + AllReports(cfg, items[1..], end)
  }

  function AllOptions(items: seq<Item>, end: End): seq<string> {
    if items == [] then EndOptions(end) else OptionPart(items[0]) + AllOptions(items[1..], end)
  }

  function AllArguments(items: seq<Item>, end: End): seq<string> {
    if items == [] then EndRest(end) else ArgumentPart(items[0]) + AllArguments(items[1..], end)
  }

  lemma {:induction false} MissingIsRead(cfg: Config, letters: string, c: char)
    requires EndFits(cfg, Missing(letters, c))
    ensures Parse(cfg, EndSpelled(Missing(letters, c))) == Parsed(EndReports(cfg, Missing(letters, c)), EndSpelled(Missing(letters, c)), [])
  {
    var elements := EndSpelled(Missing(letters, c));
    assert elements[0] == "-" + (letters + [c]);
    assert elements + [] == elements && elements[1..] == [];
    KindIs(cfg, c);
    LastOfGroup(cfg, letters, [c], MissingReport(cfg, c as int), elements, []);
  }

  lemma {:induction false} NameMissingIsRead(cfg: Config, name: string)
    requires EndFits(cfg, NameMissing(name))
    ensures Parse(cfg, EndSpelled(NameMissing(name))) == Parsed(EndReports(cfg, NameMissing(name)), EndSpelled(NameMissing(name)), [])
  {
    var elements := EndSpelled(NameMissing(name));
    NameEndsAt(name, "");
    assert name + "" == name && elements + [] == elements && elements[1..] == [];
    EnterName(cfg, name, EndReports(cfg, NameMissing(name))[0], elements, []);
  }

  lemma {:induction false} EndIsRead(cfg: Config, end: End)
    requires EndFits(cfg, end)
    ensures Parse(cfg, EndSpelled(end)) == Parsed(EndReports(cfg, end), EndOptions(end), EndRest(end))
  {
    match end
    case Just =>
    case Terminator(rest) =>
      var w := ["--"] + rest;
      assert w[..1] == ["--"] && w[1..] == rest;
    case Missing(letters, c) => MissingIsRead(cfg, letters, c);
    case NameMissing(name) => NameMissingIsRead(cfg, name);
  }

  /** A line is read as it is written. */
  lemma {:induction false} LineIsRead(cfg: Config, items: seq<Item>, end: End)
    requires AllFit(cfg, items, end)
    ensures Parse(cfg, Line(items, end)) == Parsed(AllReports(cfg, items, end), AllOptions(items, end), AllArguments(items, end))
  {
    if items == [] {
      EndIsRead(cfg, end);
    } else {
      LineIsRead(cfg, items[1..], end);
      ItemIsRead(cfg, items[0], Line(items[1..], end));
    }
  }

  // ------------------------------------------------------------------ every line is written so

  /** Letters without arguments, as many as there are. */
  lemma {:induction false} SplitGroup(cfg: Config, s: string) returns (letters: string, t: string)
    ensures s == letters + t && Simple(cfg, letters) && (t != "" ==> MustTake(cfg, t[0]) || MayTake(cfg, t[0]))
  {
    if s == "" { return "", ""; }
    KindIs(cfg, s[0]);
    if IsUnknown(cfg, s[0]) || TakesNone(cfg, s[0]) {
      letters, t := SplitGroup(cfg, s[1..]);
      letters := [s[0]] + letters;
    } else {
      letters, t := "", s;
    }
  }

  /** The first item of a line, or its end. */
  datatype First = FirstItem(item: Item) | FirstEnd(end: End)

  ghost predicate StartsLine(cfg: Config, first: First, w: seq<string>) {
    match first
    case FirstItem(item) => Fits(cfg, item) && Spelled(item) <= w
    case FirstEnd(end) => EndFits(cfg, end) && w == EndSpelled(end)
  }

  lemma {:induction false} GroupIsWritten(cfg: Config, text: string, w: seq<string>) returns (first: First)
    requires w != [] && w[0] == "-" + text && IsGroup(cfg, text)
    ensures StartsLine(cfg, first, w)
  {
    var letters, t := SplitGroup(cfg, text);
    if t == "" {
      assert letters == text;
      return FirstItem(Letters(text));
    }
    var c, value := t[0], t[1..];
    assert t == [c] + value && text == letters + [c] + value;
    assert "-" + text == "-" + letters + [c] + value;
    KindIs(cfg, c);
    if value != "" { return FirstItem(Attached(letters, c, value)); }
    assert text == letters + [c] && "-" + text == "-" + letters + [c];
    if MayTake(cfg, c) {
      assert text[..|text| - 1] == letters;
      return FirstItem(Letters(text));
    }
    if |w| == 1 { return FirstEnd(Missing(letters, c)); }
    first := FirstItem(Separate(letters, c, w[1]));
  }

  lemma {:induction false} NameIsWritten(cfg: Config, s: string, w: seq<string>) returns (first: First)
    requires w != [] && w[0] == "--" + s && s != "" && cfg.longopts.Some?
    ensures StartsLine(cfg, first, w)
  {
    var n := NameEnd(s);
    var name := s[..n];
    var r := Resolve(cfg.longopts.value, name);
    if r.Found? { assert HasName(cfg, name, r.index); } else { assert NoName(cfg, name); }
    if n < |s| {
      assert s == name + "=" + s[n + 1..];
      assert "--" + s == "--" + name + "=" + s[n + 1..];
      return FirstItem(NameAttached(name, s[n + 1..]));
    }
    assert name == s;
    if !r.Found? || cfg.longopts.value[r.index].hasArg != REQUIRED_ARGUMENT { return FirstItem(Name(name)); }
    if |w| == 1 { return FirstEnd(NameMissing(name)); }
    first := FirstItem(NameSeparate(name, w[1]));
  }

  lemma {:induction false} FirstIsWritten(cfg: Config, w: seq<string>) returns (first: First)
    ensures StartsLine(cfg, first, w)
  {
    if w == [] { return FirstEnd(Just); }
    var a := w[0];
    if a == "" || a[0] != '-' || a == "-" { return FirstItem(Argument(a)); }
    assert a == "-" + a[1..];
    if a == "--" { return FirstEnd(Terminator(w[1..])); }
    if a[1] == '-' && cfg.longopts.Some? {
      assert a == "--" + a[2..];
      first := NameIsWritten(cfg, a[2..], w);
    } else {
      first := GroupIsWritten(cfg, a[1..], w);
    }
  }

  /** Every line is written in these forms. */
  lemma {:induction false} EveryLineIsWritten(cfg: Config, w: seq<string>) returns (items: seq<Item>, end: End)
    ensures AllFit(cfg, items, end) && Line(items, end) == w
    decreases |w|
  {
    var first := FirstIsWritten(cfg, w);
    if first.FirstEnd? { return [], first.end; }
    var k := |Spelled(first.item)|;
    items, end := EveryLineIsWritten(cfg, w[k..]);
    assert w == Spelled(first.item) + w[k..];
    items := [first.item] + items;
  }

  // ------------------------------------------------------------------ flags

  /** A long option that has a variable stores its value there, and touches no
      other. */
  lemma {:induction false} FlagIsStored(cfg: Config, flags: map<nat, int>, i: nat, arg: Option<string>)
    requires cfg.longopts.Some? && i < |cfg.longopts.value|
    ensures var o, flags' := cfg.longopts.value[i], FlagsAfter(cfg, flags, NameReport(cfg, i, arg));
      && (o.flag.Some? ==> o.flag.value in flags' && flags'[o.flag.value] == o.val)
      && (forall f :: (o.flag.None? || f != o.flag.value) ==> (f in flags' <==> f in flags) && (f in flags ==> flags'[f] == flags[f]))
  {}

  // ------------------------------------------------------------------ the program

  /** Parsing a line that is written in these forms reports what they report,
      and leaves the options first and the arguments from optind on. */
  method ParseWritten(cfg: Config, argv: array<string>, ghost items: seq<Item>, ghost end: End)
    returns (reports: seq<(int, Option<string>)>, optind: nat)
    requires Supported(cfg) && argv.Length >= 1 && AllFit(cfg, items, end) && argv[1..] == Line(items, end)
    modifies argv
    ensures argv[..] == [old(argv[0])] + (AllOptions(items, end) + AllArguments(items, end))
    ensures optind == 1 + |AllOptions(items, end)|
    ensures var e := AllReports(cfg, items, end);
      |reports| == |e| && forall i :: 0 <= i < |e| ==> reports[i] == (e[i].code, e[i].arg)
  {
    LineIsRead(cfg, items, end);
    reports, optind := ParseCommandLine(cfg, argv);
  }

  // ------------------------------------------------------------------ an instance

  /** An option of grub's command line, whose argument is required. */
  const GRUB := Config("", Some([LongOption("config-file", 1, None, -5)]))

  lemma {:induction false} GrubName()
    ensures HasName(GRUB, "config-file", 0)
  {
    var opts, name := GRUB.longopts.value, "config-file";
    assert IsFirstExact(opts, name, 0);
    ResolveMeaning(opts, name);
  }

  lemma {:induction false} GrubText()
    ensures "--" + "config-file" + "=" + "menu.lst" == "--config-file=menu.lst" && "--" + "config-file" == "--config-file"
  {}

  lemma {:induction false} TheName(cfg: Config, name: string, i: nat, j: nat)
    requires HasName(cfg, name, i) && HasName(cfg, name, j)
    ensures i == j
  {}

  /** Both ways to write it. */
  lemma {:induction false} GrubLine(w: seq<string>)
    ensures var p, report := Parse(GRUB, w), Event(-5, Some("menu.lst"), None, Some(0));
      && Parse(GRUB, ["--config-file=menu.lst"] + w)
         == Parsed([report] + p.events, ["--config-file=menu.lst"] + p.opts, p.rest)
      && Parse(GRUB, ["--config-file", "menu.lst"] + w)
         == Parsed([report] + p.events, ["--config-file", "menu.lst"] + p.opts, p.rest)
  {
    var name, value := "config-file", "menu.lst";
    GrubName();
    GrubText();
    GrubItem(name, value, w);
  }

  lemma {:induction false} GrubItem(name: string, value: string, w: seq<string>)
    requires HasName(GRUB, name, 0) && name != ""
    ensures var p, report := Parse(GRUB, w), Event(-5, Some(value), None, Some(0));
      && Parse(GRUB, ["--" + name + "=" + value] + w)
         == Parsed([report] + p.events, ["--" + name + "=" + value] + p.opts, p.rest)
      && Parse(GRUB, ["--" + name, value] + w)
         == Parsed([report] + p.events, ["--" + name, value] + p.opts, p.rest)
  {
    var a, b := NameAttached(name, value), NameSeparate(name, value);
    forall i: nat | HasName(GRUB, name, i) ensures i == 0 { TheName(GRUB, name, i, 0); }
    var o := GRUB.longopts.value[0];
    assert o.hasArg == REQUIRED_ARGUMENT && o.flag.None? && o.val == -5;
    ItemIsRead(GRUB, a, w);
    ItemIsRead(GRUB, b, w);
    var p := Parse(GRUB, w);
    assert [] + p.rest == p.rest;
  }
}
