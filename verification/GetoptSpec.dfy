/** What a command line means: a left-to-right reading of the arguments that
    never moves anything. The in-place scanner in GetoptScanner.dfy is proved
    against it. */
module GetoptSpec {

  import opened Options

  const NO_ARGUMENT := 0
  const REQUIRED_ARGUMENT := 1

  /** One entry of the long option table; flag names the variable to set. */
  datatype LongOption = LongOption(name: string, hasArg: int, flag: Option<nat>, val: int)

  datatype Config = Config(optstring: string, longopts: Option<seq<LongOption>>)

  /** What one call reports. badOption is the value given to optopt, if any;
      index is the position of a successfully matched long option. */
  datatype Event = Event(code: int, arg: Option<string>, badOption: Option<int>, index: Option<nat>)

  /** A whole reading: the reports, the elements that were options (with their
      arguments and the terminator), and the elements that were not. */
  datatype Parsed = Parsed(events: seq<Event>, opts: seq<string>, rest: seq<string>)

  predicate IsOption(a: string) {
    |a| >= 2 && a[0] == '-'
  }

  predicate IsLong(cfg: Config, a: string)
    requires IsOption(a)
  {
    cfg.longopts.Some? && a[1] == '-'
  }

  /** The settings under which the scanner permutes: no ordering prefix, no
      "W;" entry, and no long option reporting the end-of-scan code. */
  predicate Supported(cfg: Config) {
    && (cfg.optstring == "" || (cfg.optstring[0] != '-' && cfg.optstring[0] != '+'))
    && (forall i :: 0 <= i < |cfg.optstring| - 1 ==> !(cfg.optstring[i] == 'W' && cfg.optstring[i + 1] == ';'))
    && (cfg.longopts.Some? ==>
          forall i :: 0 <= i < |cfg.longopts.value| ==> cfg.longopts.value[i].flag.None? ==> cfg.longopts.value[i].val != -1)
  }

  // ---------------------------------------------------------------- long names

  datatype Lookup = Found(index: nat) | Ambiguous | Unknown

  predicate IsExact(opts: seq<LongOption>, name: string, i: nat) {
    i < |opts| && opts[i].name == name
  }

  predicate IsMatch(opts: seq<LongOption>, name: string, i: nat) {
    i < |opts| && name <= opts[i].name
  }

  ghost predicate IsFirstExact(opts: seq<LongOption>, name: string, i: nat) {
    IsExact(opts, name, i) && forall k :: 0 <= k < i ==> !IsExact(opts, name, k)
  }

  ghost predicate IsOnlyMatch(opts: seq<LongOption>, name: string, i: nat) {
    IsMatch(opts, name, i) && forall k :: IsMatch(opts, name, k) ==> k == i
  }

  /** The first exact name wins; otherwise an abbreviation must be unique. */
  ghost function Resolve(opts: seq<LongOption>, name: string): (r: Lookup)
    ensures r.Found? ==> r.index < |opts|
  {
    if exists i :: IsFirstExact(opts, name, i) then
      var i :| IsFirstExact(opts, name, i); Found(i)
    else if exists i :: IsOnlyMatch(opts, name, i) then
      var i :| IsOnlyMatch(opts, name, i); Found(i)
    else if exists i :: IsMatch(opts, name, i) then Ambiguous
    else Unknown
  }

  /** The position of the first '=' of s, or its length. */
  function NameEnd(s: string): (n: nat)
    ensures n <= |s| && '=' !in s[..n] && (n < |s| ==> s[n] == '=')
  {
    if s == "" || s[0] == '=' then 0 else
      var n := 1 + NameEnd(s[1..]);
      assert s[..n] == [s[0]] + s[1..][..n - 1];
      n
  }

  function MissingCode(cfg: Config): int {
    if cfg.optstring != "" && cfg.optstring[0] == ':' then ':' as int else '?' as int
  }

  function LongCode(o: LongOption): int {
    if o.flag.Some? then 0 else o.val
  }

  /** The report for the long option text s (after its two dashes), and
      whether it uses up the next argument. */
  ghost function LongEvent(cfg: Config, s: string, next: Option<string>): (r: (Event, bool))
    requires cfg.longopts.Some?
    ensures r.1 ==> next.Some?
  {
    var n := NameEnd(s);
    match Resolve(cfg.longopts.value, s[..n])
    case Found(i) =>
      var o := cfg.longopts.value[i];
      if n < |s| then
        if o.hasArg != NO_ARGUMENT then (Event(LongCode(o), Some(s[n + 1..]), None, Some(i)), false)
        else (Event('?' as int, None, Some(o.val), None), false)
      else if o.hasArg == REQUIRED_ARGUMENT then
        match next
        case Some(a) => (Event(LongCode(o), Some(a), None, Some(i)), true)
        case None => (Event(MissingCode(cfg), None, Some(o.val), None), false)
      else (Event(LongCode(o), None, None, Some(i)), false)
    case _ => (Event('?' as int, None, Some(0), None), false)
  }

  // -------------------------------------------------------------- short options

  /** The part of the option string that starts at the first c. */
  function Lookfor(optstring: string, c: char): (t: Option<string>)
    ensures t.None? <==> c !in optstring
    ensures t.Some? ==> t.value != "" && t.value[0] == c
  {
    if optstring == "" then None
    else if optstring[0] == c then Some(optstring)
    else Lookfor(optstring[1..], c)
  }

  datatype Kind = Invalid | Plain | Required | Optional

  function KindOf(cfg: Config, c: char): Kind {
    match Lookfor(cfg.optstring, c)
    case None => Invalid
    case Some(t) =>
      if c == ':' then Invalid
      else if |t| >= 2 && t[1] == ':' then (if |t| >= 3 && t[2] == ':' then Optional else Required)
      else Plain
  }

  datatype Short = Short(event: Event, left: string, takesNext: bool)

  /** The report for the first letter of the cluster s, what is left of the
      cluster, and whether the next argument is used up. */
  function ShortEvent(cfg: Config, s: string, next: Option<string>): (r: Short)
    requires s != ""
    ensures |r.left| < |s|
    ensures r.takesNext ==> next.Some? && r.left == ""
  {
    var c := s[0] as int;
    match KindOf(cfg, s[0])
    case Invalid => Short(Event('?' as int, None, Some(c), None), s[1..], false)
    case Plain => Short(Event(c, None, None, None), s[1..], false)
    case Optional => Short(Event(c, if |s| > 1 then Some(s[1..]) else None, None, None), "", false)
    case Required =>
      if |s| > 1 then Short(Event(c, Some(s[1..]), None, None), "", false)
      else match next
        case Some(a) => Short(Event(c, Some(a), None, None), "", true)
        case None => Short(Event(MissingCode(cfg), None, Some(c), None), "", false)
  }

  // -------------------------------------------------------------- whole readings

  function Head(w: seq<string>): Option<string> {
    if w == [] then None else Some(w[0])
  }

  function Push(e: Event, taken: seq<string>, p: Parsed): Parsed {
    Parsed([e] + p.events, taken + p.opts, p.rest)
  }

  /** Reads w from left to right; a nonempty s is what is left of the cluster
      w[0]. An element that is being read counts as an option as a whole. */
  ghost function ParseFrom(cfg: Config, s: string, w: seq<string>): Parsed
    decreases |w|, if s == "" && w != [] then |w[0]| else |s|
  {
    if w == [] then Parsed([], [], [])
    else if s != "" then
      var r := ShortEvent(cfg, s, Head(w[1..]));
      var k := if r.takesNext then 2 else 1;
      if r.left == "" then Push(r.event, w[..k], ParseFrom(cfg, "", w[k..]))
      else Push(r.event, [], ParseFrom(cfg, r.left, w))
    else if w[0] == "--" then Parsed([], w[..1], w[1..])
    else if !IsOption(w[0]) then
      var p := ParseFrom(cfg, "", w[1..]);
      p.(rest := w[..1] + p.rest)
    else if IsLong(cfg, w[0]) then
      var (e, takesNext) := LongEvent(cfg, w[0][2..], Head(w[1..]));
      var k := if takesNext then 2 else 1;
      Push(e, w[..k], ParseFrom(cfg, "", w[k..]))
    else ParseFrom(cfg, w[0][1..], w)
  }

  ghost function Parse(cfg: Config, w: seq<string>): Parsed {
    ParseFrom(cfg, "", w)
  }
}
