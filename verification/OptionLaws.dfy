/** Laws of the option grammar: argument lists as lists of groups, which occurrence wins, what
    reordering changes, where the three dialects agree, and rendering settings as arguments. */
module OptionLaws {
  import opened Outcomes
  import opened Options

  // ---------------------------------------------------------------- single options

  lemma ValueOption(d: Dialect, n: Numerals, f: Flag, v: string, rest: seq<string>, s: Settings)
    requires TakesValue(f)
    ensures Parse(d, n, [NameOf(f), v] + rest, s) ==
            if !d.Cxx? && (f.Verbosity? || f.Kest?) then Rejected
            else
              var r := Assign(d, n, f, v, s);
              if r.Accepted? then Parse(d, n, rest, r.s) else r
  {
    var args := [NameOf(f), v] + rest;
    assert args[0] == NameOf(f) && args[1] == v && args[2..] == rest;
    NameIsFlag(Cxx, f);
    SameFlag(d, NameOf(f));
  }

  /** What each option with a text does, by its name. */
  lemma TextOption(d: Dialect, n: Numerals, v: string, rest: seq<string>, s: Settings)
    ensures Parse(d, n, ["-pub", v] + rest, s) == Parse(d, n, rest, s.(pub := Some(v)))
    ensures Parse(d, n, ["-sub", v] + rest, s) == Parse(d, n, rest, s.(sub := Some(v)))
    ensures Parse(d, n, ["-color", v] + rest, s) == Parse(d, n, rest, s.(color := Some(v)))
    ensures Parse(d, n, ["-governance", v] + rest, s) == Parse(d, n, rest, s.(governance := Some(v)))
    ensures Parse(d, n, ["-permissions", v] + rest, s) == Parse(d, n, rest, s.(permissions := Some(v)))
    ensures Parse(d, n, ["-partition", v] + rest, s) == Parse(d, n, rest, s.(partition := Some(v)))
  {
    ValueOption(d, n, Pub, v, rest, s);
    ValueOption(d, n, Sub, v, rest, s);
    ValueOption(d, n, Color, v, rest, s);
    ValueOption(d, n, Governance, v, rest, s);
    ValueOption(d, n, Permissions, v, rest, s);
    ValueOption(d, n, Partition, v, rest, s);
  }

  /** The options with a number: C++ and eProsima convert anything, Java may throw. */
  lemma NumberOption(d: Dialect, n: Numerals, v: string, rest: seq<string>, s: Settings)
    ensures Parse(d, n, ["-domain", v] + rest, s) ==
            if !d.Java? then Parse(d, n, rest, s.(domain := n.atoi(v)))
            else if n.parseInt(v).None? then Crashed
            else Parse(d, n, rest, s.(domain := n.parseInt(v).value))
    ensures Parse(d, n, ["-livelinessPeriod", v] + rest, s) ==
            if !d.Java? then Parse(d, n, rest, s.(liveliness := n.atof(v)))
            else if n.parseFloat(v).None? then Crashed
            else Parse(d, n, rest, s.(liveliness := n.parseFloat(v).value))
  {
    ValueOption(d, n, Domain, v, rest, s);
    ValueOption(d, n, Liveliness, v, rest, s);
  }

  /** The options that only the C++ program knows. Of a verbosity its first character counts. */
  lemma CxxOption(d: Dialect, n: Numerals, v: string, rest: seq<string>, s: Settings)
    ensures Parse(d, n, ["-kest", v] + rest, s) == if d.Cxx? then Parse(d, n, rest, s.(kest := Some(v))) else Rejected
    ensures Parse(d, n, ["-v", v] + rest, s) ==
            if d.Cxx? && v != "" && v[0] == 'd' then Parse(d, n, rest, s.(debug := true))
            else if d.Cxx? && v != "" && v[0] == 'e' then Parse(d, n, rest, s.(debug := false))
            else Rejected
  {
    ValueOption(d, n, Kest, v, rest, s);
    ValueOption(d, n, Verbosity, v, rest, s);
  }

  /** The switches, and the end of the list. */
  lemma SwitchOption(d: Dialect, n: Numerals, rest: seq<string>, s: Settings)
    ensures Parse(d, n, [], s) == Accepted(s)
    ensures Parse(d, n, ["-disableSecurity"] + rest, s) == Parse(d, n, rest, s.(security := false))
    ensures Parse(d, n, ["-logging"] + rest, s) == Parse(d, n, rest, s.(logging := true))
  {
    assert (["-disableSecurity"] + rest)[1..] == rest && (["-logging"] + rest)[1..] == rest;
    NameIsFlag(d, DisableSecurity);
    NameIsFlag(d, Logging);
  }

  /** Everything else is rejected: an unknown word, a request for help, and a value option at the
      end of the list. */
  lemma OtherArgument(d: Dialect, n: Numerals, arg: string, rest: seq<string>, s: Settings)
    requires arg != "-disableSecurity" && arg != "-logging"
    requires rest == []
             || (&& arg != "-domain" && arg != "-livelinessPeriod" && arg != "-pub" && arg != "-sub" && arg != "-color"
                 && arg != "-governance" && arg != "-permissions" && arg != "-partition" && arg != "-kest" && arg != "-v")
    ensures Parse(d, n, [arg] + rest, s) == Rejected
  {
    assert ([arg] + rest)[0] == arg;
  }

  // ---------------------------------------------------------------- groups

  /** One option with its value; a switch has the empty value. */
  datatype Group = Group(flag: Flag, value: string)

  function Words(g: Group): seq<string>
    requires TakesValue(g.flag) || IsSwitch(g.flag)
  {
    if IsSwitch(g.flag) then [NameOf(g.flag)] else [NameOf(g.flag), g.value]
  }

  /** The dialect knows the option and accepts the value. */
  predicate IsLegal(d: Dialect, n: Numerals, g: Group) {
    if IsSwitch(g.flag) then g.value == ""
    else TakesValue(g.flag) && (d.Cxx? || (!g.flag.Verbosity? && !g.flag.Kest?))
         && Assign(d, n, g.flag, g.value, INITIAL).Accepted?
  }

  predicate AreLegal(d: Dialect, n: Numerals, gs: seq<Group>) {
    forall i :: 0 <= i < |gs| ==> IsLegal(d, n, gs[i])
  }

  function Apply(d: Dialect, n: Numerals, g: Group, s: Settings): Settings
    requires IsLegal(d, n, g)
  {
    if IsSwitch(g.flag) then Switch(g.flag, s) else Assign(d, n, g.flag, g.value, s).s
  }

  function ApplyAll(d: Dialect, n: Numerals, gs: seq<Group>, s: Settings): Settings
    requires AreLegal(d, n, gs)
    decreases |gs|
  {
    if gs == [] then s else ApplyAll(d, n, gs[1..], Apply(d, n, gs[0], s))
  }

  function Flatten(d: Dialect, n: Numerals, gs: seq<Group>): seq<string>
    requires AreLegal(d, n, gs)
    decreases |gs|
  {
    if gs == [] then [] else Words(gs[0]) + Flatten(d, n, gs[1..])
  }

  lemma NameIsFlag(d: Dialect, f: Flag)
    requires IsSwitch(f) || (TakesValue(f) && (d.Cxx? || (!f.Verbosity? && !f.Kest?)))
    ensures FlagOf(d, NameOf(f)) == f
  {
  }

  lemma FlagIsName(d: Dialect, arg: string)
    ensures var f := FlagOf(d, arg); TakesValue(f) || IsSwitch(f) ==> NameOf(f) == arg
  {
  }

  /** A list of legal groups parses to their effects in turn. */
  lemma {:induction false} ParseGroups(d: Dialect, n: Numerals, gs: seq<Group>, s: Settings)
    requires AreLegal(d, n, gs)
    ensures Parse(d, n, Flatten(d, n, gs), s) == Accepted(ApplyAll(d, n, gs, s))
    decreases |gs|
  {
    if gs != [] {
      var g, args, rest := gs[0], Flatten(d, n, gs), Flatten(d, n, gs[1..]);
      NameIsFlag(d, g.flag);
      assert args[0] == NameOf(g.flag);
      ParseGroups(d, n, gs[1..], Apply(d, n, g, s));
      if IsSwitch(g.flag) {
        assert args[1..] == rest;
      } else {
        assert args[1] == g.value && args[2..] == rest;
      }
    }
  }

  lemma OneMoreGroup(d: Dialect, n: Numerals, g: Group, tail: seq<Group>, s: Settings)
    requires IsLegal(d, n, g) && AreLegal(d, n, tail)
    ensures AreLegal(d, n, [g] + tail)
    ensures Flatten(d, n, [g] + tail) == Words(g) + Flatten(d, n, tail)
    ensures ApplyAll(d, n, [g] + tail, s) == ApplyAll(d, n, tail, Apply(d, n, g, s))
  {
    assert ([g] + tail)[1..] == tail;
  }

  /** Only lists of legal groups are accepted. */
  lemma {:induction false} AcceptedAreGroups(d: Dialect, n: Numerals, args: seq<string>, s: Settings)
    returns (gs: seq<Group>)
    requires Parse(d, n, args, s).Accepted?
    ensures AreLegal(d, n, gs) && Flatten(d, n, gs) == args
    ensures Parse(d, n, args, s) == Accepted(ApplyAll(d, n, gs, s))
    decreases |args|
  {
    if args == [] {
      gs := [];
    } else {
      var g, rest := FirstGroup(d, n, args, s);
      var tail := AcceptedAreGroups(d, n, rest, Apply(d, n, g, s));
      gs := [g] + tail;
      OneMoreGroup(d, n, g, tail, s);
    }
  }

  lemma FirstGroup(d: Dialect, n: Numerals, args: seq<string>, s: Settings) returns (g: Group, rest: seq<string>)
    requires args != [] && Parse(d, n, args, s).Accepted?
    ensures IsLegal(d, n, g) && args == Words(g) + rest && |rest| < |args|
    ensures Parse(d, n, args, s) == Parse(d, n, rest, Apply(d, n, g, s))
  {
    var f := FlagOf(d, args[0]);
    FlagIsName(d, args[0]);
    g := Group(f, if IsSwitch(f) then "" else args[1]);
    rest := if IsSwitch(f) then args[1..] else args[2..];
  }

  // ---------------------------------------------------------------- the last occurrence wins

  datatype Value = Text(t: Option<string>) | Number(i: int) | Seconds(r: real) | Bool(b: bool)

  /** The option variable that a flag sets. */
  function Get(s: Settings, f: Flag): Value
    requires TakesValue(f) || IsSwitch(f)
  {
    match f
    case Verbosity => Bool(s.debug)
    case Domain => Number(s.domain)
    case Pub => Text(s.pub)
    case Sub => Text(s.sub)
    case Color => Text(s.color)
    case Governance => Text(s.governance)
    case Permissions => Text(s.permissions)
    case Kest => Text(s.kest)
    case Partition => Text(s.partition)
    case Liveliness => Seconds(s.liveliness)
    case DisableSecurity => Bool(s.security)
    case Logging => Bool(s.logging)
  }

  /** The groups of one flag, in order. */
  function OfFlag(gs: seq<Group>, f: Flag): seq<Group>
    decreases |gs|
  {
    if gs == [] then []
    else if gs[0].flag == f then [gs[0]] + OfFlag(gs[1..], f)
    else OfFlag(gs[1..], f)
  }

  lemma OneGroup(d: Dialect, n: Numerals, g: Group, s: Settings, f: Flag)
    requires IsLegal(d, n, g) && (TakesValue(f) || IsSwitch(f))
    ensures Get(Apply(d, n, g, s), f) == if g.flag == f then Get(Apply(d, n, g, INITIAL), f) else Get(s, f)
  {
  }

  lemma {:induction false} OfFlagLegal(d: Dialect, n: Numerals, gs: seq<Group>, f: Flag)
    requires AreLegal(d, n, gs)
    ensures AreLegal(d, n, OfFlag(gs, f))
    ensures forall i :: 0 <= i < |OfFlag(gs, f)| ==> OfFlag(gs, f)[i].flag == f
    decreases |gs|
  {
    if gs != [] {
      OfFlagLegal(d, n, gs[1..], f);
    }
  }

  /** Each option variable ends with the value of the last group of its flag, alone, and is
      as it was if there is none. */
  lemma {:induction false} LastWins(d: Dialect, n: Numerals, gs: seq<Group>, s: Settings, f: Flag)
    requires AreLegal(d, n, gs) && (TakesValue(f) || IsSwitch(f))
    ensures AreLegal(d, n, OfFlag(gs, f))
    ensures var own := OfFlag(gs, f);
            Get(ApplyAll(d, n, gs, s), f)
            == if own == [] then Get(s, f) else Get(Apply(d, n, own[|own| - 1], INITIAL), f)
    decreases |gs|
  {
    OfFlagLegal(d, n, gs, f);
    if gs != [] {
      var s' := Apply(d, n, gs[0], s);
      OneGroup(d, n, gs[0], s, f);
      LastWins(d, n, gs[1..], s', f);
    }
  }

  lemma SettingsExtensional(s: Settings, t: Settings)
    requires forall f: Flag :: TakesValue(f) || IsSwitch(f) ==> Get(s, f) == Get(t, f)
    ensures s == t
  {
    SameTexts(s, t);
    assert Get(s, Verbosity) == Get(t, Verbosity);
    assert Get(s, Domain) == Get(t, Domain);
    assert Get(s, Liveliness) == Get(t, Liveliness);
    assert Get(s, DisableSecurity) == Get(t, DisableSecurity);
    assert Get(s, Logging) == Get(t, Logging);
  }

  lemma SameTexts(s: Settings, t: Settings)
    requires forall f: Flag :: TakesValue(f) || IsSwitch(f) ==> Get(s, f) == Get(t, f)
    ensures s.pub == t.pub && s.sub == t.sub && s.color == t.color && s.governance == t.governance
    ensures s.permissions == t.permissions && s.kest == t.kest && s.partition == t.partition
  {
    assert Get(s, Pub) == Get(t, Pub) && Get(s, Sub) == Get(t, Sub) && Get(s, Color) == Get(t, Color);
    assert Get(s, Governance) == Get(t, Governance) && Get(s, Permissions) == Get(t, Permissions);
    assert Get(s, Kest) == Get(t, Kest) && Get(s, Partition) == Get(t, Partition);
  }

  lemma SameGroupsSameValue(d: Dialect, n: Numerals, gs: seq<Group>, hs: seq<Group>, s: Settings, f: Flag)
    requires AreLegal(d, n, gs) && AreLegal(d, n, hs) && OfFlag(gs, f) == OfFlag(hs, f)
    requires TakesValue(f) || IsSwitch(f)
    ensures Get(ApplyAll(d, n, gs, s), f) == Get(ApplyAll(d, n, hs, s), f)
  {
    LastWins(d, n, gs, s, f);
    LastWins(d, n, hs, s, f);
  }

  lemma ReorderedEffect(d: Dialect, n: Numerals, gs: seq<Group>, hs: seq<Group>, s: Settings)
    requires AreLegal(d, n, gs) && AreLegal(d, n, hs)
    requires forall f: Flag :: OfFlag(gs, f) == OfFlag(hs, f)
    ensures ApplyAll(d, n, gs, s) == ApplyAll(d, n, hs, s)
  {
    var a, b := ApplyAll(d, n, gs, s), ApplyAll(d, n, hs, s);
    forall f: Flag | TakesValue(f) || IsSwitch(f) ensures Get(a, f) == Get(b, f) {
      SameGroupsSameValue(d, n, gs, hs, s, f);
    }
    SettingsExtensional(a, b);
  }

  /** Reordering groups of different flags changes nothing: two legal lists that have the same
      groups of each flag in the same order parse alike. */
  lemma Reordering(d: Dialect, n: Numerals, gs: seq<Group>, hs: seq<Group>, s: Settings)
    requires AreLegal(d, n, gs) && AreLegal(d, n, hs)
    requires forall f: Flag :: OfFlag(gs, f) == OfFlag(hs, f)
    ensures Parse(d, n, Flatten(d, n, gs), s) == Parse(d, n, Flatten(d, n, hs), s)
  {
    ParseGroups(d, n, gs, s);
    ParseGroups(d, n, hs, s);
    ReorderedEffect(d, n, gs, hs, s);
  }

  // ---------------------------------------------------------------- the dialects

  /** Some -v or -kest stands where the C++ loop looks for an option. */
  predicate UsesCxxOnly(args: seq<string>)
    decreases |args|
  {
    args != [] &&
    var f := FlagOf(Cxx, args[0]);
    if f.Verbosity? || f.Kest? then true
    else if IsSwitch(f) then UsesCxxOnly(args[1..])
    else TakesValue(f) && |args| > 1 && UsesCxxOnly(args[2..])
  }

  /** Java's conversions accept every number that stands as a value before parsing ends. */
  predicate NumbersParse(n: Numerals, args: seq<string>)
    decreases |args|
  {
    args == [] ||
    var f := FlagOf(Java, args[0]);
    if IsSwitch(f) then NumbersParse(n, args[1..])
    else if TakesValue(f) && |args| > 1 then
      && (f.Domain? ==> n.parseInt(args[1]).Some?)
      && (f.Liveliness? ==> n.parseFloat(args[1]).Some?)
      && NumbersParse(n, args[2..])
    else true
  }

  /** The value of the last option of a flag. */
  function LastValue(args: seq<string>, flag: Flag): Option<string>
    decreases |args|
  {
    if args == [] then None
    else
      var f := FlagOf(Java, args[0]);
      if IsSwitch(f) then LastValue(args[1..], flag)
      else if TakesValue(f) && |args| > 1 then
        var later := LastValue(args[2..], flag);
        if later.None? && f == flag then Some(args[1]) else later
      else None
  }

  // What the Java program's two number variables hold after an accepted list.
  function JavaDomain(n: Numerals, args: seq<string>, initial: int): int {
    match LastValue(args, Domain)
    case None => initial
    case Some(v) => if n.parseInt(v).Some? then n.parseInt(v).value else initial
  }

  function JavaLiveliness(n: Numerals, args: seq<string>, initial: real): real {
    match LastValue(args, Liveliness)
    case None => initial
    case Some(v) => if n.parseFloat(v).Some? then n.parseFloat(v).value else initial
  }

  /** Both languages read the last domain and the last period given alike. */
  predicate LastReadAlike(n: Numerals, args: seq<string>) {
    var d, l := LastValue(args, Domain), LastValue(args, Liveliness);
    && (d.Some? ==> n.parseInt(d.value) == Some(n.atoi(d.value)))
    && (l.Some? ==> n.parseFloat(l.value) == Some(n.atof(l.value)))
  }

  lemma SameFlag(d: Dialect, arg: string)
    ensures FlagOf(d, arg) == if !d.Cxx? && (FlagOf(Cxx, arg).Verbosity? || FlagOf(Cxx, arg).Kest?)
                              then Unknown else FlagOf(Cxx, arg)
  {
  }

  /** The C++ and eProsima programs treat an argument list alike exactly if it uses neither of
      the two options that only the first has, or the first rejects it too. */
  lemma {:induction false} CxxAndEProsima(n: Numerals, args: seq<string>, s: Settings)
    ensures Parse(Cxx, n, args, s) == Parse(EProsima, n, args, s)
            <==> !UsesCxxOnly(args) || Parse(Cxx, n, args, s) == Rejected
    ensures UsesCxxOnly(args) ==> Parse(EProsima, n, args, s) == Rejected
    decreases |args|
  {
    if args != [] {
      SameFlag(EProsima, args[0]);
      var f := FlagOf(Cxx, args[0]);
      if IsSwitch(f) {
        CxxAndEProsima(n, args[1..], Switch(f, s));
      } else if TakesValue(f) && |args| > 1 && !f.Verbosity? && !f.Kest? {
        CxxAndEProsima(n, args[2..], Assign(Cxx, n, f, args[1], s).s);
      }
    }
  }

  lemma {:induction false} LastNumbersParse(n: Numerals, args: seq<string>)
    requires NumbersParse(n, args)
    ensures var d, l := LastValue(args, Domain), LastValue(args, Liveliness);
            && (d.Some? ==> n.parseInt(d.value).Some?)
            && (l.Some? ==> n.parseFloat(l.value).Some?)
    decreases |args|
  {
    if args != [] {
      var f := FlagOf(Java, args[0]);
      if IsSwitch(f) {
        LastNumbersParse(n, args[1..]);
      } else if TakesValue(f) && |args| > 1 {
        LastNumbersParse(n, args[2..]);
      }
    }
  }

  /** One value option, read by both languages into settings that differ at most in numbers. */
  lemma AssignInJava(n: Numerals, f: Flag, v: string, s: Settings, i: int, l: real)
    requires TakesValue(f) && !f.Verbosity? && !f.Kest?
    ensures Assign(Cxx, n, f, v, s).Accepted?
    ensures var s' := Assign(Cxx, n, f, v, s).s;
            Assign(Java, n, f, v, s.(domain := i, liveliness := l)) ==
            match f
            case Domain =>
              if n.parseInt(v).None? then Crashed
              else Accepted(s'.(domain := n.parseInt(v).value, liveliness := l))
            case Liveliness =>
              if n.parseFloat(v).None? then Crashed
              else Accepted(s'.(domain := i, liveliness := n.parseFloat(v).value))
            case _ => Accepted(s'.(domain := i, liveliness := l))
  {
  }

  /** The Java program's result from the C++ program's: it crashes exactly if a number before
      the end of parsing does not parse; else it rejects exactly if C++ does or an option of C++
      alone is used; else it sets the same variables, with its own readings of the last numbers. */
  function JavaResult(n: Numerals, args: seq<string>, cxx: Parsed, i: int, l: real): Parsed {
    if !NumbersParse(n, args) then Crashed
    else if UsesCxxOnly(args) || !cxx.Accepted? then Rejected
    else Accepted(cxx.s.(domain := JavaDomain(n, args, i), liveliness := JavaLiveliness(n, args, l)))
  }

  lemma JavaResultBehindValue(n: Numerals, args: seq<string>, cxx: Parsed, i: int, l: real)
    requires |args| > 1
    requires var f := FlagOf(Cxx, args[0]); TakesValue(f) && !f.Verbosity? && !f.Kest?
    ensures var f, v := FlagOf(Cxx, args[0]), args[1];
            JavaResult(n, args, cxx, i, l) ==
            if (f.Domain? && n.parseInt(v).None?) || (f.Liveliness? && n.parseFloat(v).None?) then Crashed
            else JavaResult(n, args[2..], cxx, if f.Domain? then n.parseInt(v).value else i,
                            if f.Liveliness? then n.parseFloat(v).value else l)
  {
    SameFlag(Java, args[0]);
    if NumbersParse(n, args[2..]) {
      LastNumbersParse(n, args[2..]);
    }
  }

  lemma {:induction false} JavaFromCxx(n: Numerals, args: seq<string>, s: Settings, i: int, l: real)
    ensures Parse(Java, n, args, s.(domain := i, liveliness := l)) == JavaResult(n, args, Parse(Cxx, n, args, s), i, l)
    decreases |args|
  {
    if args != [] {
      SameFlag(Java, args[0]);
      var f := FlagOf(Cxx, args[0]);
      if IsSwitch(f) {
        JavaFromCxx(n, args[1..], Switch(f, s), i, l);
      } else if TakesValue(f) && |args| > 1 && !f.Verbosity? && !f.Kest? {
        var v := args[1];
        AssignInJava(n, f, v, s, i, l);
        JavaResultBehindValue(n, args, Parse(Cxx, n, args, s), i, l);
        if !(f.Domain? && n.parseInt(v).None?) && !(f.Liveliness? && n.parseFloat(v).None?) {
          JavaFromCxx(n, args[2..], Assign(Cxx, n, f, v, s).s, if f.Domain? then n.parseInt(v).value else i,
                      if f.Liveliness? then n.parseFloat(v).value else l);
        }
      }
    }
  }

  lemma {:induction false} CxxReadsLast(n: Numerals, args: seq<string>, s: Settings)
    requires !UsesCxxOnly(args)
    ensures var cxx, d, l := Parse(Cxx, n, args, s), LastValue(args, Domain), LastValue(args, Liveliness);
            && !cxx.Crashed?
            && (cxx.Accepted? ==>
                  && cxx.s.domain == (if d.Some? then n.atoi(d.value) else s.domain)
                  && cxx.s.liveliness == (if l.Some? then n.atof(l.value) else s.liveliness))
    decreases |args|
  {
    if args != [] {
      SameFlag(Java, args[0]);
      var f := FlagOf(Cxx, args[0]);
      if IsSwitch(f) {
        CxxReadsLast(n, args[1..], Switch(f, s));
      } else if TakesValue(f) && |args| > 1 {
        CxxReadsLast(n, args[2..], Assign(Cxx, n, f, args[1], s).s);
      }
    }
  }

  lemma {:induction false} CxxNeverCrashes(n: Numerals, args: seq<string>, s: Settings)
    ensures !Parse(Cxx, n, args, s).Crashed?
    decreases |args|
  {
    if args != [] {
      var f := FlagOf(Cxx, args[0]);
      if IsSwitch(f) {
        CxxNeverCrashes(n, args[1..], Switch(f, s));
      } else if TakesValue(f) && |args| > 1 && Assign(Cxx, n, f, args[1], s).Accepted? {
        CxxNeverCrashes(n, args[2..], Assign(Cxx, n, f, args[1], s).s);
      }
    }
  }

  /** What it takes for all parsers to treat a list alike: every number that is reached parses
      in Java, and if C++ accepts the list, it uses no option of C++ alone and the last domain
      and the last period are read alike. */
  predicate ReadAlike(n: Numerals, args: seq<string>, s: Settings) {
    NumbersParse(n, args) && (Parse(Cxx, n, args, s).Accepted? ==> !UsesCxxOnly(args) && LastReadAlike(n, args))
  }

  /** The three programs treat an argument list alike, on exactly those lists. */
  lemma ThreeParsersAgree(n: Numerals, args: seq<string>, s: Settings)
    ensures Parse(Java, n, args, s) == Parse(Cxx, n, args, s) == Parse(EProsima, n, args, s) <==> ReadAlike(n, args, s)
    ensures Parse(Java, n, args, s) == Parse(Cxx, n, args, s) <==> ReadAlike(n, args, s)
  {
    CxxAndEProsima(n, args, s);
    CxxNeverCrashes(n, args, s);
    JavaFromCxx(n, args, s, s.domain, s.liveliness);
    assert s.(domain := s.domain, liveliness := s.liveliness) == s;
    if !UsesCxxOnly(args) {
      CxxReadsLast(n, args, s);
    }
    if NumbersParse(n, args) {
      LastNumbersParse(n, args);
    }
  }

  /** A list on which they differ: a number that C converts and Java does not, as " 5". */
  lemma UnreadableNumber(n: Numerals, v: string, s: Settings)
    requires n.parseInt(v).None?
    ensures Parse(Java, n, ["-domain", v], s) == Crashed
    ensures Parse(Cxx, n, ["-domain", v], s) == Accepted(s.(domain := n.atoi(v)))
    ensures !ReadAlike(n, ["-domain", v], s)
  {
    var args := ["-domain", v];
    assert FlagOf(Java, args[0]) == FlagOf(Cxx, args[0]) == Domain;
    assert args[2..] == [];
    assert Parse(Cxx, n, args, s) == Parse(Cxx, n, args[2..], s.(domain := n.atoi(v)));
  }

  // ---------------------------------------------------------------- rendering

  /** Number formatting that the dialect's conversions undo on the numbers of `s`. */
  ghost predicate Prints(d: Dialect, n: Numerals, itoa: int -> string, ftoa: real -> string, s: Settings) {
    if d.Java?
    then n.parseInt(itoa(s.domain)) == Some(s.domain) && n.parseFloat(ftoa(s.liveliness)) == Some(s.liveliness)
    else n.atoi(itoa(s.domain)) == s.domain && n.atof(ftoa(s.liveliness)) == s.liveliness
  }

  /** Variables that the dialect's program has. */
  predicate InDialect(d: Dialect, s: Settings) {
    d.Cxx? || (s.kest.None? && !s.debug)
  }

  const ALL_FLAGS: seq<Flag> := [Domain, Liveliness, Pub, Sub, Color, Governance, Permissions, Kest, Partition,
                                 DisableSecurity, Logging, Verbosity]

  /** The option, if any, that sets the variable of `f` to its value in `s`. */
  function Piece(f: Flag, s: Settings, itoa: int -> string, ftoa: real -> string): (gs: seq<Group>)
    requires TakesValue(f) || IsSwitch(f)
    ensures |gs| <= 1 && (gs != [] ==> gs[0].flag == f)
  {
    match Get(s, f)
    case Text(v) => if v.Some? then [Group(f, v.value)] else []
    case Number(i) => [Group(f, itoa(i))]
    case Seconds(r) => [Group(f, ftoa(r))]
    case Bool(b) =>
      if f.DisableSecurity? then (if b then [] else [Group(f, "")])
      else if f.Logging? then (if b then [Group(f, "")] else [])
      else (if b then [Group(f, "d")] else [])
  }

  /** The options that ask for given settings, in a given order of flags. */
  function Render(fs: seq<Flag>, s: Settings, itoa: int -> string, ftoa: real -> string): seq<Group>
    requires forall i :: 0 <= i < |fs| ==> TakesValue(fs[i]) || IsSwitch(fs[i])
  {
    if fs == [] then [] else Piece(fs[0], s, itoa, ftoa) + Render(fs[1..], s, itoa, ftoa)
  }

  lemma {:induction false} OfFlagConcat(gs: seq<Group>, hs: seq<Group>, f: Flag)
    ensures OfFlag(gs + hs, f) == OfFlag(gs, f) + OfFlag(hs, f)
    decreases |gs|
  {
    if gs == [] {
      assert gs + hs == hs;
    } else {
      assert (gs + hs)[1..] == gs[1..] + hs;
      OfFlagConcat(gs[1..], hs, f);
    }
  }

  lemma PieceIsLegal(d: Dialect, n: Numerals, itoa: int -> string, ftoa: real -> string, s: Settings, f: Flag)
    requires Prints(d, n, itoa, ftoa, s) && InDialect(d, s) && (TakesValue(f) || IsSwitch(f))
    ensures AreLegal(d, n, Piece(f, s, itoa, ftoa))
    ensures var gs := Piece(f, s, itoa, ftoa);
            Get(s, f) == if gs == [] then Get(INITIAL, f) else Get(Apply(d, n, gs[0], INITIAL), f)
  {
  }

  lemma {:induction false} RenderIsLegal(d: Dialect, n: Numerals, fs: seq<Flag>, s: Settings,
                                         itoa: int -> string, ftoa: real -> string)
    requires forall i :: 0 <= i < |fs| ==> TakesValue(fs[i]) || IsSwitch(fs[i])
    requires Prints(d, n, itoa, ftoa, s) && InDialect(d, s)
    ensures AreLegal(d, n, Render(fs, s, itoa, ftoa))
  {
    if fs != [] {
      PieceIsLegal(d, n, itoa, ftoa, s, fs[0]);
      RenderIsLegal(d, n, fs[1..], s, itoa, ftoa);
    }
  }

  lemma {:induction false} RenderedOfFlag(fs: seq<Flag>, s: Settings, itoa: int -> string, ftoa: real -> string, f: Flag)
    requires forall i :: 0 <= i < |fs| ==> TakesValue(fs[i]) || IsSwitch(fs[i])
    requires TakesValue(f) || IsSwitch(f)
    ensures var own, piece := OfFlag(Render(fs, s, itoa, ftoa), f), Piece(f, s, itoa, ftoa);
            if own == [] then f in fs ==> piece == [] else piece != [] && own[|own| - 1] == piece[0]
  {
    if fs != [] {
      var first, rest := Piece(fs[0], s, itoa, ftoa), Render(fs[1..], s, itoa, ftoa);
      OfFlagConcat(first, rest, f);
      OfFlagShort(first, f);
      RenderedOfFlag(fs[1..], s, itoa, ftoa, f);
      var own := OfFlag(rest, f);
      if first != [] && fs[0] == f && own == [] {
        assert first + own == first;
      }
    }
  }

  lemma OfFlagShort(gs: seq<Group>, f: Flag)
    requires |gs| <= 1
    ensures OfFlag(gs, f) == if gs != [] && gs[0].flag == f then gs else []
  {
  }

  lemma FlagListed(f: Flag)
    requires TakesValue(f) || IsSwitch(f)
    ensures f in ALL_FLAGS
  {
  }

  lemma RenderedValue(d: Dialect, n: Numerals, itoa: int -> string, ftoa: real -> string, s: Settings, f: Flag)
    requires Prints(d, n, itoa, ftoa, s) && InDialect(d, s) && (TakesValue(f) || IsSwitch(f))
    requires AreLegal(d, n, Render(ALL_FLAGS, s, itoa, ftoa))
    ensures Get(ApplyAll(d, n, Render(ALL_FLAGS, s, itoa, ftoa), INITIAL), f) == Get(s, f)
  {
    FlagListed(f);
    RenderedLast(d, n, ALL_FLAGS, itoa, ftoa, s, f);
  }

  lemma RenderedLast(d: Dialect, n: Numerals, fs: seq<Flag>, itoa: int -> string, ftoa: real -> string, s: Settings, f: Flag)
    requires forall i :: 0 <= i < |fs| ==> TakesValue(fs[i]) || IsSwitch(fs[i])
    requires Prints(d, n, itoa, ftoa, s) && InDialect(d, s) && f in fs
    requires AreLegal(d, n, Render(fs, s, itoa, ftoa))
    ensures Get(ApplyAll(d, n, Render(fs, s, itoa, ftoa), INITIAL), f) == Get(s, f)
  {
    RenderedOfFlag(fs, s, itoa, ftoa, f);
    LastWins(d, n, Render(fs, s, itoa, ftoa), INITIAL, f);
    PieceIsLegal(d, n, itoa, ftoa, s, f);
  }

  /** Rendering settings as arguments and parsing them gives the settings back, for all settings
      of the dialect; if they are resolved, defaulting then leaves them alone. */
  lemma RenderRoundTrip(d: Dialect, n: Numerals, itoa: int -> string, ftoa: real -> string, s: Settings)
    requires Prints(d, n, itoa, ftoa, s) && InDialect(d, s)
    ensures AreLegal(d, n, Render(ALL_FLAGS, s, itoa, ftoa))
    ensures Parse(d, n, Flatten(d, n, Render(ALL_FLAGS, s, itoa, ftoa)), INITIAL) == Accepted(s)
    ensures Resolve(d, Parse(d, n, Flatten(d, n, Render(ALL_FLAGS, s, itoa, ftoa)), INITIAL).s) == s <==> IsResolved(d, s)
  {
    var gs := Render(ALL_FLAGS, s, itoa, ftoa);
    RenderIsLegal(d, n, ALL_FLAGS, s, itoa, ftoa);
    ParseGroups(d, n, gs, INITIAL);
    var t := ApplyAll(d, n, gs, INITIAL);
    forall f: Flag | TakesValue(f) || IsSwitch(f) ensures Get(t, f) == Get(s, f) {
      RenderedValue(d, n, itoa, ftoa, s, f);
    }
    SettingsExtensional(t, s);
    ResolvedIsFixed(d, s);
  }

  // ---------------------------------------------------------------- defaults

  /** Defaulting leaves settings alone exactly when nothing is missing. */
  lemma ResolvedIsFixed(d: Dialect, s: Settings)
    ensures Resolve(d, s) == s <==> IsResolved(d, s)
  {
  }

  /** Nothing makes defaulting replace the variable of `f`. */
  predicate IsKept(d: Dialect, s: Settings, f: Flag) {
    match f
    case Domain => s.domain != -1
    case Pub => s.pub.Some? || s.sub.Some?
    case Sub => s.pub.Some? || s.sub.Some?
    case Color => s.color.Some?
    case Governance => s.governance.Some? || !s.security
    case Permissions => s.permissions.Some? || !s.security
    case Kest => s.kest.Some? || !s.security || !d.Cxx?
    case _ => true
  }

  /** Exactly which variables defaulting leaves alone. */
  lemma ResolveKeeps(d: Dialect, s: Settings, f: Flag)
    requires TakesValue(f) || IsSwitch(f)
    ensures Get(Resolve(d, s), f) == Get(s, f) <==> IsKept(d, s, f)
  {
  }

  /** What defaulting makes of each variable, with the values written out. */
  lemma DefaultsAre(d: Dialect, s: Settings)
    ensures var r := Resolve(d, s);
            && r.domain == (if s.domain == -1 then 0 else s.domain)
            && r.pub == (if s.pub.None? && s.sub.None? then Some("OD_OA_OM_OD") else s.pub)
            && r.sub == (if s.pub.None? && s.sub.None? then Some("OD_OA_OM_OD") else s.sub)
            && r.color == Some(if s.color.None? then "BLACK" else s.color.value)
            && r.governance == (if s.security && s.governance.None? then Some(DefaultGovernance(d)) else s.governance)
            && r.permissions == (if s.security && s.permissions.None? then Some(DefaultPermissions(d)) else s.permissions)
            && r.kest == (if d.Cxx? && s.security && s.kest.None? then Some("ECDHE-CEUM+P256") else s.kest)
            && r == s.(domain := r.domain, pub := r.pub, sub := r.sub, color := r.color,
                       governance := r.governance, permissions := r.permissions, kest := r.kest)
  {
  }

  function DefaultGovernance(d: Dialect): string {
    match d
    case EProsima => "../eprosima_fastrtps_certs/TESTONLY_eprosima_fastrtps_governance_signed.p7s"
    case _ => "TESTONLY_governance_signed.p7s"
  }

  function DefaultPermissions(d: Dialect): string {
    match d
    case EProsima =>
      "../eprosima_fastrtps_certs/TESTONLY_eprosima_fastrtps_permissions_allowall_signed.p7s"
    case _ => "TESTONLY_permissions_signed.p7s"
  }

  /** The value with which a program runs for a flag that is not given. */
  function StatedDefault(d: Dialect, gs: seq<Group>, f: Flag): Value
    requires TakesValue(f) || IsSwitch(f)
  {
    var secure := OfFlag(gs, DisableSecurity) == [];
    match f
    case Verbosity => Bool(false)
    case Domain => Number(0)
    case Pub => Text(if OfFlag(gs, Sub) == [] then Some("OD_OA_OM_OD") else None)
    case Sub => Text(if OfFlag(gs, Pub) == [] then Some("OD_OA_OM_OD") else None)
    case Color => Text(Some("BLACK"))
    case Governance => Text(if secure then Some(DefaultGovernance(d)) else None)
    case Permissions => Text(if secure then Some(DefaultPermissions(d)) else None)
    case Kest => Text(if secure && d.Cxx? then Some("ECDHE-CEUM+P256") else None)
    case Partition => Text(None)
    case Liveliness => Seconds(0.0)
    case DisableSecurity => Bool(true)
    case Logging => Bool(false)
  }

  /** A program runs with the stated default for each flag that its command line does not give. */
  lemma NotGiven(d: Dialect, n: Numerals, gs: seq<Group>, f: Flag)
    requires AreLegal(d, n, gs) && OfFlag(gs, f) == [] && (TakesValue(f) || IsSwitch(f))
    ensures Parse(d, n, Flatten(d, n, gs), INITIAL).Accepted?
    ensures Get(Resolve(d, Parse(d, n, Flatten(d, n, gs), INITIAL).s), f) == StatedDefault(d, gs, f)
  {
    ParseGroups(d, n, gs, INITIAL);
    var s := ApplyAll(d, n, gs, INITIAL);
    LastWins(d, n, gs, INITIAL, f);
    GivenIsSome(d, n, gs, Pub);
    GivenIsSome(d, n, gs, Sub);
    GivenIsSome(d, n, gs, DisableSecurity);
    DefaultOf(d, s, gs, f);
  }

  lemma DefaultOf(d: Dialect, s: Settings, gs: seq<Group>, f: Flag)
    requires (TakesValue(f) || IsSwitch(f)) && Get(s, f) == Get(INITIAL, f) && OfFlag(gs, f) == []
    requires s.pub.Some? <==> OfFlag(gs, Pub) != []
    requires s.sub.Some? <==> OfFlag(gs, Sub) != []
    requires s.security <==> OfFlag(gs, DisableSecurity) == []
    ensures Get(Resolve(d, s), f) == StatedDefault(d, gs, f)
  {
    DefaultsAre(d, s);
  }

  lemma GivenIsSome(d: Dialect, n: Numerals, gs: seq<Group>, f: Flag)
    requires AreLegal(d, n, gs) && (f.Pub? || f.Sub? || f.DisableSecurity?)
    ensures var s := ApplyAll(d, n, gs, INITIAL);
            match f
            case Pub => s.pub.Some? <==> OfFlag(gs, f) != []
            case Sub => s.sub.Some? <==> OfFlag(gs, f) != []
            case _ => s.security <==> OfFlag(gs, f) == []
  {
    LastWins(d, n, gs, INITIAL, f);
    OfFlagLegal(d, n, gs, f);
  }

  /** A program runs with the value of the last option of each flag given on its command line,
      except that a domain of -1 counts as none given and becomes the default. */
  lemma GivenIsKept(d: Dialect, n: Numerals, gs: seq<Group>, f: Flag)
    requires AreLegal(d, n, gs) && OfFlag(gs, f) != []
    ensures TakesValue(f) || IsSwitch(f)
    ensures AreLegal(d, n, OfFlag(gs, f)) && Parse(d, n, Flatten(d, n, gs), INITIAL).Accepted?
    ensures var given := Get(Apply(d, n, OfFlag(gs, f)[|OfFlag(gs, f)| - 1], INITIAL), f);
            Get(Resolve(d, Parse(d, n, Flatten(d, n, gs), INITIAL).s), f)
            == if given == Number(-1) then Number(DOMAIN_ID) else given
  {
    OfFlagLegal(d, n, gs, f);
    var last := OfFlag(gs, f)[|OfFlag(gs, f)| - 1];
    assert last.flag == f && IsLegal(d, n, last);
    ParseGroups(d, n, gs, INITIAL);
    LastWins(d, n, gs, INITIAL, f);
    GivenValue(d, n, last);
    ResolveKeeps(d, ApplyAll(d, n, gs, INITIAL), f);
  }

  lemma GivenValue(d: Dialect, n: Numerals, g: Group)
    requires IsLegal(d, n, g)
    ensures var value := Get(Apply(d, n, g, INITIAL), g.flag);
            value != Text(None) && (value.Number? ==> g.flag.Domain?)
  {
  }

  /** In particular the C++ program's colour: the last one given, or the default. */
  lemma ColorName(n: Numerals, gs: seq<Group>)
    requires AreLegal(Cxx, n, gs)
    ensures Parse(Cxx, n, Flatten(Cxx, n, gs), INITIAL).Accepted?
    ensures Resolve(Cxx, Parse(Cxx, n, Flatten(Cxx, n, gs), INITIAL).s).color == Some(LastColor(gs))
  {
    ParseGroups(Cxx, n, gs, INITIAL);
    LastWins(Cxx, n, gs, INITIAL, Color);
    OfFlagLegal(Cxx, n, gs, Color);
    DefaultsAre(Cxx, ApplyAll(Cxx, n, gs, INITIAL));
  }

  function LastColor(gs: seq<Group>): string {
    var own := OfFlag(gs, Color);
    if own == [] then "BLACK" else own[|own| - 1].value
  }

  // The domain that defaulting makes of a number.
  function DefaultedDomain(i: int): int {
    if i == -1 then DOMAIN_ID else i
  }

  /** Java accepts what C++ accepts exactly if its numbers parse and no option of C++ alone is
      used. The resolved settings then differ at most in the key establishment algorithm, which
      Java does not know, and in the two numbers. */
  lemma SameRun(n: Numerals, args: seq<string>)
    requires Parse(Cxx, n, args, INITIAL).Accepted?
    ensures Parse(Java, n, args, INITIAL).Accepted? <==> NumbersParse(n, args) && !UsesCxxOnly(args)
    ensures Parse(Java, n, args, INITIAL).Accepted? ==>
              var c, j := Resolve(Cxx, Parse(Cxx, n, args, INITIAL).s), Resolve(Java, Parse(Java, n, args, INITIAL).s);
              && j == c.(kest := None, domain := j.domain, liveliness := j.liveliness)
              && j.domain == DefaultedDomain(JavaDomain(n, args, -1))
              && j.liveliness == JavaLiveliness(n, args, 0.0)
              && (j == c.(kest := None) <==>
                    && DefaultedDomain(JavaDomain(n, args, -1)) == c.domain
                    && JavaLiveliness(n, args, 0.0) == c.liveliness)
  {
    JavaFromCxx(n, args, INITIAL, -1, 0.0);
    assert INITIAL.(domain := -1, liveliness := 0.0) == INITIAL;
    if !UsesCxxOnly(args) {
      NoKest(n, args, INITIAL);
    }
  }

  lemma {:induction false} NoKest(n: Numerals, args: seq<string>, s: Settings)
    requires !UsesCxxOnly(args) && Parse(Cxx, n, args, s).Accepted?
    ensures Parse(Cxx, n, args, s).s.kest == s.kest && Parse(Cxx, n, args, s).s.debug == s.debug
    decreases |args|
  {
    if args != [] {
      var f := FlagOf(Cxx, args[0]);
      if IsSwitch(f) {
        NoKest(n, args[1..], Switch(f, s));
      } else {
        NoKest(n, args[2..], Assign(Cxx, n, f, args[1], s).s);
      }
    }
  }
}
