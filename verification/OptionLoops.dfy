/** The option loops of the three main functions, each against the grammar of its dialect. Each
    has its own chain of string comparisons and its own branches for the values; `s` gathers the
    option variables of main. An iteration consumes one argument or two. */
module OptionLoops {
  import opened Outcomes
  import opened Options

  function From(args: seq<string>, i: nat): seq<string> {
    if i <= |args| then args[i..] else []
  }

  /** A pass either moves on to a later argument or ends the parse. */
  datatype Pass = Next(i: nat, s: Settings) | Stop(r: Parsed)

  /** What the grammar asks of the pass at argument `i`. */
  function PassAt(d: Dialect, n: Numerals, args: seq<string>, i: nat, s: Settings): Pass
    requires i < |args|
  {
    var f := FlagOf(d, args[i]);
    if IsSwitch(f) then Next(i + 1, Switch(f, s))
    else if TakesValue(f) && i + 1 < |args| then
      match Assign(d, n, f, args[i + 1], s)
      case Accepted(s') => Next(i + 2, s')
      case r => Stop(r)
    else Stop(Rejected)
  }

  lemma PassParses(d: Dialect, n: Numerals, args: seq<string>, i: nat, s: Settings)
    requires i < |args|
    ensures match PassAt(d, n, args, i, s)
            case Next(i', s') => i < i' && Parse(d, n, From(args, i), s) == Parse(d, n, From(args, i'), s')
            case Stop(r) => Parse(d, n, From(args, i), s) == r
  {
    var rest, f := From(args, i), FlagOf(d, args[i]);
    assert rest[0] == args[i];
    if IsSwitch(f) {
      assert rest[1..] == From(args, i + 1);
    } else if TakesValue(f) && i + 1 < |args| {
      assert rest[1] == args[i + 1] && rest[2..] == From(args, i + 2);
    }
  }

  // ---------------------------------------------------------------- srcCxx/ShapeType_main.cxx

  /** The comparisons of the C++ loop. */
  method CxxFlag(arg: string) returns (f: Flag)
    ensures f == FlagOf(Cxx, arg)
  {
    if arg == "-v" { return Verbosity; }
    if arg == "-domain" { return Domain; }
    if arg == "-pub" { return Pub; }
    if arg == "-sub" { return Sub; }
    if arg == "-color" { return Color; }
    if arg == "-governance" { return Governance; }
    if arg == "-permissions" { return Permissions; }
    if arg == "-kest" { return Kest; }
    if arg == "-partition" { return Partition; }
    if arg == "-livelinessPeriod" { return Liveliness; }
    if arg == "-disableSecurity" { return DisableSecurity; }
    if arg == "-logging" { return Logging; }
    if arg == "-help" || arg == "-h" { return Help; }
    return Unknown;
  }

  /** What the branch of a value option does with the value. */
  method CxxValue(n: Numerals, f: Flag, value: string, s0: Settings) returns (r: Parsed)
    requires TakesValue(f)
    ensures r == Assign(Cxx, n, f, value, s0)
  {
    var s := s0;
    match f {
      case Verbosity =>
        if value == "" { return Rejected; }
        if value[0] == 'd' { s := s.(debug := true); }
        else if value[0] == 'e' { s := s.(debug := false); }
        else { return Rejected; }
      case Domain =>
        s := s.(domain := n.atoi(value));
      case Pub => s := s.(pub := Some(value));
      case Sub => s := s.(sub := Some(value));
      case Color => s := s.(color := Some(value));
      case Governance => s := s.(governance := Some(value));
      case Permissions => s := s.(permissions := Some(value));
      case Kest => s := s.(kest := Some(value));
      case Partition => s := s.(partition := Some(value));
      case Liveliness =>
        s := s.(liveliness := n.atof(value));
    }
    return Accepted(s);
  }

  /** One pass of the loop. */
  method CxxPass(n: Numerals, argv: seq<string>, i0: nat, s0: Settings) returns (p: Pass)
    requires i0 < |argv|
    ensures p == PassAt(Cxx, n, argv, i0, s0)
  {
    var i, s := i0, s0;
    var f := CxxFlag(argv[i]);
    if f == DisableSecurity {
      s := s.(security := false);
    } else if f == Logging {
      s := s.(logging := true);
    } else if f == Help || f == Unknown {
      // Help prints the usage, anything else an error: the result is -1 either way.
      return Stop(Rejected);
    } else {
      i := i + 1;
      if i == |argv| { return Stop(Rejected); }
      var parsed := CxxValue(n, f, argv[i], s);
      if !parsed.Accepted? { return Stop(parsed); }
      s := parsed.s;
    }
    return Next(i + 1, s);
  }

  /** The C++ program; its first argument is the program's name. */
  method CxxMain(n: Numerals, argv: seq<string>) returns (r: Parsed)
    ensures r == Parse(Cxx, n, From(argv, 1), INITIAL)
  {
    var i, s := 1, INITIAL;
    while i < |argv|
      invariant Parse(Cxx, n, From(argv, i), s) == Parse(Cxx, n, From(argv, 1), INITIAL)
    {
      PassParses(Cxx, n, argv, i, s);
      var p := CxxPass(n, argv, i, s);
      if p.Stop? { return p.r; }
      i, s := p.i, p.s;
    }
    r := Accepted(s);
  }

  // ---------------------------------------------------------------- srcCxx/eprosima_fastrtps/ShapeType_main.cpp

  /** The comparisons of the eProsima loop: no -v and no -kest. */
  method EProsimaFlag(arg: string) returns (f: Flag)
    ensures f == FlagOf(EProsima, arg)
  {
    if arg == "-domain" { return Domain; }
    if arg == "-pub" { return Pub; }
    if arg == "-sub" { return Sub; }
    if arg == "-color" { return Color; }
    if arg == "-governance" { return Governance; }
    if arg == "-permissions" { return Permissions; }
    if arg == "-partition" { return Partition; }
    if arg == "-livelinessPeriod" { return Liveliness; }
    if arg == "-disableSecurity" { return DisableSecurity; }
    if arg == "-logging" { return Logging; }
    if arg == "-help" || arg == "-h" { return Help; }
    return Unknown;
  }

  /** What the branch of a value option does with the value. */
  method EProsimaValue(n: Numerals, f: Flag, value: string, s0: Settings) returns (r: Parsed)
    requires TakesValue(f) && !f.Verbosity? && !f.Kest?
    ensures r == Assign(EProsima, n, f, value, s0)
  {
    var s := s0;
    match f {
      case Domain =>
        s := s.(domain := n.atoi(value));
      case Pub => s := s.(pub := Some(value));
      case Sub => s := s.(sub := Some(value));
      case Color => s := s.(color := Some(value));
      case Governance => s := s.(governance := Some(value));
      case Permissions => s := s.(permissions := Some(value));
      case Partition => s := s.(partition := Some(value));
      case Liveliness =>
        s := s.(liveliness := n.atof(value));
    }
    return Accepted(s);
  }

  /** One pass of the loop. */
  method EProsimaPass(n: Numerals, argv: seq<string>, i0: nat, s0: Settings) returns (p: Pass)
    requires i0 < |argv|
    ensures p == PassAt(EProsima, n, argv, i0, s0)
  {
    var i, s := i0, s0;
    var f := EProsimaFlag(argv[i]);
    if f == DisableSecurity {
      s := s.(security := false);
    } else if f == Logging {
      s := s.(logging := true);
    } else if f == Help || f == Unknown {
      // Help prints the usage, anything else an error: the result is -1 either way.
      return Stop(Rejected);
    } else {
      i := i + 1;
      if i == |argv| { return Stop(Rejected); }
      var parsed := EProsimaValue(n, f, argv[i], s);
      if !parsed.Accepted? { return Stop(parsed); }
      s := parsed.s;
    }
    return Next(i + 1, s);
  }

  /** The eProsima program. */
  method EProsimaMain(n: Numerals, argv: seq<string>) returns (r: Parsed)
    ensures r == Parse(EProsima, n, From(argv, 1), INITIAL)
  {
    var i, s := 1, INITIAL;
    while i < |argv|
      invariant Parse(EProsima, n, From(argv, i), s) == Parse(EProsima, n, From(argv, 1), INITIAL)
    {
      PassParses(EProsima, n, argv, i, s);
      var p := EProsimaPass(n, argv, i, s);
      if p.Stop? { return p.r; }
      i, s := p.i, p.s;
    }
    r := Accepted(s);
  }

  // ---------------------------------------------------------------- srcJava/IShapesMain.java

  /** The comparisons of the Java loop: no -v and no -kest. */
  method JavaFlag(arg: string) returns (f: Flag)
    ensures f == FlagOf(Java, arg)
  {
    if arg == "-domain" { return Domain; }
    if arg == "-pub" { return Pub; }
    if arg == "-sub" { return Sub; }
    if arg == "-color" { return Color; }
    if arg == "-governance" { return Governance; }
    if arg == "-permissions" { return Permissions; }
    if arg == "-partition" { return Partition; }
    if arg == "-livelinessPeriod" { return Liveliness; }
    if arg == "-disableSecurity" { return DisableSecurity; }
    if arg == "-logging" { return Logging; }
    if arg == "-help" || arg == "-h" { return Help; }
    return Unknown;
  }

  /** What the branch of a value option does with the value. */
  method JavaValue(n: Numerals, f: Flag, value: string, s0: Settings) returns (r: Parsed)
    requires TakesValue(f) && !f.Verbosity? && !f.Kest?
    ensures r == Assign(Java, n, f, value, s0)
  {
    var s := s0;
    match f {
      case Domain =>
        var id := n.parseInt(value);
        if id.None? { return Crashed; }
        s := s.(domain := id.value);
      case Pub => s := s.(pub := Some(value));
      case Sub => s := s.(sub := Some(value));
      case Color => s := s.(color := Some(value));
      case Governance => s := s.(governance := Some(value));
      case Permissions => s := s.(permissions := Some(value));
      case Partition => s := s.(partition := Some(value));
      case Liveliness =>
        var period := n.parseFloat(value);
        if period.None? { return Crashed; }
        s := s.(liveliness := period.value);
    }
    return Accepted(s);
  }

  /** One pass of the loop. */
  method JavaPass(n: Numerals, args: seq<string>, i0: nat, s0: Settings) returns (p: Pass)
    requires i0 < |args|
    ensures p == PassAt(Java, n, args, i0, s0)
  {
    var i, s := i0, s0;
    var f := JavaFlag(args[i]);
    if f == DisableSecurity {
      s := s.(security := false);
    } else if f == Logging {
      s := s.(logging := true);
    } else if f == Help || f == Unknown {
      // Help prints the usage, anything else an error: the result is -1 either way.
      return Stop(Rejected);
    } else {
      i := i + 1;
      if i == |args| { return Stop(Rejected); }
      var parsed := JavaValue(n, f, args[i], s);
      if !parsed.Accepted? { return Stop(parsed); }
      s := parsed.s;
    }
    return Next(i + 1, s);
  }

  /** The Java program; a number that does not parse ends it with an exception. */
  method JavaMain(n: Numerals, args: seq<string>) returns (r: Parsed)
    ensures r == Parse(Java, n, From(args, 0), INITIAL)
  {
    var i, s := 0, INITIAL;
    while i < |args|
      invariant Parse(Java, n, From(args, i), s) == Parse(Java, n, From(args, 0), INITIAL)
    {
      PassParses(Java, n, args, i, s);
      var p := JavaPass(n, args, i, s);
      if p.Stop? { return p.r; }
      i, s := p.i, p.s;
    }
    r := Accepted(s);
  }
}
