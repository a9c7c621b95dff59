/** Command lines of the three programs: what an argument list means as a grammar, apart from
    the index loops that the programs run. */
module Options {
  import opened Outcomes

  /** The three copies of the parser. */
  datatype Dialect = Cxx | EProsima | Java

  datatype Flag =
    | Verbosity | Domain | Pub | Sub | Color | Governance | Permissions | Kest | Partition | Liveliness
    | DisableSecurity | Logging
    | Help | Unknown

  /** Conversions of the languages' libraries. The C ones accept anything; the Java ones throw. */
  datatype Numerals = Numerals(
    atoi: string -> int, atof: string -> real,
    parseInt: string -> Option<int>, parseFloat: string -> Option<real>)

  /** The option variables of main. The Java and eProsima programs have no `kest` and no `debug`. */
  datatype Settings = Settings(
    domain: int,
    pub: Option<string>, sub: Option<string>, color: Option<string>,
    governance: Option<string>, permissions: Option<string>, kest: Option<string>,
    partition: Option<string>, liveliness: real,
    security: bool, logging: bool, debug: bool)

  const INITIAL := Settings(-1, None, None, None, None, None, None, None, 0.0, true, false, false)

  /** A parse ends in settings, in exit code -1, or in an uncaught NumberFormatException. */
  datatype Parsed = Accepted(s: Settings) | Rejected | Crashed

  // ---------------------------------------------------------------- flags

  predicate TakesValue(f: Flag) {
    f.Verbosity? || f.Domain? || f.Pub? || f.Sub? || f.Color? || f.Governance? || f.Permissions?
    || f.Kest? || f.Partition? || f.Liveliness?
  }

  predicate IsSwitch(f: Flag) {
    f.DisableSecurity? || f.Logging?
  }

  function FlagOf(d: Dialect, arg: string): (f: Flag)
    ensures f.Verbosity? || f.Kest? ==> d.Cxx?
  {
    if d.Cxx? && arg == "-v" then Verbosity
    else if arg == "-domain" then Domain
    else if arg == "-pub" then Pub
    else if arg == "-sub" then Sub
    else if arg == "-color" then Color
    else if arg == "-governance" then Governance
    else if arg == "-permissions" then Permissions
    else if d.Cxx? && arg == "-kest" then Kest
    else if arg == "-partition" then Partition
    else if arg == "-livelinessPeriod" then Liveliness
    else if arg == "-disableSecurity" then DisableSecurity
    else if arg == "-logging" then Logging
    else if arg == "-help" || arg == "-h" then Help
    else Unknown
  }

  function NameOf(f: Flag): string
    requires TakesValue(f) || IsSwitch(f)
  {
    match f
    case Verbosity => "-v"
    case Domain => "-domain"
    case Pub => "-pub"
    case Sub => "-sub"
    case Color => "-color"
    case Governance => "-governance"
    case Permissions => "-permissions"
    case Kest => "-kest"
    case Partition => "-partition"
    case Liveliness => "-livelinessPeriod"
    case DisableSecurity => "-disableSecurity"
    case Logging => "-logging"
  }

  // ---------------------------------------------------------------- the grammar

  /** The effect of one value option on the settings. */
  function Assign(d: Dialect, n: Numerals, f: Flag, value: string, s: Settings): Parsed
    requires TakesValue(f)
  {
    match f
    case Verbosity =>
      if value != "" && value[0] == 'd' then Accepted(s.(debug := true))
      else if value != "" && value[0] == 'e' then Accepted(s.(debug := false))
      else Rejected
    case Domain =>
      if !d.Java? then Accepted(s.(domain := n.atoi(value)))
      else if n.parseInt(value).Some? then Accepted(s.(domain := n.parseInt(value).value))
      else Crashed
    case Pub => Accepted(s.(pub := Some(value)))
    case Sub => Accepted(s.(sub := Some(value)))
    case Color => Accepted(s.(color := Some(value)))
    case Governance => Accepted(s.(governance := Some(value)))
    case Permissions => Accepted(s.(permissions := Some(value)))
    case Kest => Accepted(s.(kest := Some(value)))
    case Partition => Accepted(s.(partition := Some(value)))
    case Liveliness =>
      if !d.Java? then Accepted(s.(liveliness := n.atof(value)))
      else if n.parseFloat(value).Some? then Accepted(s.(liveliness := n.parseFloat(value).value))
      else Crashed
  }

  function Switch(f: Flag, s: Settings): Settings
    requires IsSwitch(f)
  {
    if f.DisableSecurity? then s.(security := false) else s.(logging := true)
  }

  /** An argument list is a switch or a flag with its value, and then an argument list. */
  function Parse(d: Dialect, n: Numerals, args: seq<string>, s: Settings): Parsed
    decreases |args|
  {
    if args == [] then Accepted(s)
    else
      var f := FlagOf(d, args[0]);
      if IsSwitch(f) then Parse(d, n, args[1..], Switch(f, s))
      else if TakesValue(f) && |args| > 1 then
        match Assign(d, n, f, args[1], s)
        case Accepted(s') => Parse(d, n, args[2..], s')
        case r => r
      else Rejected
  }

  // ---------------------------------------------------------------- defaults

  const GOVERNANCE_FILE: string := "TESTONLY_governance_signed.p7s"
  const PERMISSIONS_FILE: string := "TESTONLY_permissions_signed.p7s"
  const EPROSIMA_GOVERNANCE_FILE: string := "../eprosima_fastrtps_certs/TESTONLY_eprosima_fastrtps_governance_signed.p7s"
  const EPROSIMA_PERMISSIONS_FILE: string := "../eprosima_fastrtps_certs/TESTONLY_eprosima_fastrtps_permissions_allowall_signed.p7s"
  const KEY_EST_ALGORITHM: string := "ECDHE-CEUM+P256"
  const TOPIC: string := "OD_OA_OM_OD"
  const COLOR: string := "BLACK"
  const DOMAIN_ID: int := 0

  function OrElse(o: Option<string>, default: string): Option<string> {
    if o.None? then Some(default) else o
  }

  function Resolve(d: Dialect, s: Settings): (r: Settings)
    ensures IsResolved(d, r)
  {
    var s1 := if !s.security then s else
      s.(governance := OrElse(s.governance, if d.EProsima? then EPROSIMA_GOVERNANCE_FILE else GOVERNANCE_FILE),
         permissions := OrElse(s.permissions, if d.EProsima? then EPROSIMA_PERMISSIONS_FILE else PERMISSIONS_FILE),
         kest := if d.Cxx? then OrElse(s.kest, KEY_EST_ALGORITHM) else s.kest);
    var s2 := if s1.pub.None? && s1.sub.None? then s1.(pub := Some(TOPIC), sub := Some(TOPIC)) else s1;
    var s3 := s2.(color := OrElse(s2.color, COLOR));
    if s3.domain == -1 then s3.(domain := DOMAIN_ID) else s3
  }

  /** Nothing that the programs need is missing. */
  predicate IsResolved(d: Dialect, s: Settings) {
    && (s.security ==> s.governance.Some? && s.permissions.Some? && (d.Cxx? ==> s.kest.Some?))
    && (s.pub.Some? || s.sub.Some?)
    && s.color.Some? && s.domain != -1
  }
}
