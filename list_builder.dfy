/** `VBoxManageList`: the command lines of `VBoxManage list`, one per
    directive, with the optional sort (`-s`) and long (`-l`) flags. */
module ListBuilder {
  import opened Results

  /** `VBoxManageCommand.CLI`: the program every command line runs. */
  const CLI: string := "VBoxManage"

  /** `VBoxManageList.ORIGIN`: the subcommand. */
  const ORIGIN: string := "list"

  /** The ten directives `VBoxManageList` offers, one method each. */
  datatype Directive =
    | Vms | RunningVms | IntNets | HostInfo | Groups
    | SystemProperties | BridgedIfs | HostOnlyIfs | NatNets | DhcpServers

  /** The literal each directive method hands to `__process`; it is also the
      method's name. No token can be taken for a flag. */
  function Token(d: Directive): (t: string)
    ensures t != "" && t[0] != '-'
  {
    match d
    case Vms => "vms"
    case RunningVms => "runningvms"
    case IntNets => "intnets"
    case HostInfo => "hostinfo"
    case Groups => "groups"
    case SystemProperties => "systemproperties"
    case BridgedIfs => "bridgedifs"
    case HostOnlyIfs => "hostonlyifs"
    case NatNets => "natnets"
    case DhcpServers => "dhcpservers"
  }

  /** The directive method with the given name, if `VBoxManageList` has one. */
  function Named(name: string): (d: Option<Directive>)
    ensures d.Some? ==> Token(d.value) == name
    ensures d.None? ==> forall e :: Token(e) != name
  {
    match name
    case "vms" => Some(Vms)
    case "runningvms" => Some(RunningVms)
    case "intnets" => Some(IntNets)
    case "hostinfo" => Some(HostInfo)
    case "groups" => Some(Groups)
    case "systemproperties" => Some(SystemProperties)
    case "bridgedifs" => Some(BridgedIfs)
    case "hostonlyifs" => Some(HostOnlyIfs)
    case "natnets" => Some(NatNets)
    case "dhcpservers" => Some(DhcpServers)
    case _ => None
  }

  /** Each directive is found again under its own token, so no two
      directives share a token. */
  lemma {:induction false} NamedToken(d: Directive)
    ensures Named(Token(d)) == Some(d)
  {
    match d
    case Vms =>
    case RunningVms =>
    case IntNets =>
    case HostInfo =>
    case Groups =>
    case SystemProperties =>
    case BridgedIfs =>
    case HostOnlyIfs =>
    case NatNets =>
    case DhcpServers =>
  }

  /** The option flags, `-s` before `-l`. */
  function Flags(sort: bool, long: bool): (flags: seq<string>)
    ensures |flags| == (if sort then 1 else 0) + (if long then 1 else 0)
    ensures ("-s" in flags) == sort && ("-l" in flags) == long
    ensures sort && long ==> flags[0] == "-s" && flags[1] == "-l"
  {
    (if sort then ["-s"] else []) + (if long then ["-l"] else [])
  }

  /** The command line `__process` returns for `directive`: the program, the
      subcommand, the flags, and the directive last. */
  function CommandLine(directive: string, sort: bool, long: bool): (cmd: seq<string>)
    ensures |cmd| == 3 + |Flags(sort, long)|
    ensures cmd[0] == CLI && cmd[1] == ORIGIN
    ensures cmd[2..|cmd| - 1] == Flags(sort, long)
    ensures cmd[|cmd| - 1] == directive
  {
    [CLI, ORIGIN] + Flags(sort, long) + [directive]
  }

  /** `__process`: start from the program and subcommand, append each flag
      that is asked for, then the directive. */
  method Process(directive: string, sort: bool, long: bool) returns (cmd: seq<string>)
    ensures cmd == CommandLine(directive, sort, long)
  {
    cmd := [CLI, ORIGIN];
    if sort {
      cmd := cmd + ["-s"];
    }
    if long {
      cmd := cmd + ["-l"];
    }
    cmd := cmd + [directive];
  }

  /** The ten directive methods (`vms`, `runningvms`, ...): each is
      `__process` applied to its own token. */
  method List(d: Directive, sort: bool, long: bool) returns (cmd: seq<string>)
    ensures cmd == CommandLine(Token(d), sort, long)
  {
    cmd := Process(Token(d), sort, long);
  }

  /** A directive's token is the only word that is neither the program, the
      subcommand nor a flag, so the flags asked for are exactly the flags on
      the line. */
  lemma ListFlags(d: Directive, sort: bool, long: bool)
    ensures var cmd := CommandLine(Token(d), sort, long);
      ("-s" in cmd) == sort && ("-l" in cmd) == long
  {
    var cmd := CommandLine(Token(d), sort, long);
    assert cmd == [CLI, ORIGIN] + Flags(sort, long) + [Token(d)];
  }

  /** Two directives with the same options give command lines that differ in
      the last word only, and there only when the directives differ. */
  lemma ListDiffersOnlyInToken(d: Directive, e: Directive, sort: bool, long: bool)
    ensures var a, b := CommandLine(Token(d), sort, long), CommandLine(Token(e), sort, long);
      |a| == |b| && a[..|a| - 1] == b[..|b| - 1] && (a[|a| - 1] == b[|b| - 1] <==> d == e)
  {
    NamedToken(d);
    NamedToken(e);
    var a, b := CommandLine(Token(d), sort, long), CommandLine(Token(e), sort, long);
    assert a[..|a| - 1] == [CLI, ORIGIN] + Flags(sort, long) == b[..|b| - 1];
  }
}
