/**
 * The platform dispatcher: the argument list that runs the vendor flashing
 * script on macOS or Windows, the choice of PowerShell interpreter, and the
 * redacted form of that list that goes into the log.
 */
module Dispatch {
  import opened Wrappers

  /** platform.system(), as far as the dispatcher tells systems apart. */
  datatype System = Darwin | Windows | OtherSystem(name: string)
  {
    function Name(): string
    {
      match this
      case Darwin => "Darwin"
      case Windows => "Windows"
      case OtherSystem(name) => name
    }
  }

  /**
   * What the dispatcher learns from the host: the system, the installation
   * directory, the two script paths and whether they exist, and what
   * shutil.which returns for "pwsh" and "powershell".
   */
  datatype Host = Host(
    system: System,
    productionDir: string,
    shellScript: string,
    shellScriptExists: bool,
    powershellScript: string,
    powershellScriptExists: bool,
    whichPwsh: Option<string>,
    whichPowershell: Option<string>)

  /** The exceptions build_flash_command and find_powershell raise. */
  datatype DispatchError =
    | MacScriptNotFound(path: string)
    | PowerShellScriptNotFound(path: string)
    | ShellNotFound
    | UnsupportedSystem(name: string)
  {
    /** A FileNotFoundError, as opposed to the RuntimeError for an unsupported system. */
    predicate IsFileNotFound()
    {
      !UnsupportedSystem?
    }

    function Message(): string
    {
      match this
      case MacScriptNotFound(path) => "macOS script not found: " + path
      case PowerShellScriptNotFound(path) => "PowerShell script not found: " + path
      case ShellNotFound => "Neither pwsh nor powershell was found on PATH."
      case UnsupportedSystem(name) => "Unsupported operating system: " + name
    }
  }

  /** Python truthiness of an optional string: present and non-empty. */
  predicate Truthy(s: Option<string>)
  {
    s.Some? && s.value != ""
  }

  /** find_powershell: the first of pwsh and powershell that is on the search path. */
  function FindPowershell(whichPwsh: Option<string>, whichPowershell: Option<string>): (r: Result<string, DispatchError>)
    ensures r.Success? <==> Truthy(whichPwsh) || Truthy(whichPowershell)
    ensures r.Success? ==> r.value == if Truthy(whichPwsh) then whichPwsh.value else whichPowershell.value
    ensures r.Failure? ==> r.error == ShellNotFound
  {
    if Truthy(whichPwsh) then Success(whichPwsh.value)
    else if Truthy(whichPowershell) then Success(whichPowershell.value)
    else Failure(ShellNotFound)
  }

  datatype Command = Command(args: seq<string>, workdir: string)

  /** The trailing port option, present exactly when a non-empty port is given. */
  function PortArgs(flag: string, port: Option<string>): seq<string>
  {
    if Truthy(port) then [flag, port.value] else []
  }

  /** build_flash_command: the argument list and working directory for the host's flashing script. */
  function BuildFlashCommand(host: Host, serial: string, password: string, port: Option<string>): (r: Result<Command, DispatchError>)
    ensures r.Success? <==>
              || (host.system.Darwin? && host.shellScriptExists)
              || (host.system.Windows? && host.powershellScriptExists
                  && FindPowershell(host.whichPwsh, host.whichPowershell).Success?)
    ensures host.system.OtherSystem? ==> r == Failure(UnsupportedSystem(host.system.name))
    ensures host.system.Darwin? && !host.shellScriptExists ==> r == Failure(MacScriptNotFound(host.shellScript))
    ensures host.system.Windows? && !host.powershellScriptExists ==> r == Failure(PowerShellScriptNotFound(host.powershellScript))
    ensures host.system.Windows? && host.powershellScriptExists && r.Failure? ==> r.error == ShellNotFound
    ensures r.Success? ==> r.value.workdir == host.productionDir
    ensures r.Success? && host.system.Darwin? ==>
              r.value.args == ["/bin/bash", host.shellScript, "--serial", serial, "--password", password]
                              + PortArgs("--port", port)
    ensures r.Success? && host.system.Windows? ==>
              r.value.args == [FindPowershell(host.whichPwsh, host.whichPowershell).value,
                               "-NoLogo", "-NoProfile", "-ExecutionPolicy", "Bypass",
                               "-File", host.powershellScript, "-Serial", serial, "-Password", password]
                              + PortArgs("-Port", port)
  {
    match host.system
    case Darwin =>
      if !host.shellScriptExists then Failure(MacScriptNotFound(host.shellScript))
      else
        var cmd := ["/bin/bash", host.shellScript, "--serial", serial, "--password", password];
        Success(Command(cmd + PortArgs("--port", port), host.productionDir))
    case Windows =>
      if !host.powershellScriptExists then Failure(PowerShellScriptNotFound(host.powershellScript))
      else
        (match FindPowershell(host.whichPwsh, host.whichPowershell)
         case Failure(e) => Failure(e)
         case Success(shell) =>
           var command := [shell, "-NoLogo", "-NoProfile", "-ExecutionPolicy", "Bypass",
                           "-File", host.powershellScript, "-Serial", serial, "-Password", password];
           Success(Command(command + PortArgs("-Port", port), host.productionDir)))
    case OtherSystem(name) => Failure(UnsupportedSystem(name))
  }

  /** Where the password sits in a built argument list. */
  function PasswordIndex(system: System): nat
  {
    if system.Windows? then 10 else 5
  }

  /**
   * In every built command the password directly follows its flag at a fixed
   * position, and the list ends there unless a port is given, in which case
   * the port is the last argument.
   */
  lemma CommandLayout(host: Host, serial: string, password: string, port: Option<string>)
    requires BuildFlashCommand(host, serial, password, port).Success?
    ensures var args, p := BuildFlashCommand(host, serial, password, port).value.args, PasswordIndex(host.system);
            && |args| == p + 1 + (if Truthy(port) then 2 else 0)
            && args[p] == password
            && args[p - 1] == (if host.system.Darwin? then "--password" else "-Password")
            && args[|args| - 1] == (if Truthy(port) then port.value else password)
  {
  }

  const RedactionToken: string := "******"

  /** The list shown in the "Command:" log line as written: the last argument replaced by the token. */
  function RedactLastArgument(args: seq<string>): (shown: seq<string>)
    ensures |shown| == if args == [] then 1 else |args|
    ensures shown[|shown| - 1] == RedactionToken
    ensures forall i :: 0 <= i < |shown| - 1 ==> shown[i] == args[i]
  {
    (if args == [] then [] else args[..|args| - 1]) + [RedactionToken]
  }

  /**
   * What the as-written redaction hides: without a port the last argument
   * is the password, so it is hidden; with a port the last argument is the
   * port, so the port is hidden and the password is shown.
   */
  lemma LastArgumentRedaction(host: Host, serial: string, password: string, port: Option<string>)
    requires BuildFlashCommand(host, serial, password, port).Success?
    ensures var args := BuildFlashCommand(host, serial, password, port).value.args;
            var shown := RedactLastArgument(args);
            && |shown| == |args|
            && shown[PasswordIndex(host.system)] == (if Truthy(port) then password else RedactionToken)
            && (Truthy(port) ==> password in shown)
  {
    CommandLayout(host, serial, password, port);
  }

  /** The display the redaction evidently intends: every argument equal to the password is replaced by the token. */
  function RedactPassword(args: seq<string>, password: string): (shown: seq<string>)
    ensures |shown| == |args|
    ensures forall i :: 0 <= i < |args| && args[i] != password ==> shown[i] == args[i]
    ensures password != RedactionToken ==> password !in shown
  {
    if args == [] then []
    else [if args[0] == password then RedactionToken else args[0]] + RedactPassword(args[1..], password)
  }

  /**
   * The corrected display hides the password at its position whether or not
   * a port is given and keeps every other argument, port included, that
   * differs from the password.
   */
  lemma RedactPasswordHidesPassword(host: Host, serial: string, password: string, port: Option<string>)
    requires BuildFlashCommand(host, serial, password, port).Success?
    requires password != RedactionToken
    ensures var args := BuildFlashCommand(host, serial, password, port).value.args;
            var shown := RedactPassword(args, password);
            && |shown| == |args|
            && password !in shown
            && shown[PasswordIndex(host.system)] == RedactionToken
            && (Truthy(port) && port.value != password ==> shown[|shown| - 1] == port.value)
  {
    CommandLayout(host, serial, password, port);
    var args := BuildFlashCommand(host, serial, password, port).value.args;
    RedactPasswordAt(args, password, PasswordIndex(host.system));
  }

  lemma {:induction false} RedactPasswordAt(args: seq<string>, password: string, i: nat)
    requires i < |args| && args[i] == password
    ensures RedactPassword(args, password)[i] == RedactionToken
  {
    if i > 0 {
      RedactPasswordAt(args[1..], password, i - 1);
    }
  }

  /**
   * Without a port, and when no other argument equals the password, the
   * corrected display is exactly the as-written one.
   */
  lemma RedactionsAgreeWithoutPort(host: Host, serial: string, password: string, port: Option<string>)
    requires BuildFlashCommand(host, serial, password, port).Success? && !Truthy(port)
    requires var args := BuildFlashCommand(host, serial, password, port).value.args;
             forall i :: 0 <= i < |args| - 1 ==> args[i] != password
    ensures var args := BuildFlashCommand(host, serial, password, port).value.args;
            RedactPassword(args, password) == RedactLastArgument(args)
  {
    CommandLayout(host, serial, password, port);
    var args := BuildFlashCommand(host, serial, password, port).value.args;
    RedactPasswordAt(args, password, |args| - 1);
  }

  /** A concrete run that shows the password in the log: macOS, a port given. */
  lemma PortedCommandShowsPassword()
    ensures var host := Host(Darwin, "/opt/flex", "/opt/flex/flash_flex_plus.sh", true,
                             "/opt/flex/flash_flex_plus.ps1", false, None, None);
            var args := BuildFlashCommand(host, "FP01-24060001", "secretpw1", Some("/dev/cu.usbserial-1")).value.args;
            RedactLastArgument(args)
            == ["/bin/bash", "/opt/flex/flash_flex_plus.sh", "--serial", "FP01-24060001",
                "--password", "secretpw1", "--port", RedactionToken]
  {
  }
}
