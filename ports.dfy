/**
 * Serial port enumeration (list_serial_ports). The file-system globs and
 * the PowerShell query are inputs: a PortScan holds what they returned.
 */
module Ports {
  import opened Wrappers
  import opened Text
  import opened Dispatch

  /** The macOS device patterns, globbed in this order. */
  const DarwinPatterns: seq<string> :=
    ["/dev/cu.usbserial-*", "/dev/cu.SLAB_USB*", "/dev/cu.usbmodem*", "/dev/cu.wchusbserial*"]
  /** The fallback patterns on other systems, globbed in this order. */
  const LinuxPatterns: seq<string> := ["/dev/ttyUSB*", "/dev/ttyACM*"]

  /**
   * What the host returned: one glob result per macOS pattern, the lines
   * PowerShell printed (None when running it raised), one glob result per
   * fallback pattern.
   */
  datatype PortScan = PortScan(
    darwinGlobs: seq<seq<string>>,
    windowsOutput: Option<seq<string>>,
    linuxGlobs: seq<seq<string>>)

  /** The groups one after another. */
  function Flatten(groups: seq<seq<string>>): (r: seq<string>)
  {
    if groups == [] then [] else Flatten(groups[..|groups| - 1]) + groups[|groups| - 1]
  }

  /** Each device once, at the place it first appears. */
  function KeepFirst(s: seq<string>): seq<string>
  {
    if s == [] then []
    else
      var kept := KeepFirst(s[..|s| - 1]);
      if s[|s| - 1] in kept then kept else kept + [s[|s| - 1]]
  }

  lemma KeepFirstSnoc(s: seq<string>, x: string)
    ensures KeepFirst(s + [x]) == if x in KeepFirst(s) then KeepFirst(s) else KeepFirst(s) + [x]
  {
    assert (s + [x])[..|s|] == s;
  }

  lemma FlattenSnoc(groups: seq<seq<string>>, i: nat)
    requires i < |groups|
    ensures Flatten(groups[..i + 1]) == Flatten(groups[..i]) + groups[i]
  {
    assert groups[..i + 1][..i] == groups[..i];
  }

  ghost predicate Distinct(s: seq<string>)
  {
    forall i, j :: 0 <= i < j < |s| ==> s[i] != s[j]
  }

  /** Deduplication loses no device and invents none. */
  lemma {:induction false} KeepFirstSameElements(s: seq<string>)
    ensures forall x :: x in KeepFirst(s) <==> x in s
  {
    if s != [] {
      var init := s[..|s| - 1];
      KeepFirstSameElements(init);
      assert s == init + [s[|s| - 1]];
    }
  }

  /** No device is listed twice. */
  lemma {:induction false} KeepFirstDistinct(s: seq<string>)
    ensures Distinct(KeepFirst(s))
  {
    if s != [] {
      KeepFirstDistinct(s[..|s| - 1]);
    }
  }

  /** Devices found by later patterns never reorder the earlier ones. */
  lemma {:induction false} KeepFirstPrefix(s: seq<string>, t: seq<string>)
    ensures KeepFirst(s) <= KeepFirst(s + t)
  {
    if t != [] {
      var init := t[..|t| - 1];
      KeepFirstPrefix(s, init);
      assert (s + t)[..|s + t| - 1] == s + init;
    } else {
      assert s + t == s;
    }
  }

  /** Without duplicates there is nothing to remove. */
  lemma {:induction false} KeepFirstOfDistinct(s: seq<string>)
    requires Distinct(s)
    ensures KeepFirst(s) == s
  {
    if s != [] {
      var init := s[..|s| - 1];
      KeepFirstOfDistinct(init);
      assert s[|s| - 1] !in init by {
        forall i | 0 <= i < |init|
          ensures init[i] != s[|s| - 1]
        {
          assert init[i] == s[i];
        }
      }
    }
  }

  /** The PowerShell output lines, stripped, blank ones dropped. */
  function NonBlankLines(lines: seq<string>): seq<string>
  {
    if lines == [] then []
    else
      var line := Strip(lines[|lines| - 1]);
      NonBlankLines(lines[..|lines| - 1]) + (if line != [] then [line] else [])
  }

  /** Every port reported on Windows is non-empty and has no surrounding whitespace. */
  lemma {:induction false} NonBlankLinesClean(lines: seq<string>)
    ensures var r := NonBlankLines(lines);
            && |r| <= |lines|
            && forall i :: 0 <= i < |r| ==> r[i] != [] && !IsSpace(r[i][0]) && !IsSpace(r[i][|r[i]| - 1])
  {
    if lines != [] {
      NonBlankLinesClean(lines[..|lines| - 1]);
      StripSpec(lines[|lines| - 1]);
    }
  }

  /** The ports list_serial_ports returns for the given host and scan results. */
  function ListedPorts(host: Host, scan: PortScan): seq<string>
  {
    match host.system
    case Darwin => KeepFirst(Flatten(scan.darwinGlobs))
    case Windows =>
      if FindPowershell(host.whichPwsh, host.whichPowershell).Failure? || scan.windowsOutput.None? then []
      else NonBlankLines(scan.windowsOutput.value)
    case OtherSystem(_) => Flatten(scan.linuxGlobs)
  }

  /** On macOS every device matched by any pattern is listed, once, in first-match order. */
  lemma DarwinPortsListed(host: Host, scan: PortScan)
    requires host.system == Darwin
    ensures var ports := ListedPorts(host, scan);
            && Distinct(ports)
            && (forall dev :: dev in ports <==> dev in Flatten(scan.darwinGlobs))
  {
    KeepFirstDistinct(Flatten(scan.darwinGlobs));
    KeepFirstSameElements(Flatten(scan.darwinGlobs));
  }

  /** On Windows, a missing shell or a failed query yields no ports rather than an error. */
  lemma WindowsFailureListsNothing(host: Host, scan: PortScan)
    requires host.system == Windows
    requires (!Truthy(host.whichPwsh) && !Truthy(host.whichPowershell)) || scan.windowsOutput.None?
    ensures ListedPorts(host, scan) == []
  {
  }

  /** The macOS loop: every glob result in pattern order, skipping devices already seen. */
  method CollectDarwinPorts(globs: seq<seq<string>>) returns (ports: seq<string>)
    ensures ports == KeepFirst(Flatten(globs))
  {
    ports := [];
    var seen: set<string> := {};
    var i := 0;
    while i < |globs|
      invariant 0 <= i <= |globs|
      invariant ports == KeepFirst(Flatten(globs[..i]))
      invariant forall x :: x in seen <==> x in ports
    {
      var matches := globs[i];
      var j := 0;
      ghost var before := Flatten(globs[..i]);
      assert before + matches[..0] == before;
      while j < |matches|
        invariant 0 <= j <= |matches|
        invariant ports == KeepFirst(before + matches[..j])
        invariant forall x :: x in seen <==> x in ports
      {
        var dev := matches[j];
        assert before + matches[..j + 1] == before + matches[..j] + [dev];
        KeepFirstSnoc(before + matches[..j], dev);
        if dev !in seen {
          ports := ports + [dev];
          seen := seen + {dev};
        }
        j := j + 1;
      }
      FlattenSnoc(globs, i);
      assert matches[..j] == matches;
      i := i + 1;
    }
    assert globs[..i] == globs;
  }

  /** The Windows loop over PowerShell's output lines. */
  method CollectWindowsPorts(output: seq<string>) returns (ports: seq<string>)
    ensures ports == NonBlankLines(output)
  {
    ports := [];
    var i := 0;
    while i < |output|
      invariant 0 <= i <= |output|
      invariant ports == NonBlankLines(output[..i])
    {
      var line := Strip(output[i]);
      assert output[..i + 1][..i] == output[..i];
      if line != [] {
        ports := ports + [line];
      }
      i := i + 1;
    }
    assert output[..i] == output;
  }

  /** list_serial_ports: dispatch on the system; an exception on the way leaves the list empty. */
  method ListSerialPorts(host: Host, scan: PortScan) returns (ports: seq<string>)
    ensures ports == ListedPorts(host, scan)
  {
    match host.system {
      case Darwin =>
        ports := CollectDarwinPorts(scan.darwinGlobs);
      case Windows =>
        var shell := FindPowershell(host.whichPwsh, host.whichPowershell);
        if shell.Failure? || scan.windowsOutput.None? {
          ports := [];
        } else {
          ports := CollectWindowsPorts(scan.windowsOutput.value);
        }
      case OtherSystem(_) =>
        ports := [];
        var i := 0;
        while i < |scan.linuxGlobs|
          invariant 0 <= i <= |scan.linuxGlobs|
          invariant ports == Flatten(scan.linuxGlobs[..i])
        {
          assert scan.linuxGlobs[..i + 1][..i] == scan.linuxGlobs[..i];
          ports := ports + scan.linuxGlobs[i];
          i := i + 1;
        }
        assert scan.linuxGlobs[..i] == scan.linuxGlobs;
    }
  }
}
