/** The four environment scanners of virt_spy.c. Each runs a listing
    command, reads its output line by line and stops at the first line that
    contains one of its patterns. Running the command and reading the pipe
    are I/O: each scanner here takes the lines already read. */
module EnvironmentScanners {
  import opened ResultCodes
  import opened Substring

  /** The patterns of each scanner, in the order the source tests them. */
  const NetworkPatterns: seq<string> := ["eth", "ens", "veth"]
  const BlockPatterns: seq<string> := ["vda", "xvda"]
  const KernelModulePatterns: seq<string> := ["kvm", "vbox"]
  const PciPatterns: seq<string> := ["1002", "8086"]

  /** The `strstr(line, a) || strstr(line, b) || ...` test of one line. */
  function MatchesAny(line: string, patterns: seq<string>): (r: bool)
    ensures r <==> exists k :: 0 <= k < |patterns| && Contains(line, patterns[k])
  {
    if |patterns| == 0 then false
    else if Contains(line, patterns[0]) then true
    else
      var rest := MatchesAny(line, patterns[1..]);
      assert forall k :: 1 <= k < |patterns| ==> patterns[k] == patterns[1..][k - 1];
      rest
  }

  /** Some line of the output matches one of the patterns. */
  predicate SomeLineMatches(lines: seq<string>, patterns: seq<string>)
  {
    exists i :: 0 <= i < |lines| && MatchesAny(lines[i], patterns)
  }

  /** The shared loop of the four scanners: read lines until one matches,
      keeping the flag the source keeps. `consumed` is the number of lines
      read, so a match on line i leaves every later line unread. The source
      never sets the flag when the output is empty, so its result is then
      undefined; the model requires at least one line. */
  method ScanLines(lines: seq<string>, patterns: seq<string>) returns (detected: bool, consumed: nat)
    requires |lines| > 0
    ensures 1 <= consumed <= |lines|
    ensures forall i :: 0 <= i < consumed - 1 ==> !MatchesAny(lines[i], patterns)
    ensures detected == MatchesAny(lines[consumed - 1], patterns)
    ensures !detected ==> consumed == |lines|
    ensures detected == SomeLineMatches(lines, patterns)
  {
    detected :| true;  // left uninitialised by the source
    consumed := 0;
    while consumed < |lines|
      invariant 0 <= consumed <= |lines|
      invariant forall i :: 0 <= i < consumed ==> !MatchesAny(lines[i], patterns)
      invariant consumed > 0 ==> !detected
    {
      var line := lines[consumed];
      consumed := consumed + 1;
      if MatchesAny(line, patterns) {
        detected := true;
        break;
      } else {
        detected := false;
      }
    }
  }

  /** detect_virtual_network_devices on the lines of `ls /sys/class/net`. */
  method DetectVirtualNetworkDevices(lines: seq<string>) returns (code: int)
    requires |lines| > 0
    ensures code == Code(NetworkDevices, SomeLineMatches(lines, NetworkPatterns))
    ensures code == VtxNwDevDetected || code == NoVtxNwDevDetected
  {
    var detected, _ := ScanLines(lines, NetworkPatterns);
    if !detected {
      return NoVtxNwDevDetected;
    }
    return VtxNwDevDetected;
  }

  /** detect_virtual_block_devices on the lines of `ls /sys/block`. */
  method DetectVirtualBlockDevices(lines: seq<string>) returns (code: int)
    requires |lines| > 0
    ensures code == Code(BlockDevices, SomeLineMatches(lines, BlockPatterns))
    ensures code == VtxBlkDevDetected || code == NoVtxBlkDevDetected
  {
    var detected, _ := ScanLines(lines, BlockPatterns);
    if !detected {
      return NoVtxBlkDevDetected;
    }
    return VtxBlkDevDetected;
  }

  /** check_kernel_modules on the lines of `lsmod`; the whole line is
      searched, not only the module-name column. */
  method CheckKernelModules(lines: seq<string>) returns (code: int)
    requires |lines| > 0
    ensures code == Code(KernelModules, SomeLineMatches(lines, KernelModulePatterns))
    ensures code == VtxKernModsDetected || code == NoVtxKernModsDetected
  {
    var detected, _ := ScanLines(lines, KernelModulePatterns);
    if !detected {
      return NoVtxKernModsDetected;
    }
    return VtxKernModsDetected;
  }

  /** detect_virtual_pci_devices on the lines of `ls /sys/bus/pci/devices`. */
  method DetectVirtualPciDevices(lines: seq<string>) returns (code: int)
    requires |lines| > 0
    ensures code == Code(PciDevices, SomeLineMatches(lines, PciPatterns))
    ensures code == VtxPciDevDetected || code == NoVtxPciDevDetected
  {
    var detected, _ := ScanLines(lines, PciPatterns);
    if !detected {
      return NoVtxPciDevDetected;
    }
    return VtxPciDevDetected;
  }

  /** "veth" contains "eth", so the network scanner's third pattern never
      changes a verdict. */
  lemma NetworkPatternsReduce(line: string)
    ensures MatchesAny(line, NetworkPatterns) <==> Contains(line, "eth") || Contains(line, "ens")
  {
    if Contains(line, "veth") {
      assert OccursAt("veth", "eth", 1);
      ContainsTransitive(line, "veth", "eth");
    }
    assert NetworkPatterns[0] == "eth" && NetworkPatterns[1] == "ens";
  }

  /** "xvda" contains "vda", so the block scanner reduces to one pattern. */
  lemma BlockPatternsReduce(line: string)
    ensures MatchesAny(line, BlockPatterns) <==> Contains(line, "vda")
  {
    if Contains(line, "xvda") {
      assert OccursAt("xvda", "vda", 1);
      ContainsTransitive(line, "xvda", "vda");
    }
    assert BlockPatterns[0] == "vda";
  }

  /** Only the lines up to and including the first match decide the
      verdict: whatever follows a matching line cannot undo it. */
  lemma MatchIsFinal(lines: seq<string>, rest: seq<string>, patterns: seq<string>)
    requires SomeLineMatches(lines, patterns)
    ensures SomeLineMatches(lines + rest, patterns)
  {
    var i :| 0 <= i < |lines| && MatchesAny(lines[i], patterns);
    assert (lines + rest)[i] == lines[i];
  }

  /** With no matching line, more non-matching output keeps the verdict
      "not detected". */
  lemma NoMatchExtends(lines: seq<string>, rest: seq<string>, patterns: seq<string>)
    requires !SomeLineMatches(lines, patterns) && !SomeLineMatches(rest, patterns)
    ensures !SomeLineMatches(lines + rest, patterns)
  {
    forall i | 0 <= i < |lines + rest|
      ensures !MatchesAny((lines + rest)[i], patterns)
    {
      if i < |lines| {
        assert (lines + rest)[i] == lines[i];
      } else {
        assert (lines + rest)[i] == rest[i - |lines|];
      }
    }
  }

  /** Output of `ls /sys/class/net` with "ens33" is a hit; loopback alone is not. */
  lemma NetworkExamples()
    ensures SomeLineMatches(["lo\n", "ens33\n"], NetworkPatterns)
    ensures !SomeLineMatches(["lo\n"], NetworkPatterns)
  {
    assert OccursAt("ens33\n", "ens", 0);
    assert MatchesAny(["lo\n", "ens33\n"][1], NetworkPatterns);
    forall k | 0 <= k < |NetworkPatterns|
      ensures !Contains("lo\n", NetworkPatterns[k])
    {
      var p := NetworkPatterns[k];
      if |p| == 3 {
        assert p[0] == 'e';
        assert "lo\n"[0..3][0] != p[0];
      } else {
        TooLongNeverContained("lo\n", p);
      }
    }
  }

  /** An lsmod line naming kvm_intel is a hit. */
  lemma KernelModuleExample()
    ensures SomeLineMatches(["Module Size Used by\n", "kvm_intel 368640 0\n"], KernelModulePatterns)
  {
    assert OccursAt("kvm_intel 368640 0\n", "kvm", 0);
    assert MatchesAny(["Module Size Used by\n", "kvm_intel 368640 0\n"][1], KernelModulePatterns);
  }
}
