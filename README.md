# VirtSpy detection logic in Dafny

VirtSpy is a small C library that guesses, from inside an unprivileged process,
whether it runs in a virtual machine. It has seven probes. Three read
CPUID: the hypervisor-present bit, the hypervisor vendor signature, and the
AMD nested-virtualisation bit. Four scan the output of listing commands:
network interfaces, block devices, loaded kernel modules and PCI devices.
The vendor probe returns a message. Each of the other six returns its own
pair of codes from `virt_spy.h`: a positive code when it detected something
and the negation of that code when it did not.

This project models the decision logic behind those probes. The hardware
query and the child processes are I/O, so they become inputs: the registers
CPUID returned, and the lines a command printed.

- `result_codes.dfy` (module `ResultCodes`) holds the twelve constants of
  `virt_spy.h`, the table from (probe, verdict) to code, and its inverse.
- `cpuid_probes.dfy` (module `CpuidProbes`) holds the register quad and the
  two one-bit probes, `detect_vm` (ECX bit 31) and
  `detect_nested_virtualization` (ECX bit 5).
- `vendor.dfy` (module `HypervisorVendor`) models `get_hypervisor_vendor`.
  A method fills a zeroed 13-byte array with the little-endian bytes of
  three registers. Both compiler branches are modelled: `MsvcOrder` copies
  EBX, EDX, ECX and `GccOrder` copies EBX, ECX, EDX. Then comes the ordered
  `strncmp` chain. `strncmp` is modelled with its stop at a zero byte. The
  result is a `Vendor` value instead of a message string.
- `substring.dfy` (module `Substring`) specifies `strstr` as "occurs at
  some index".
- `scanners.dfy` (module `EnvironmentScanners`) holds the shared
  read-until-match loop. It keeps the source's boolean flag and stops at
  the first matching line. Four probe methods call it with their patterns
  and map the flag to their own code pair.

The comment at `virt_spy.c:54-56` and the MSVC branch give the signature
order as EBX, EDX, ECX. The hypervisors publish their signatures as EBX,
ECX, EDX, which is the GCC branch's order. The model follows the code and
keeps both orders (see Findings).

## Model

| member | source | states |
|---|---|---|
| `ResultCodes.Code` | virt_spy.h:15-31 | the code of a verdict is nonzero and positive exactly when the verdict is "detected", and its absolute value is the probe's number (1 VM bit … 6 PCI) |
| `ResultCodes.Decode` | virt_spy.h:15-31 | a code decodes to some (probe, verdict) exactly when it is one of ±1…±6 |
| `ResultCodes.NotDetectedIsNegation` | virt_spy.h:15-31 | every "detected" code is positive, its "not detected" partner is its negation, and the sign alone gives the verdict |
| `ResultCodes.CodesDistinct` | virt_spy.h:15-31 | the twelve constants are pairwise distinct: equal codes mean the same probe and verdict |
| `ResultCodes.DecodeCode` | virt_spy.h:15-31 | the absolute value of a code names its probe (1 VM bit … 6 PCI) and the sign its verdict: decoding a code gives back both |
| `ResultCodes.DecodeSound` | virt_spy.h:15-31 | whatever decodes came from the table: decoding is exact in both directions |
| `CpuidProbes.DetectVm` | virt_spy.c:41 | returns `VM_DETECTED` iff ECX, read unsigned, is at least 2^31 (bit 31 set), else `NO_VM_DETECTED` |
| `CpuidProbes.DetectNestedVirtualization` | virt_spy.c:133-134 | returns `NESTED_VTX_DETECTED` iff ECX mod 64 is at least 32 (bit 5 set), else `NO_NESTED_VTX_DETECTED` |
| `CpuidProbes.DetectVmIgnoresOtherBits` | virt_spy.c:41 | flipping any ECX bit but 31, or changing EAX, EBX or EDX, leaves the result unchanged |
| `CpuidProbes.DetectNestedIgnoresOtherBits` | virt_spy.c:133-134 | flipping any ECX bit but 5, or changing the other registers, leaves the result unchanged |
| `CpuidProbes.NestedBitBoundaries` | virt_spy.c:133-134 | ECX with only bit 4 or only bit 6 set gives "not detected"; only bit 5 gives "detected" |
| `CpuidProbes.HypervisorBitExamples` | virt_spy.c:41 | ECX = 1<<31 gives `VM_DETECTED`; ECX = 0x7FFFFFFF gives `NO_VM_DETECTED` |
| `HypervisorVendor.WordOfBytes` | virt_spy.c:107-109 | reading a register's four memory bytes back as a word gives the register |
| `HypervisorVendor.BytesOfWord` | virt_spy.c:107-109 | the memory bytes of the word built from four bytes are those bytes |
| `HypervisorVendor.Signature` | virt_spy.c:50-109 | the buffer has 13 bytes and ends in 0, and reading EBX, ECX and EDX back from its first 12 bytes in the branch's order gives the registers that were copied |
| `HypervisorVendor.SignatureLayout` | virt_spy.c:87-109 | byte 4k+j of the buffer is byte j (least significant first) of the k-th register in the branch's order; byte 12 is 0 |
| `HypervisorVendor.StoreWord` | virt_spy.c:107-109 | the memcpy of one register writes its four little-endian bytes at the offset and leaves every other byte unchanged |
| `HypervisorVendor.AssembleSignature` | virt_spy.c:50-109 | the freshly zeroed 13-byte array, after the three stores, holds the branch's signature bytes and a zero terminator |
| `HypervisorVendor.AssembleRoundTrip` | virt_spy.c:87-109 | encoding any 12 bytes into registers for a branch and assembling them gives the same 12 bytes plus the terminator |
| `HypervisorVendor.LayoutsAgreeWhenEcxIsEdx` | virt_spy.c:87-109 | the two branches build the same buffer whenever ECX equals EDX |
| `HypervisorVendor.StrncmpEqual` | virt_spy.c:111-116 | `strncmp(a, b, n) == 0` holds whenever the first n bytes are equal; against a pattern with no zero byte in its first n bytes it holds only then |
| `HypervisorVendor.StrncmpReadsPrefix` | virt_spy.c:111 | `strncmp(a, b, n)` depends only on the first n bytes of `a` |
| `HypervisorVendor.FirstPrefixMatchIsFirst` | virt_spy.c:111-116 | the table walk returns the entry that matches with no earlier entry matching, and Unknown exactly when no entry matches |
| `HypervisorVendor.Classify` | virt_spy.c:111-116 | the strncmp chain (the same chain as at lines 92-97) returns the first of KVM(3), VMware(6), Microsoft Hv(12), XenVMM(6), VBoxVBox(8) whose bytes begin the buffer, else Unknown |
| `HypervisorVendor.GetHypervisorVendor` | virt_spy.c:44-119 | the probe's vendor is the first table entry matching the buffer that the branch assembles from the registers |
| `HypervisorVendor.AllZeroIsUnknown` | virt_spy.c:111-116 | all-zero EBX, ECX and EDX give Unknown under either order |
| `HypervisorVendor.KvmDependsOnlyOnEbx` | virt_spy.c:87-111 | whether the result is KVM depends on EBX alone, so both orders agree on KVM |
| `HypervisorVendor.MsvcReadsSwappedWords` | virt_spy.c:87-89 | for a signature published as EBX, ECX, EDX, the MSVC buffer holds its words 1, 3, 2 |
| `HypervisorVendor.GccReadsPublished` | virt_spy.c:107-116 | the GCC branch classifies a published signature by the table applied to that signature |
| `HypervisorVendor.VMwareOrdersDisagree` | virt_spy.c:87-112 | "VMwareVMware" gives VMware under the GCC order and Unknown under the MSVC order |
| `HypervisorVendor.MsvcOrderMissesHyperV` | virt_spy.c:87-96 | under the MSVC order, the Hyper-V signature "Microsoft Hv" gives Unknown |
| `HypervisorVendor.CorrectedVendor` | virt_spy.c:107-116 | the vendor is the table's first match on the bytes of EBX, then ECX, then EDX |
| `HypervisorVendor.CorrectedRecognisesPublishedSignatures` | virt_spy.c:107-116 | the corrected probe names KVM, VMware, Hyper-V, Xen and VirtualBox from their published signatures |
| `Substring.Contains` | virt_spy.c:158 | `strstr(s, p) != NULL` iff p occurs in s at some index |
| `Substring.ContainsTransitive` | virt_spy.c:158 | a line containing p also contains every pattern p contains |
| `Substring.TooLongNeverContained` | virt_spy.c:158 | a pattern longer than the line never occurs in it |
| `EnvironmentScanners.MatchesAny` | virt_spy.c:158 | the `strstr(..) \|\| strstr(..)` test holds iff some pattern occurs in the line |
| `EnvironmentScanners.ScanLines` | virt_spy.c:156-168 | on non-empty output: the flag is set iff some line matches; reading stops at the first matching line, no earlier line matches, and all lines are read when none does |
| `EnvironmentScanners.DetectVirtualNetworkDevices` | virt_spy.c:139-179 | returns 3 iff some line contains eth, ens or veth, else -3; never another code |
| `EnvironmentScanners.DetectVirtualBlockDevices` | virt_spy.c:182-223 | returns 4 iff some line contains vda or xvda, else -4; never another code |
| `EnvironmentScanners.CheckKernelModules` | virt_spy.c:227-268 | returns 5 iff some line contains kvm or vbox, else -5; never another code |
| `EnvironmentScanners.DetectVirtualPciDevices` | virt_spy.c:271-313 | returns 6 iff some line contains 1002 or 8086, else -6; never another code |
| `EnvironmentScanners.NetworkPatternsReduce` | virt_spy.c:158 | a line matches the network patterns iff it contains "eth" or "ens"; "veth" is redundant |
| `EnvironmentScanners.BlockPatternsReduce` | virt_spy.c:201 | a line matches the block patterns iff it contains "vda"; "xvda" is redundant |
| `EnvironmentScanners.MatchIsFinal` | virt_spy.c:156-168 | output after a matching line cannot change a "detected" verdict |
| `EnvironmentScanners.NoMatchExtends` | virt_spy.c:156-168 | joining two outputs that have no match gives output with no match |
| `EnvironmentScanners.NetworkExamples` | virt_spy.c:156-178 | the lines "lo", "ens33" are a hit; "lo" alone is not |
| `EnvironmentScanners.KernelModuleExample` | virt_spy.c:244-256 | an lsmod listing with a "kvm_intel" line is a hit |

## Left out

- Issuing CPUID (`__cpuid`, `_cpuid`, `__get_cpuid`, inline asm) is hardware access. Each probe takes the `Registers` the query returned. The MSVC calls that pass `&eax` as a four-int array, and the misspelt `_cpuid`, are undefined behaviour. They are not modelled.
- `1 << 31` on a signed `int` is undefined in C. The model tests bit 31 of an unsigned 32-bit ECX.
- The CPUID bit probes take ECX as a free input: any 32-bit value, including one the query never wrote. The MSVC branch of `detect_vm` and `detect_nested_virtualization` lets the intrinsic write four ints starting at `&eax`. It sets ECX only if the compiler happens to place the locals next to each other, and that is not modelled.
- CpuidProbes.DetectNestedVirtualization: does not model a failed `__get_cpuid` (virt_spy.c:131-133). When leaf 0x8000001E is above the CPU's highest extended leaf (many Intel CPUs stop at 0x80000008), `__get_cpuid` returns 0 without running CPUID. The source ignores that return value and tests an uninitialised `ecx`. Because ECX is a free input, the model's contract covers whatever that value happens to be, but it has no "query failed" outcome.
- C string semantics are not modelled. `fgets` fills a byte buffer and `strstr` stops at the first zero byte. `Substring.Contains` and `EnvironmentScanners.ScanLines` search the whole Dafny string, and lines are sequences of characters, not bytes. For example, `Contains("ab\0eth", "eth")` is true in the model, but `strstr` returns NULL there. `ls` and `lsmod` never print a zero byte, so this does not change any verdict on their output.
- `popen`, `fgets`, `fclose`, `perror` and `exit(1)` on a failed launch are process and pipe I/O. A scanner takes the command's output as a sequence of lines. Launch failure ends the process in the source, so it has no result to model. A typed launch-failure result is not modelled.
- `fgets` reads at most 1034 bytes at a time, so a long line arrives in pieces. The model takes whole lines, so it also finds a pattern that spans a piece boundary, which the source would miss.
- EnvironmentScanners.ScanLines: requires at least one line. On empty output the source returns a flag it never set, which is undefined. In the model the flag starts with an arbitrary value, and the precondition keeps that value from reaching the result.
- The message strings of `get_hypervisor_vendor` are replaced by the `Vendor` datatype. The `#if` compiler selection is replaced by the `Layout` parameter.
- Pure functions return the same result on the same input by construction, so "calling a probe twice gives the same result" needs no separate statement.

## Findings

| source | as written | input that shows it | evidently intended | confidence | as-written member | corrected member |
|---|---|---|---|---|---|---|
| virt_spy.c:87-89 | the MSVC branch copies EBX, EDX, ECX. The hypervisor CPUID interface publishes the signature as EBX, ECX, EDX, which is the GCC branch's order. | Hyper-V publishes EBX="Micr", ECX="osof", EDX="t Hv". The MSVC buffer reads "Micrt Hvosof", so the result is Unknown. VMware ("VMwa", "reVM", "ware") also gives Unknown. | both builds read EBX, ECX, EDX and name Hyper-V and VMware | high for the register order (the hypervisor interface documents it); not executed | `HypervisorVendor.MsvcOrderMissesHyperV` | `HypervisorVendor.CorrectedVendor` |
