/** The register values CPUID hands back, and the two probes that test one
    feature bit of ECX (virt_spy.c, detect_vm and
    detect_nested_virtualization). Issuing CPUID is hardware access and is
    not modelled: each probe takes the registers the query returned. */
module CpuidProbes {
  import opened ResultCodes

  /** EAX, EBX, ECX and EDX as CPUID leaves them, unsigned 32-bit. */
  datatype Registers = Registers(eax: bv32, ebx: bv32, ecx: bv32, edx: bv32)

  /** Bit k of a register, counted from the least significant bit. */
  predicate BitSet(x: bv32, k: nat)
    requires k < 32
  {
    x & (1 << k) != 0
  }

  /** detect_vm on the registers of leaf 1: the hypervisor-present bit is
      bit 31 of ECX, the top bit, so it is set exactly when ECX read as an
      unsigned number is at least 2^31. */
  function DetectVm(regs: Registers): (code: int)
    ensures code == Code(HypervisorBit, regs.ecx >= 0x8000_0000)
  {
    if BitSet(regs.ecx, 31) then VmDetected else NoVmDetected
  }

  /** detect_nested_virtualization on the registers of leaf 0x8000001E:
      bit 5 of ECX, i.e. whether ECX modulo 64 is at least 32. */
  function DetectNestedVirtualization(regs: Registers): (code: int)
    ensures code == Code(NestedVirt, regs.ecx % 64 >= 32)
  {
    if BitSet(regs.ecx, 5) then NestedVtxDetected else NoNestedVtxDetected
  }

  /** Flipping any ECX bit other than 31, or changing any other register,
      leaves detect_vm's answer unchanged. */
  lemma DetectVmIgnoresOtherBits(regs: Registers, other: Registers, k: nat)
    requires k < 32 && k != 31
    requires other.ecx == regs.ecx ^ (1 << k)
    ensures DetectVm(other) == DetectVm(regs)
  {
  }

  /** Flipping any ECX bit other than 5, or changing any other register,
      leaves detect_nested_virtualization's answer unchanged. */
  lemma DetectNestedIgnoresOtherBits(regs: Registers, other: Registers, k: nat)
    requires k < 32 && k != 5
    requires other.ecx == regs.ecx ^ (1 << k)
    ensures DetectNestedVirtualization(other) == DetectNestedVirtualization(regs)
  {
  }

  /** The neighbouring bits 4 and 6 do not trigger the nested probe;
      bit 5 alone does. */
  lemma NestedBitBoundaries(eax: bv32, ebx: bv32, edx: bv32)
    ensures DetectNestedVirtualization(Registers(eax, ebx, 1 << 4, edx)) == NoNestedVtxDetected
    ensures DetectNestedVirtualization(Registers(eax, ebx, 1 << 6, edx)) == NoNestedVtxDetected
    ensures DetectNestedVirtualization(Registers(eax, ebx, 1 << 5, edx)) == NestedVtxDetected
  {
  }

  /** ECX with only bit 31 set is a hypervisor; ECX with every other bit
      set is not. */
  lemma HypervisorBitExamples(eax: bv32, ebx: bv32, edx: bv32)
    ensures DetectVm(Registers(eax, ebx, 1 << 31, edx)) == VmDetected
    ensures DetectVm(Registers(eax, ebx, 0x7FFF_FFFF, edx)) == NoVmDetected
  {
  }
}
