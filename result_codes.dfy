/** The result codes of the six VirtSpy probes (virt_spy.h).
    Every probe reports "detected" as a positive code and "not detected" as
    its negation; the magnitude names the probe. */
module ResultCodes {

  datatype Option<T> = None | Some(value: T)

  /** The six probes, in the order their codes are numbered. */
  datatype Probe =
    | HypervisorBit      // detect_vm
    | NestedVirt         // detect_nested_virtualization
    | NetworkDevices     // detect_virtual_network_devices
    | BlockDevices       // detect_virtual_block_devices
    | KernelModules      // check_kernel_modules
    | PciDevices         // detect_virtual_pci_devices

  const VmDetected: int := 1
  const NoVmDetected: int := -1

  const NestedVtxDetected: int := 2
  const NoNestedVtxDetected: int := -2

  const VtxNwDevDetected: int := 3
  const NoVtxNwDevDetected: int := -3

  const VtxBlkDevDetected: int := 4
  const NoVtxBlkDevDetected: int := -4

  const VtxKernModsDetected: int := 5
  const NoVtxKernModsDetected: int := -5

  const VtxPciDevDetected: int := 6
  const NoVtxPciDevDetected: int := -6

  /** The code a probe returns for a given verdict: the header's table.
      The sign carries the verdict and the magnitude names the probe. */
  function Code(p: Probe, detected: bool): (c: int)
    ensures (c > 0) == detected && c != 0
    ensures ProbeOfMagnitude(if c < 0 then -c else c) == Some(p)
  {
    match p
    case HypervisorBit => if detected then VmDetected else NoVmDetected
    case NestedVirt => if detected then NestedVtxDetected else NoNestedVtxDetected
    case NetworkDevices => if detected then VtxNwDevDetected else NoVtxNwDevDetected
    case BlockDevices => if detected then VtxBlkDevDetected else NoVtxBlkDevDetected
    case KernelModules => if detected then VtxKernModsDetected else NoVtxKernModsDetected
    case PciDevices => if detected then VtxPciDevDetected else NoVtxPciDevDetected
  }

  /** The probe whose codes have magnitude m, if any. */
  function ProbeOfMagnitude(m: nat): Option<Probe>
  {
    if m == 1 then Some(HypervisorBit)
    else if m == 2 then Some(NestedVirt)
    else if m == 3 then Some(NetworkDevices)
    else if m == 4 then Some(BlockDevices)
    else if m == 5 then Some(KernelModules)
    else if m == 6 then Some(PciDevices)
    else None
  }

  /** Reads a code back as (probe, verdict): the magnitude names the probe,
      the sign gives the verdict. */
  function Decode(c: int): (r: Option<(Probe, bool)>)
    ensures r.None? <==> !(-6 <= c <= 6 && c != 0)
  {
    var m: nat := if c < 0 then -c else c;
    match ProbeOfMagnitude(m)
    case None => None
    case Some(p) => Some((p, c > 0))
  }

  /** Every "detected" code is positive and its "not detected" partner is
      exactly its negation, so the sign alone gives the verdict. */
  lemma NotDetectedIsNegation(p: Probe)
    ensures Code(p, true) > 0
    ensures Code(p, false) == -Code(p, true)
    ensures forall d: bool :: (Code(p, d) > 0) == d
  {
  }

  /** The twelve constants are pairwise distinct: a code determines both
      the probe and the verdict. */
  lemma CodesDistinct(p: Probe, d: bool, q: Probe, e: bool)
    requires Code(p, d) == Code(q, e)
    ensures p == q && d == e
  {
    DecodeCode(p, d);
    DecodeCode(q, e);
  }

  /** Decoding a probe's code gives back the probe and the verdict. */
  lemma DecodeCode(p: Probe, d: bool)
    ensures Decode(Code(p, d)) == Some((p, d))
  {
  }

  /** Decode only accepts the twelve codes of the header. */
  lemma DecodeSound(c: int, p: Probe, d: bool)
    requires Decode(c) == Some((p, d))
    ensures Code(p, d) == c
  {
  }
}
