/** get_hypervisor_vendor (virt_spy.c): the 12-byte hypervisor signature
    that CPUID leaf 0x40000000 leaves in EBX, ECX and EDX is copied into a
    zeroed 13-byte buffer, and the buffer is compared with a fixed, ordered
    table of known signatures.

    The two compiler branches copy the registers in different orders: the
    MSVC branch stores EBX, EDX, ECX; the GCC branch EBX, ECX, EDX. The
    model keeps both, as a Layout. */
module HypervisorVendor {
  import opened CpuidProbes

  /** The register order of each compiler branch. */
  datatype Layout =
    | MsvcOrder  // EBX, EDX, ECX
    | GccOrder   // EBX, ECX, EDX

  /** The verdicts of get_hypervisor_vendor, in place of its messages. */
  datatype Vendor = Kvm | VMware | HyperV | Xen | VirtualBox | Unknown

  // ---------------------------------------------------------------------
  // Bytes of a register

  /** Byte j of w, least significant first, as memcpy copies it on a
      little-endian machine. */
  function ByteOf(w: bv32, j: nat): bv8
    requires j < 4
  {
    if j == 0 then (w & 0xFF) as bv8
    else if j == 1 then ((w >> 8) & 0xFF) as bv8
    else if j == 2 then ((w >> 16) & 0xFF) as bv8
    else (w >> 24) as bv8
  }

  /** The four bytes of w in memory order. */
  function LittleEndian(w: bv32): (b: seq<bv8>)
  {
    [ByteOf(w, 0), ByteOf(w, 1), ByteOf(w, 2), ByteOf(w, 3)]
  }

  /** The register whose memory image is b. */
  function Word(b: seq<bv8>): bv32
    requires |b| == 4
  {
    (b[0] as bv32) | ((b[1] as bv32) << 8) | ((b[2] as bv32) << 16) | ((b[3] as bv32) << 24)
  }

  lemma WordOfBytes(w: bv32)
    ensures Word(LittleEndian(w)) == w
  {
  }

  lemma BytesOfWord(b: seq<bv8>)
    requires |b| == 4
    ensures LittleEndian(Word(b)) == b
  {
    var w := Word(b);
    assert ByteOf(w, 0) == b[0];
    assert ByteOf(w, 1) == b[1];
    assert ByteOf(w, 2) == b[2];
    assert ByteOf(w, 3) == b[3];
  }

  // ---------------------------------------------------------------------
  // Assembling the signature buffer

  /** The three registers in the order a branch copies them. */
  function RegisterOrder(layout: Layout, regs: Registers): seq<bv32>
  {
    match layout
    case MsvcOrder => [regs.ebx, regs.edx, regs.ecx]
    case GccOrder => [regs.ebx, regs.ecx, regs.edx]
  }

  /** The 13-byte buffer after assembly: three register images and the
      terminating zero. Reading the registers back from its first 12 bytes,
      in the branch's order, gives the registers that were copied (EAX is
      not part of the signature). */
  function Signature(layout: Layout, regs: Registers): (s: seq<bv8>)
    ensures |s| == 13 && s[12] == 0
    ensures EncodeRegisters(layout, s[..12], regs.eax) == regs
  {
    var order := RegisterOrder(layout, regs);
    var e0, e1, e2 := LittleEndian(order[0]), LittleEndian(order[1]), LittleEndian(order[2]);
    var s := e0 + e1 + e2 + [0];
    JoinWords(e0, e1, e2);
    assert s[..12][0..4] == e0 && s[..12][4..8] == e1 && s[..12][8..12] == e2;
    WordOfBytes(order[0]);
    WordOfBytes(order[1]);
    WordOfBytes(order[2]);
    s
  }

  /** Byte 4k+j of the buffer is byte j of the k-th register in the
      branch's order, and byte 12 is the terminator. */
  lemma SignatureLayout(layout: Layout, regs: Registers, k: nat, j: nat)
    requires k < 3 && j < 4
    ensures |Signature(layout, regs)| == 13
    ensures Signature(layout, regs)[4 * k + j] == ByteOf(RegisterOrder(layout, regs)[k], j)
    ensures Signature(layout, regs)[12] == 0
  {
    var s, o := Signature(layout, regs), RegisterOrder(layout, regs);
    var e0, e1, e2 := LittleEndian(o[0]), LittleEndian(o[1]), LittleEndian(o[2]);
    assert s == e0 + e1 + e2 + [0];
    LittleEndianAt(o[k], j);
    if k == 0 {
      assert s[j] == e0[j];
    } else if k == 1 {
      assert s[4 + j] == e1[j];
    } else {
      assert s[8 + j] == e2[j];
    }
  }

  lemma LittleEndianAt(w: bv32, j: nat)
    requires j < 4
    ensures |LittleEndian(w)| == 4 && LittleEndian(w)[j] == ByteOf(w, j)
  {
  }

  /** memcpy(buf + offset, &w, 4). */
  method StoreWord(buf: array<bv8>, offset: nat, w: bv32)
    requires offset + 4 <= buf.Length
    modifies buf
    ensures buf[offset..offset + 4] == LittleEndian(w)
    ensures forall i :: 0 <= i < buf.Length && !(offset <= i < offset + 4) ==> buf[i] == old(buf[i])
  {
    for j := 0 to 4
      invariant forall i :: 0 <= i < buf.Length && !(offset <= i < offset + j) ==> buf[i] == old(buf[i])
      invariant forall i :: 0 <= i < j ==> buf[offset + i] == ByteOf(w, i)
    {
      buf[offset + j] := ByteOf(w, j);
    }
  }

  /** The buffer of get_hypervisor_vendor: zero it, copy the three
      registers in the branch's order, and (MSVC only) store the
      terminator explicitly; the GCC branch relies on the zeroing. */
  method AssembleSignature(layout: Layout, regs: Registers) returns (buf: array<bv8>)
    ensures fresh(buf)
    ensures buf[..] == Signature(layout, regs)
  {
    buf := new bv8[13](_ => 0);
    var order := RegisterOrder(layout, regs);
    StoreWord(buf, 0, order[0]);
    StoreWord(buf, 4, order[1]);
    assert buf[0..4] == LittleEndian(order[0]);
    StoreWord(buf, 8, order[2]);
    assert buf[0..4] == LittleEndian(order[0]);
    assert buf[4..8] == LittleEndian(order[1]);
    if layout == MsvcOrder {
      buf[12] := 0;
    }
    assert buf[12] == 0;
    SplitSignatureBuffer(buf[..]);
  }

  /** Three 4-byte images and a terminator, joined, give each image back
      at its offset. */
  lemma JoinWords(e0: seq<bv8>, e1: seq<bv8>, e2: seq<bv8>)
    requires |e0| == 4 && |e1| == 4 && |e2| == 4
    ensures var s := e0 + e1 + e2 + [0];
      |s| == 13 && s[12] == 0 && s[0..4] == e0 && s[4..8] == e1 && s[8..12] == e2
  {
    var s := e0 + e1 + e2 + [0];
    assert s[4..8] == e1 by {
      forall i | 0 <= i < 4 ensures s[4..8][i] == e1[i] {
        assert s[4 + i] == (e0 + e1)[4 + i];
      }
    }
    assert s[8..12] == e2 by {
      forall i | 0 <= i < 4 ensures s[8..12][i] == e2[i] {
        assert s[8 + i] == (e0 + e1 + e2)[8 + i];
      }
    }
  }

  /** A 13-byte buffer is its three words and its last byte. */
  lemma SplitSignatureBuffer(b: seq<bv8>)
    requires |b| == 13
    ensures b == b[0..4] + b[4..8] + b[8..12] + [b[12]]
  {
  }

  /** Registers that a branch assembles into the 12 bytes s: the inverse
      of assembly. */
  function EncodeRegisters(layout: Layout, s: seq<bv8>, eax: bv32): Registers
    requires |s| == 12
  {
    match layout
    case MsvcOrder => Registers(eax, Word(s[0..4]), Word(s[8..12]), Word(s[4..8]))
    case GccOrder => Registers(eax, Word(s[0..4]), Word(s[4..8]), Word(s[8..12]))
  }

  /** Encoding 12 bytes into registers and assembling them gives the same
      bytes back, terminated. */
  lemma AssembleRoundTrip(layout: Layout, s: seq<bv8>, eax: bv32)
    requires |s| == 12
    ensures Signature(layout, EncodeRegisters(layout, s, eax)) == s + [0]
  {
    BytesOfWord(s[0..4]);
    BytesOfWord(s[4..8]);
    BytesOfWord(s[8..12]);
    assert s == s[0..4] + s[4..8] + s[8..12];
  }

  /** The two orders agree whenever ECX and EDX hold the same value. */
  lemma LayoutsAgreeWhenEcxIsEdx(regs: Registers)
    requires regs.ecx == regs.edx
    ensures Signature(MsvcOrder, regs) == Signature(GccOrder, regs)
  {
  }

  // ---------------------------------------------------------------------
  // strncmp

  /** strncmp(a, b, n) == 0: equal up to n bytes, stopping early where both
      hold the terminator. Equal first n bytes always compare equal; against
      a pattern with no terminator in its first n bytes the converse holds
      too, so there strncmp is plain equality of the first n bytes. */
  function StrncmpEqual(a: seq<bv8>, b: seq<bv8>, n: nat): (r: bool)
    requires n <= |a| && n <= |b|
    ensures a[..n] == b[..n] ==> r
    ensures r && 0 !in b[..n] ==> a[..n] == b[..n]
  {
    if n == 0 then true
    else if a[0] != b[0] then false
    else if a[0] == 0 then
      assert b[..n][0] == 0;
      true
    else
      var r := StrncmpEqual(a[1..], b[1..], n - 1);
      assert a[..n] == [a[0]] + a[1..][..n - 1];
      assert b[..n] == [b[0]] + b[1..][..n - 1];
      r
  }

  /** strncmp only reads the first n bytes. */
  lemma {:induction false} StrncmpReadsPrefix(a: seq<bv8>, a': seq<bv8>, b: seq<bv8>, n: nat)
    requires n <= |a| && n <= |a'| && n <= |b|
    requires a[..n] == a'[..n]
    ensures StrncmpEqual(a, b, n) == StrncmpEqual(a', b, n)
  {
    if n > 0 {
      assert a[0] == a[..n][0] && a'[0] == a'[..n][0];
      assert a[1..][..n - 1] == a[..n][1..];
      assert a'[1..][..n - 1] == a'[..n][1..];
      StrncmpReadsPrefix(a[1..], a'[1..], b[1..], n - 1);
    }
  }

  /** sig starts with the bytes of p. */
  predicate BeginsWith(sig: seq<bv8>, p: seq<bv8>)
  {
    |p| <= |sig| && sig[..|p|] == p
  }

  /** strncmp over a pattern's full length, for a pattern with no
      terminator, is BeginsWith. */
  lemma StrncmpWholePattern(sig: seq<bv8>, p: seq<bv8>)
    requires |p| <= |sig|
    requires 0 !in p
    ensures StrncmpEqual(sig, p, |p|) == BeginsWith(sig, p)
  {
    assert p[..|p|] == p;
  }

  // ---------------------------------------------------------------------
  // The vendor table

  // The prefixes compared, as the bytes of their ASCII text.
  const KvmPrefix: seq<bv8> := [0x4B, 0x56, 0x4D]                     // "KVM"
  const VMwarePrefix: seq<bv8> := [0x56, 0x4D, 0x77, 0x61, 0x72, 0x65] // "VMware"
  const HyperVPrefix: seq<bv8> :=                                      // "Microsoft Hv"
    [0x4D, 0x69, 0x63, 0x72, 0x6F, 0x73, 0x6F, 0x66, 0x74, 0x20, 0x48, 0x76]
  const XenPrefix: seq<bv8> := [0x58, 0x65, 0x6E, 0x56, 0x4D, 0x4D]    // "XenVMM"
  const VirtualBoxPrefix: seq<bv8> :=                                  // "VBoxVBox"
    [0x56, 0x42, 0x6F, 0x78, 0x56, 0x42, 0x6F, 0x78]

  /** The prefixes in the order the source tries them, with their vendors. */
  const VendorTable: seq<(seq<bv8>, Vendor)> := [
    (KvmPrefix, Kvm),
    (VMwarePrefix, VMware),
    (HyperVPrefix, HyperV),
    (XenPrefix, Xen),
    (VirtualBoxPrefix, VirtualBox)
  ]

  /** The vendor of the first table entry whose prefix begins sig, or
      Unknown: the reference reading of the source's if-chain. */
  function FirstPrefixMatch(sig: seq<bv8>, table: seq<(seq<bv8>, Vendor)>): Vendor
  {
    if |table| == 0 then Unknown
    else if BeginsWith(sig, table[0].0) then table[0].1
    else FirstPrefixMatch(sig, table[1..])
  }

  /** FirstPrefixMatch picks the entry that matches with no earlier entry
      matching, and gives Unknown exactly when no entry matches. */
  lemma {:induction false} FirstPrefixMatchIsFirst(sig: seq<bv8>, table: seq<(seq<bv8>, Vendor)>, k: nat)
    requires forall j :: 0 <= j < |table| ==> table[j].1 != Unknown
    ensures FirstPrefixMatch(sig, table) == Unknown <==> forall j :: 0 <= j < |table| ==> !BeginsWith(sig, table[j].0)
    ensures k < |table| && BeginsWith(sig, table[k].0) && (forall j :: 0 <= j < k ==> !BeginsWith(sig, table[j].0))
            ==> FirstPrefixMatch(sig, table) == table[k].1
  {
    if |table| > 0 {
      var rest := table[1..];
      assert forall j :: 1 <= j < |table| ==> table[j] == rest[j - 1];
      FirstPrefixMatchIsFirst(sig, rest, if k > 0 then k - 1 else 0);
    }
  }

  lemma TableStep(sig: seq<bv8>, k: nat)
    requires k < |VendorTable|
    ensures FirstPrefixMatch(sig, VendorTable[k..])
         == if BeginsWith(sig, VendorTable[k].0) then VendorTable[k].1
            else FirstPrefixMatch(sig, VendorTable[k + 1..])
  {
    assert VendorTable[k..][0] == VendorTable[k];
    assert VendorTable[k..][1..] == VendorTable[k + 1..];
  }

  /** The strncmp chain of get_hypervisor_vendor on a buffer. It returns
      the first table entry whose prefix equals the buffer's leading bytes,
      and Unknown when none does. */
  function Classify(sig: seq<bv8>): (v: Vendor)
    requires |sig| >= 12
    ensures v == FirstPrefixMatch(sig, VendorTable)
  {
    var t := VendorTable;
    var v4 := if BeginsWith(sig, VirtualBoxPrefix) then VirtualBox else Unknown;
    assert FirstPrefixMatch(sig, t[4..]) == v4 by {
      TableStep(sig, 4);
      assert t[5..] == [];
    }
    var v3 := if BeginsWith(sig, XenPrefix) then Xen else v4;
    assert FirstPrefixMatch(sig, t[3..]) == v3 by { TableStep(sig, 3); }
    var v2 := if BeginsWith(sig, HyperVPrefix) then HyperV else v3;
    assert FirstPrefixMatch(sig, t[2..]) == v2 by { TableStep(sig, 2); }
    var v1 := if BeginsWith(sig, VMwarePrefix) then VMware else v2;
    assert FirstPrefixMatch(sig, t[1..]) == v1 by { TableStep(sig, 1); }
    var v0 := if BeginsWith(sig, KvmPrefix) then Kvm else v1;
    assert FirstPrefixMatch(sig, t) == v0 by {
      TableStep(sig, 0);
      assert t[0..] == t;
    }
    StrncmpWholePattern(sig, KvmPrefix);
    StrncmpWholePattern(sig, VMwarePrefix);
    StrncmpWholePattern(sig, HyperVPrefix);
    StrncmpWholePattern(sig, XenPrefix);
    StrncmpWholePattern(sig, VirtualBoxPrefix);
    if StrncmpEqual(sig, KvmPrefix, 3) then Kvm
    else if StrncmpEqual(sig, VMwarePrefix, 6) then VMware
    else if StrncmpEqual(sig, HyperVPrefix, 12) then HyperV
    else if StrncmpEqual(sig, XenPrefix, 6) then Xen
    else if StrncmpEqual(sig, VirtualBoxPrefix, 8) then VirtualBox
    else Unknown
  }


  /** get_hypervisor_vendor on the registers of leaf 0x40000000. */
  method GetHypervisorVendor(layout: Layout, regs: Registers) returns (v: Vendor)
    ensures v == FirstPrefixMatch(Signature(layout, regs), VendorTable)
  {
    var buf := AssembleSignature(layout, regs);
    v := Classify(buf[..]);
  }

  // ---------------------------------------------------------------------
  // Properties of the classification

  /** All-zero registers, as a host without the leaf may return, give
      Unknown in either order. */
  lemma AllZeroIsUnknown(layout: Layout, eax: bv32)
    ensures Classify(Signature(layout, Registers(eax, 0, 0, 0))) == Unknown
  {
  }

  /** Whether the verdict is KVM depends on EBX alone, so the two orders
      always agree about KVM. */
  lemma KvmDependsOnlyOnEbx(l1: Layout, r1: Registers, l2: Layout, r2: Registers)
    requires r1.ebx == r2.ebx
    ensures (Classify(Signature(l1, r1)) == Kvm) == (Classify(Signature(l2, r2)) == Kvm)
  {
    var s1, s2 := Signature(l1, r1), Signature(l2, r2);
    assert s1[..3] == s2[..3];
    StrncmpReadsPrefix(s1, s2, KvmPrefix, 3);
  }

  // ---------------------------------------------------------------------
  // The published signatures and the register order

  // The 12-byte signatures the hypervisors publish in EBX, ECX, EDX (in
  // that order) for leaf 0x40000000, as the bytes of their ASCII text.
  const KvmSignature: seq<bv8> :=                     // "KVMKVMKVM\0\0\0"
    [0x4B, 0x56, 0x4D, 0x4B, 0x56, 0x4D, 0x4B, 0x56, 0x4D, 0x00, 0x00, 0x00]
  const VMwareSignature: seq<bv8> :=                  // "VMwareVMware"
    [0x56, 0x4D, 0x77, 0x61, 0x72, 0x65, 0x56, 0x4D, 0x77, 0x61, 0x72, 0x65]
  const HyperVSignature: seq<bv8> := HyperVPrefix    // "Microsoft Hv"
  const XenSignature: seq<bv8> :=                     // "XenVMMXenVMM"
    [0x58, 0x65, 0x6E, 0x56, 0x4D, 0x4D, 0x58, 0x65, 0x6E, 0x56, 0x4D, 0x4D]
  const VirtualBoxSignature: seq<bv8> :=              // "VBoxVBoxVBox"
    [0x56, 0x42, 0x6F, 0x78, 0x56, 0x42, 0x6F, 0x78, 0x56, 0x42, 0x6F, 0x78]

  /** A hypervisor publishes its signature s as EBX, ECX, EDX: the GCC
      branch's order. The MSVC branch then reads EBX, EDX, ECX, i.e. the
      bytes of s with the second and third words swapped. */
  lemma MsvcReadsSwappedWords(s: seq<bv8>, eax: bv32)
    requires |s| == 12
    ensures Signature(MsvcOrder, EncodeRegisters(GccOrder, s, eax)) == s[0..4] + s[8..12] + s[4..8] + [0]
  {
    BytesOfWord(s[0..4]);
    BytesOfWord(s[4..8]);
    BytesOfWord(s[8..12]);
  }

  /** The buffer the GCC branch assembles from a published signature is
      the signature itself, so it is classified by the table. */
  lemma GccReadsPublished(s: seq<bv8>, eax: bv32)
    requires |s| == 12
    ensures Classify(Signature(GccOrder, EncodeRegisters(GccOrder, s, eax))) == FirstPrefixMatch(s + [0], VendorTable)
  {
    AssembleRoundTrip(GccOrder, s, eax);
  }

  /** The table walk finds entry k when k is the first entry whose prefix
      begins sig. */
  lemma FirstMatchAt(sig: seq<bv8>, k: nat)
    requires k < |VendorTable| && BeginsWith(sig, VendorTable[k].0)
    requires forall j :: 0 <= j < k ==> !BeginsWith(sig, VendorTable[j].0)
    ensures FirstPrefixMatch(sig, VendorTable) == VendorTable[k].1
  {
    FirstPrefixMatchIsFirst(sig, VendorTable, k);
  }

  /** The table walk gives Unknown when no prefix begins sig. */
  lemma NoMatch(sig: seq<bv8>)
    requires forall j :: 0 <= j < |VendorTable| ==> !BeginsWith(sig, VendorTable[j].0)
    ensures FirstPrefixMatch(sig, VendorTable) == Unknown
  {
    FirstPrefixMatchIsFirst(sig, VendorTable, 0);
  }

  /** "VMwareVMware" classifies as VMware under the GCC order but not
      under the MSVC order. */
  lemma VMwareOrdersDisagree(eax: bv32)
    ensures Classify(Signature(GccOrder, EncodeRegisters(GccOrder, VMwareSignature, eax))) == VMware
    ensures Classify(Signature(MsvcOrder, EncodeRegisters(GccOrder, VMwareSignature, eax))) == Unknown
  {
    var s := VMwareSignature;
    GccReadsPublished(s, eax);
    assert (s + [0])[..3][0] != KvmPrefix[0];
    assert (s + [0])[..6] == VMwarePrefix;
    FirstMatchAt(s + [0], 1);
    var sig := Signature(MsvcOrder, EncodeRegisters(GccOrder, s, eax));
    MsvcReadsSwappedWords(s, eax);
    // "VMwawarereVM": the sixth byte is 'w' where "VMware" has 'r'
    assert sig[..3][0] != KvmPrefix[0];
    assert sig[..6][4] != VMwarePrefix[4];
    assert sig[..12][0] != HyperVPrefix[0];
    assert sig[..6][0] != XenPrefix[0];
    assert sig[..8][1] != VirtualBoxPrefix[1];
    NoMatch(sig);
  }

  /** The MSVC branch reports a Hyper-V host as Unknown: it reads
      "Micrt Hvosof". */
  lemma MsvcOrderMissesHyperV(eax: bv32)
    ensures Classify(Signature(MsvcOrder, EncodeRegisters(GccOrder, HyperVSignature, eax))) == Unknown
  {
    var sig := Signature(MsvcOrder, EncodeRegisters(GccOrder, HyperVSignature, eax));
    MsvcReadsSwappedWords(HyperVSignature, eax);
    assert sig[..3][0] != KvmPrefix[0];
    assert sig[..6][0] != VMwarePrefix[0];
    assert sig[..12][4] != HyperVPrefix[4];
    assert sig[..6][0] != XenPrefix[0];
    assert sig[..8][0] != VirtualBoxPrefix[0];
    NoMatch(sig);
  }

  /** get_hypervisor_vendor with the registers read in the order the
      hypervisor publishes them (EBX, ECX, EDX) in every build. */
  function CorrectedVendor(regs: Registers): (v: Vendor)
    ensures v == FirstPrefixMatch(LittleEndian(regs.ebx) + LittleEndian(regs.ecx) + LittleEndian(regs.edx) + [0], VendorTable)
  {
    Classify(Signature(GccOrder, regs))
  }

  /** The corrected probe names table entry k for published bytes s that
      begin with entry k's prefix and with no earlier one. */
  lemma CorrectedFindsEntry(s: seq<bv8>, eax: bv32, k: nat)
    requires |s| == 12 && k < |VendorTable|
    requires BeginsWith(s + [0], VendorTable[k].0)
    requires forall j :: 0 <= j < k ==> !BeginsWith(s + [0], VendorTable[j].0)
    ensures CorrectedVendor(EncodeRegisters(GccOrder, s, eax)) == VendorTable[k].1
  {
    GccReadsPublished(s, eax);
    FirstMatchAt(s + [0], k);
  }

  /** The corrected probe names every hypervisor of the table from the
      signature it publishes. */
  lemma CorrectedRecognisesPublishedSignatures(eax: bv32)
    ensures CorrectedVendor(EncodeRegisters(GccOrder, KvmSignature, eax)) == Kvm
    ensures CorrectedVendor(EncodeRegisters(GccOrder, VMwareSignature, eax)) == VMware
    ensures CorrectedVendor(EncodeRegisters(GccOrder, HyperVSignature, eax)) == HyperV
    ensures CorrectedVendor(EncodeRegisters(GccOrder, XenSignature, eax)) == Xen
    ensures CorrectedVendor(EncodeRegisters(GccOrder, VirtualBoxSignature, eax)) == VirtualBox
  {
    CorrectedRecognisesKvm(eax);
    CorrectedRecognisesVMware(eax);
    CorrectedRecognisesHyperV(eax);
    CorrectedRecognisesXen(eax);
    CorrectedRecognisesVirtualBox(eax);
  }

  // One lemma per published signature keeps each proof small.

  lemma CorrectedRecognisesKvm(eax: bv32)
    ensures CorrectedVendor(EncodeRegisters(GccOrder, KvmSignature, eax)) == Kvm
  {
    var s := KvmSignature + [0];
    assert s[..3] == KvmPrefix;
    CorrectedFindsEntry(KvmSignature, eax, 0);
  }

  lemma CorrectedRecognisesVMware(eax: bv32)
    ensures CorrectedVendor(EncodeRegisters(GccOrder, VMwareSignature, eax)) == VMware
  {
    var s := VMwareSignature + [0];
    assert s[..3][0] != KvmPrefix[0];
    assert s[..6] == VMwarePrefix;
    CorrectedFindsEntry(VMwareSignature, eax, 1);
  }

  lemma CorrectedRecognisesHyperV(eax: bv32)
    ensures CorrectedVendor(EncodeRegisters(GccOrder, HyperVSignature, eax)) == HyperV
  {
    var s := HyperVSignature + [0];
    assert s[..3][0] != KvmPrefix[0];
    assert s[..6][0] != VMwarePrefix[0];
    assert s[..12] == HyperVPrefix;
    CorrectedFindsEntry(HyperVSignature, eax, 2);
  }

  lemma CorrectedRecognisesXen(eax: bv32)
    ensures CorrectedVendor(EncodeRegisters(GccOrder, XenSignature, eax)) == Xen
  {
    var s := XenSignature + [0];
    assert s[..3][0] != KvmPrefix[0];
    assert s[..6][0] != VMwarePrefix[0];
    assert s[..12][0] != HyperVPrefix[0];
    assert s[..6] == XenPrefix;
    CorrectedFindsEntry(XenSignature, eax, 3);
  }

  lemma CorrectedRecognisesVirtualBox(eax: bv32)
    ensures CorrectedVendor(EncodeRegisters(GccOrder, VirtualBoxSignature, eax)) == VirtualBox
  {
    var s := VirtualBoxSignature + [0];
    assert s[..3][0] != KvmPrefix[0];
    assert s[..6][1] != VMwarePrefix[1];
    assert s[..12][0] != HyperVPrefix[0];
    assert s[..6][0] != XenPrefix[0];
    assert s[..8] == VirtualBoxPrefix;
    CorrectedFindsEntry(VirtualBoxSignature, eax, 4);
  }
}
