/** The page tables the kernel builds (kernel/src/memory/kvm.c:11-44 and mm.c:23-34), decoded by
    the emulator's own page walk. */
module KernelPaging {
  import opened Bytes
  import opened Cache
  import opened Linear

  const NR_PDE: nat := 1024
  const NR_PTE: nat := 1024
  const PT_SIZE: nat := 0x40_0000              // bytes mapped by one page table
  const PHY_MEM: nat := 0x800_0000             // 128 MB
  const KOFFSET: nat := 0xC000_0000
  const TABLES: nat := PHY_MEM / PT_SIZE       // 32
  const KERNEL_SLOT: nat := KOFFSET / PT_SIZE  // 768

  /** make_pde and make_pte: frame address with present, writable and user bits. */
  function MakeEntry(addr: nat): nat { addr / PAGE * PAGE + 7 }

  /** The table that serves directory slot `k`: table i serves slots i and 768 + i. */
  function TableOf(k: nat): nat { if k < KERNEL_SLOT then k else k - KERNEL_SLOT }

  function DirectoryEntry(k: nat, tables: nat, kptablePa: nat): nat {
    if TableOf(k) < tables then MakeEntry(kptablePa + TableOf(k) * PAGE) else 0
  }

  lemma WholePage(pa: nat)
    requires pa % PAGE == 0
    ensures pa / 0x400 * 0x400 == pa
  {
    var k := pa / PAGE;
    Quotient(pa, 4 * k);
  }

  lemma Quotient(n: nat, q: nat)
    requires n == 0x400 * q
    ensures n / 0x400 == q
  {
  }

  /** What init_page leaves in the directory. */
  predicate IsKernelDirectory(pdir: seq<nat>, kptablePa: nat) {
    && |pdir| == NR_PDE
    && forall k :: 0 <= k < NR_PDE ==> pdir[k] == DirectoryEntry(k, TABLES, kptablePa)
  }

  /** And in the tables: entry k is frame k. */
  predicate IsFrameTable(ptable: seq<nat>) {
    && |ptable| == PHY_MEM / PAGE
    && forall k :: 0 <= k < |ptable| ==> ptable[k] == MakeEntry(k * PAGE)
  }

  predicate IsUserDirectory(updir: seq<nat>, kpdir: seq<nat>) {
    && |updir| == |kpdir| == NR_PDE
    && forall k :: 0 <= k < NR_PDE ==> updir[k] == if KERNEL_SLOT <= k < KERNEL_SLOT + TABLES then kpdir[k] else 0
  }

  /** The entries as numbers: the frame's address, and the present, writable and user bits set. */
  lemma KernelEntries(pdir: seq<nat>, ptable: seq<nat>, kptablePa: nat)
    requires IsKernelDirectory(pdir, kptablePa) && IsFrameTable(ptable) && kptablePa % 4096 == 0
    ensures forall k :: 0 <= k < 1024 ==> pdir[k] == KernelEntry(k, kptablePa)
    ensures |ptable| == 32768 && forall k :: 0 <= k < 32768 ==> ptable[k] == 4096 * k + 7
  {
    forall k | 0 <= k < 1024
      ensures pdir[k] == KernelEntry(k, kptablePa)
    {
      EntryOfPage(kptablePa / 4096 + TableOf(k));
    }
    forall k | 0 <= k < 32768
      ensures ptable[k] == 4096 * k + 7
    {
      EntryOfPage(k);
    }
  }

  lemma EntryOfPage(n: nat)
    ensures MakeEntry(n * 4096) == 4096 * n + 7
  {
  }

  function KernelEntry(k: nat, kptablePa: nat): nat {
    if k < 32 then kptablePa + 4096 * k + 7
    else if 768 <= k < 800 then kptablePa + 4096 * (k - 768) + 7
    else 0
  }

  /** A user directory has the same entries in the kernel's half, and no others. */
  lemma UserEntries(updir: seq<nat>, kpdir: seq<nat>, kptablePa: nat)
    requires IsKernelDirectory(kpdir, kptablePa) && IsUserDirectory(updir, kpdir) && kptablePa % 4096 == 0
    ensures forall k :: 0 <= k < 1024 ==>
      updir[k] == if 768 <= k < 800 then kptablePa + 4096 * (k - 768) + 7 else 0
  {
    forall k | 768 <= k < 800
      ensures updir[k] == kptablePa + 4096 * (k - 768) + 7
    {
      EntryOfPage(kptablePa / 4096 + (k - 768));
    }
  }

  /** A table of 32-bit words as it lies in memory. */
  ghost predicate Stored(mem: seq<Byte>, pa: nat, words: seq<nat>) {
    && pa + 4 * |words| <= |mem|
    && forall i :: 0 <= i < |words| ==> HwRead(mem, pa + 4 * i, 4) == words[i]
  }

  /** The map the kernel promises: the first 128 MB at 0 and again at 0xC0000000. */
  function KernelMap(laddr: nat): Outcome<nat> {
    if laddr < PHY_MEM then Done(laddr)
    else if KOFFSET <= laddr < KOFFSET + PHY_MEM then Done(laddr - KOFFSET)
    else Fault
  }

  function UserMap(laddr: nat): Outcome<nat> {
    if KOFFSET <= laddr < KOFFSET + PHY_MEM then Done(laddr - KOFFSET) else Fault
  }

  /** One walk through a directory entry that points at table `t`. */
  lemma WalkThroughTable(mem: seq<Byte>, mode: Mode, pdir: seq<nat>, kptablePa: nat, ptable: seq<nat>,
                         laddr: nat, t: nat)
    requires |mem| == MEM_SIZE && laddr < WORD && t < TABLES
    requires Stored(mem, mode.pdbr * PAGE, pdir) && Stored(mem, kptablePa, ptable)
    requires |pdir| == NR_PDE && IsFrameTable(ptable) && kptablePa % PAGE == 0
    requires pdir[laddr / PT_SIZE] == MakeEntry(kptablePa + t * PAGE)
    ensures PageTranslate(mem, mode, laddr) == Done(t * PT_SIZE + laddr % PT_SIZE)
  {
    hide HwRead;
    var pde := pdir[laddr / PT_SIZE];
    assert HwRead(mem, mode.pdbr * PAGE + 4 * (laddr / PT_SIZE), 4) == pde;
    assert pde / PAGE * PAGE == kptablePa + t * PAGE && pde % 2 == 1;
    var k := t * NR_PTE + laddr / PAGE % 1024;
    assert PteAddress(pde, laddr) == kptablePa + 4 * k;
    assert HwRead(mem, kptablePa + 4 * k, 4) == ptable[k];
    assert ptable[k] / PAGE == k && ptable[k] % 2 == 1;
    assert laddr % PT_SIZE == laddr / PAGE % 1024 * PAGE + laddr % PAGE;
  }

  /** After init_page the emulator's walk implements exactly the kernel's map, on all 2^32 addresses. */
  lemma KernelTablesDecode(mem: seq<Byte>, mode: Mode, kpdir: seq<nat>, kptablePa: nat, kptable: seq<nat>, laddr: nat)
    requires |mem| == MEM_SIZE && laddr < WORD
    requires Stored(mem, mode.pdbr * PAGE, kpdir) && Stored(mem, kptablePa, kptable)
    requires IsKernelDirectory(kpdir, kptablePa) && IsFrameTable(kptable) && kptablePa % PAGE == 0
    ensures PageTranslate(mem, mode, laddr) == KernelMap(laddr)
  {
    hide PageTranslate, Stored, IsFrameTable, MakeEntry;
    var slot := laddr / PT_SIZE;
    assert laddr == slot * PT_SIZE + laddr % PT_SIZE && slot < NR_PDE;
    if TableOf(slot) < TABLES {
      WalkThroughTable(mem, mode, kpdir, kptablePa, kptable, laddr, TableOf(slot));
    } else {
      NotPresentFaults(mem, mode, kpdir, laddr);
    }
  }

  lemma NotPresentFaults(mem: seq<Byte>, mode: Mode, pdir: seq<nat>, laddr: nat)
    requires |mem| == MEM_SIZE && laddr < WORD && |pdir| == NR_PDE
    requires Stored(mem, mode.pdbr * PAGE, pdir) && pdir[laddr / PT_SIZE] == 0
    ensures PageTranslate(mem, mode, laddr) == Fault
  {
    hide HwRead;
    assert HwRead(mem, mode.pdbr * PAGE + 4 * (laddr / PT_SIZE), 4) == 0;
  }

  /** After init_mm a user process sees the kernel half and nothing else. */
  lemma UserTablesDecode(mem: seq<Byte>, mode: Mode, updir: seq<nat>, kpdir: seq<nat>,
                         kptablePa: nat, kptable: seq<nat>, laddr: nat)
    requires |mem| == MEM_SIZE && laddr < WORD
    requires Stored(mem, mode.pdbr * PAGE, updir) && Stored(mem, kptablePa, kptable)
    requires IsKernelDirectory(kpdir, kptablePa) && IsUserDirectory(updir, kpdir)
    requires IsFrameTable(kptable) && kptablePa % PAGE == 0
    ensures PageTranslate(mem, mode, laddr) == UserMap(laddr)
  {
    hide PageTranslate, Stored, IsFrameTable, MakeEntry;
    var slot := laddr / PT_SIZE;
    assert laddr == slot * PT_SIZE + laddr % PT_SIZE && slot < NR_PDE;
    if KERNEL_SLOT <= slot < KERNEL_SLOT + TABLES {
      WalkThroughTable(mem, mode, updir, kptablePa, kptable, laddr, slot - KERNEL_SLOT);
    } else {
      NotPresentFaults(mem, mode, updir, laddr);
    }
  }

  /** Consequence for accesses, page crossings included: reading at 0xC0000000 + x is reading
      physical memory at x. */
  lemma {:induction false} AliasAddresses(mem: seq<Byte>, mode: Mode, x: nat, len: nat)
    requires |mem| == MEM_SIZE && mode.paging && x + len <= PHY_MEM
    requires forall l :: 0 <= l < WORD ==> PageTranslate(mem, mode, l) == KernelMap(l)
    ensures Addresses(mem, mode, KOFFSET + x, len) == Done(Range(x, len))
    decreases len
  {
    hide PageTranslate;
    if len > 0 {
      AliasAddresses(mem, mode, x + 1, len - 1);
      assert PageTranslate(mem, mode, KOFFSET + x) == KernelMap(KOFFSET + x);
      assert (KOFFSET + x + 1) % WORD == KOFFSET + (x + 1);
      assert Range(x, len) == [x] + Range(x + 1, len - 1);
    } else {
      assert Range(x, 0) == [];
    }
  }

  lemma KernelAliasReads(mem: seq<Byte>, mode: Mode, kpdir: seq<nat>, kptablePa: nat, kptable: seq<nat>,
                         x: nat, len: nat)
    requires |mem| == MEM_SIZE && mode.paging && x + len <= PHY_MEM
    requires Stored(mem, mode.pdbr * PAGE, kpdir) && Stored(mem, kptablePa, kptable)
    requires IsKernelDirectory(kpdir, kptablePa) && IsFrameTable(kptable) && kptablePa % PAGE == 0
    ensures LinearRead(mem, mode, KOFFSET + x, len) == Done(HwRead(mem, x, len))
  {
    hide PageTranslate, Stored;
    forall l | 0 <= l < WORD
      ensures PageTranslate(mem, mode, l) == KernelMap(l)
    {
      KernelTablesDecode(mem, mode, kpdir, kptablePa, kptable, l);
    }
    AliasAddresses(mem, mode, x, len);
    assert Gather(mem, Range(x, len)) == mem[x..x + len];
  }

  class Kernel {
    // the static tables, and the page-aligned physical addresses they are linked at
    const kpdir: array<nat>
    const kptable: array<nat>
    const updir: array<nat>
    const kpdirPa: nat
    const kptablePa: nat
    const updirPa: nat
    var cr3: nat
    var paging: bool
    var ucr3: nat

    ghost predicate Valid()
      reads this
    {
      && kpdir.Length == NR_PDE && kptable.Length == PHY_MEM / PAGE && updir.Length == NR_PDE
      && kpdir != kptable && kpdir != updir && kptable != updir
      && kpdirPa % PAGE == 0 && kptablePa % PAGE == 0 && updirPa % PAGE == 0
      && kpdirPa + PAGE <= MEM_SIZE && kptablePa + PHY_MEM / NR_PTE <= MEM_SIZE && updirPa + PAGE <= MEM_SIZE
    }

    constructor (kpdirPa: nat, kptablePa: nat, updirPa: nat)
      requires kpdirPa % PAGE == 0 && kptablePa % PAGE == 0 && updirPa % PAGE == 0
      requires kpdirPa + PAGE <= MEM_SIZE && kptablePa + PHY_MEM / NR_PTE <= MEM_SIZE && updirPa + PAGE <= MEM_SIZE
      ensures Valid() && fresh(kpdir) && fresh(kptable) && fresh(updir)
      ensures this.kpdirPa == kpdirPa && this.kptablePa == kptablePa && this.updirPa == updirPa
    {
      kpdir := new nat[NR_PDE](_ => 0);
      kptable := new nat[PHY_MEM / PAGE](_ => 0);
      updir := new nat[NR_PDE](_ => 0);
      this.kpdirPa, this.kptablePa, this.updirPa := kpdirPa, kptablePa, updirPa;
      cr3, paging, ucr3 := 0, false, 0;
    }

    /** init_page. */
    method InitPage()
      requires Valid()
      modifies kpdir, kptable, `cr3, `paging
      ensures Valid() && paging && cr3 == kpdirPa / PAGE * PAGE
      ensures IsKernelDirectory(kpdir[..], kptablePa) && IsFrameTable(kptable[..])
      ensures forall k :: 0 <= k < 1024 ==> kpdir[k] == KernelEntry(k, kptablePa)
      ensures forall k :: 0 <= k < 32768 ==> kptable[k] == 4096 * k + 7
    {
      hide MakeEntry;
      for i := 0 to NR_PDE
        invariant forall k :: 0 <= k < i ==> kpdir[k] == 0
      {
        kpdir[i] := 0;
      }
      var pframeIdx := 0;
      var ptable := 0;              // the entry of kptable the pointer is at
      for pdirIdx := 0 to TABLES
        invariant ptable == pframeIdx == pdirIdx * NR_PTE
        invariant forall k :: 0 <= k < NR_PDE ==> kpdir[k] == DirectoryEntry(k, pdirIdx, kptablePa)
        invariant forall k :: 0 <= k < ptable ==> kptable[k] == MakeEntry(k * PAGE)
      {
        kpdir[pdirIdx] := MakeEntry(kptablePa + ptable * 4);
        kpdir[pdirIdx + KOFFSET / PT_SIZE] := MakeEntry(kptablePa + ptable * 4);
        assert ptable * 4 == pdirIdx * PAGE;
        for ptableIdx := 0 to NR_PTE
          invariant forall k :: 0 <= k < NR_PDE ==> kpdir[k] == DirectoryEntry(k, pdirIdx + 1, kptablePa)
          invariant ptable == pframeIdx == pdirIdx * NR_PTE + ptableIdx
          invariant forall k :: 0 <= k < ptable ==> kptable[k] == MakeEntry(k * PAGE)
        {
          kptable[ptable] := MakeEntry(pframeIdx * PAGE);
          pframeIdx := pframeIdx + 1;
          ptable := ptable + 1;
        }
      }
      KernelEntries(kpdir[..], kptable[..], kptablePa);
      cr3 := kpdirPa / PAGE * PAGE;
      paging := true;
    }

    /** init_mm. */
    method InitMm()
      requires Valid()
      modifies updir, `ucr3
      ensures Valid() && ucr3 == updirPa
      ensures IsUserDirectory(updir[..], kpdir[..])
    {
      WholePage(updirPa);
      for i := 0 to NR_PDE
        invariant forall k :: 0 <= k < i ==> updir[k] == 0
      {
        updir[i] := 0;
      }
      for i := 0 to PHY_MEM / PT_SIZE
        invariant forall k :: 0 <= k < NR_PDE ==> updir[k] == if KERNEL_SLOT <= k < KERNEL_SLOT + i then kpdir[k] else 0
      {
        updir[KOFFSET / PT_SIZE + i] := kpdir[KOFFSET / PT_SIZE + i];
      }
      ucr3 := updirPa / 0x400 * 0x400;
    }
  }
}
