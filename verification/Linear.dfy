/** Linear accesses (nemu/src/memory/memory.c) through the two-level page walk of
    nemu/src/memory/mmu/page.c.  The simple form they refine translates every byte on its own. */
module Linear {
  import opened Bytes
  import opened Cache

  const PAGE: nat := 4096

  /** A failed assert, or an access outside hw_mem, ends the emulator: no result. */
  datatype Outcome<+T> = Done(value: T) | Fault

  /** The state the translation depends on besides memory: paging is cr0.pg and cr0.pe. */
  datatype Mode = Mode(paging: bool, pdbr: nat) {
    predicate Valid() { pdbr < 0x10_0000 }
  }

  //// page_translate

  /** Where the page directory entry of `laddr` lies, and the table entry once `pde` is known. */
  function PdeAddress(mode: Mode, laddr: nat): nat { mode.pdbr * PAGE + laddr / 0x40_0000 * 4 }
  function PteAddress(pde: nat, laddr: nat): nat { pde / PAGE * PAGE + laddr / PAGE % 1024 * 4 }

  function PageTranslate(mem: seq<Byte>, mode: Mode, laddr: nat): Outcome<nat>
    requires |mem| == MEM_SIZE
  {
    if PdeAddress(mode, laddr) + 4 > MEM_SIZE then Fault else
      var pde := HwRead(mem, PdeAddress(mode, laddr), 4);
      if pde % 2 != 1 || PteAddress(pde, laddr) + 4 > MEM_SIZE then Fault else
        var pte := HwRead(mem, PteAddress(pde, laddr), 4);
        if pte % 2 != 1 then Fault else Done(pte / PAGE * PAGE + laddr % PAGE)
  }

  //// The simple form: byte by byte

  /** The physical address of one linear byte. */
  function Physical(mem: seq<Byte>, mode: Mode, laddr: nat): (r: Outcome<nat>)
    requires |mem| == MEM_SIZE
    ensures r.Done? ==> r.value < MEM_SIZE
  {
    var p := if mode.paging then PageTranslate(mem, mode, laddr) else Done(laddr);
    if p.Done? && p.value < MEM_SIZE then p else Fault
  }

  /** The physical addresses of `len` consecutive linear bytes, wrapping at 2^32. */
  function Addresses(mem: seq<Byte>, mode: Mode, laddr: nat, len: nat): (r: Outcome<seq<nat>>)
    requires |mem| == MEM_SIZE
    ensures r.Done? ==> |r.value| == len && forall i :: 0 <= i < len ==> r.value[i] < MEM_SIZE
    decreases len
  {
    if len == 0 then Done([]) else
      var first := Physical(mem, mode, laddr);
      var rest := Addresses(mem, mode, (laddr + 1) % WORD, len - 1);
      if first.Done? && rest.Done? then Done([first.value] + rest.value) else Fault
  }

  function Gather(mem: seq<Byte>, addrs: seq<nat>): (r: seq<Byte>)
    requires forall i :: 0 <= i < |addrs| ==> addrs[i] < |mem|
    ensures |r| == |addrs| && forall i :: 0 <= i < |addrs| ==> r[i] == mem[addrs[i]]
  {
    seq(|addrs|, i requires 0 <= i < |addrs| => mem[addrs[i]])
  }

  function Scatter(mem: seq<Byte>, addrs: seq<nat>, bytes: seq<Byte>): (r: seq<Byte>)
    requires |addrs| == |bytes| && forall i :: 0 <= i < |addrs| ==> addrs[i] < |mem|
    ensures |r| == |mem|
    decreases |addrs|
  {
    if addrs == [] then mem else Scatter(mem[addrs[0] := bytes[0]], addrs[1..], bytes[1..])
  }

  /** A linear read: the little-endian value of the bytes found by translating each address. */
  function LinearRead(mem: seq<Byte>, mode: Mode, laddr: nat, len: nat): Outcome<nat>
    requires |mem| == MEM_SIZE
  {
    match Addresses(mem, mode, laddr, len)
    case Done(addrs) => Done(LittleEndian(Gather(mem, addrs)))
    case Fault => Fault
  }

  /** A linear write: byte i of the data to the translation, beforehand, of address i. */
  function LinearWrite(mem: seq<Byte>, mode: Mode, laddr: nat, len: nat, data: nat): (r: Outcome<seq<Byte>>)
    requires |mem| == MEM_SIZE
    ensures r.Done? ==> |r.value| == MEM_SIZE
  {
    match Addresses(mem, mode, laddr, len)
    case Done(addrs) => Done(Scatter(mem, addrs, BytesOf(data, len)))
    case Fault => Fault
  }

  //// Within a page the simple form is contiguous

  /** Translation keeps the offset in the page. */
  lemma OffsetKept(mem: seq<Byte>, mode: Mode, laddr: nat)
    requires |mem| == MEM_SIZE
    ensures Physical(mem, mode, laddr).Done? ==> Physical(mem, mode, laddr).value % PAGE == laddr % PAGE
  {
  }

  /** The next byte of the same page is the next physical byte. */
  lemma NextByte(mem: seq<Byte>, mode: Mode, laddr: nat)
    requires |mem| == MEM_SIZE && laddr % PAGE + 1 < PAGE
    ensures match Physical(mem, mode, laddr)
            case Done(p) => Physical(mem, mode, laddr + 1) == Done(p + 1)
            case Fault => Physical(mem, mode, laddr + 1) == Fault
  {
    hide HwRead;
    NextOffset(laddr);
    OffsetKept(mem, mode, laddr);
  }

  lemma NextOffset(laddr: nat)
    requires laddr % PAGE + 1 < PAGE
    ensures laddr / PAGE == (laddr + 1) / PAGE && (laddr + 1) % PAGE == laddr % PAGE + 1
    ensures laddr / 0x40_0000 == (laddr + 1) / 0x40_0000
  {
  }

  function Range(p: nat, n: nat): (r: seq<nat>)
    ensures |r| == n && forall i :: 0 <= i < n ==> r[i] == p + i
  {
    seq(n, i => p + i)
  }

  lemma {:induction false} WithinPage(mem: seq<Byte>, mode: Mode, laddr: nat, n: nat)
    requires |mem| == MEM_SIZE && laddr < WORD && 1 <= n && laddr % PAGE + n <= PAGE
    ensures match Physical(mem, mode, laddr)
            case Done(p) => p + n <= MEM_SIZE && Addresses(mem, mode, laddr, n) == Done(Range(p, n))
            case Fault => Addresses(mem, mode, laddr, n) == Fault
    decreases n
  {
    hide PageTranslate;
    var next := (laddr + 1) % WORD;
    assert Addresses(mem, mode, next, 0) == Done([]);
    if n == 1 {
      if Physical(mem, mode, laddr).Done? {
        assert [Physical(mem, mode, laddr).value] + [] == Range(Physical(mem, mode, laddr).value, 1);
      }
    } else {
      assert next == laddr + 1 && next % PAGE == laddr % PAGE + 1;
      NextByte(mem, mode, laddr);
      WithinPage(mem, mode, next, n - 1);
      if Physical(mem, mode, laddr).Done? {
        var p := Physical(mem, mode, laddr).value;
        assert [p] + Range(p + 1, n - 1) == Range(p, n);
      }
    }
  }

  lemma WrapStep(l: nat, m: nat)
    requires m > 0
    ensures ((l + 1) % WORD + (m - 1)) % WORD == (l + m) % WORD
  {
  }

  function Cons(first: Outcome<nat>, rest: Outcome<seq<nat>>): Outcome<seq<nat>> {
    if first.Done? && rest.Done? then Done([first.value] + rest.value) else Fault
  }

  function Append(a: Outcome<seq<nat>>, b: Outcome<seq<nat>>): Outcome<seq<nat>> {
    if a.Done? && b.Done? then Done(a.value + b.value) else Fault
  }

  lemma AppendCons(first: Outcome<nat>, a: Outcome<seq<nat>>, b: Outcome<seq<nat>>)
    ensures Append(Cons(first, a), b) == Cons(first, Append(a, b))
    ensures Append(Done([]), b) == b
  {
    if first.Done? && a.Done? && b.Done? {
      assert ([first.value] + a.value) + b.value == [first.value] + (a.value + b.value);
    }
    if b.Done? {
      assert [] + b.value == b.value;
    }
  }

  lemma AddressesStep(mem: seq<Byte>, mode: Mode, laddr: nat, len: nat)
    requires |mem| == MEM_SIZE
    ensures Addresses(mem, mode, laddr, 0) == Done([])
    ensures len > 0 ==>
      Addresses(mem, mode, laddr, len)
      == Cons(Physical(mem, mode, laddr), Addresses(mem, mode, (laddr + 1) % WORD, len - 1))
  {
    hide Physical;
  }

  lemma {:induction false} AddressesSplit(mem: seq<Byte>, mode: Mode, laddr: nat, m: nat, n: nat)
    requires |mem| == MEM_SIZE && laddr < WORD
    ensures Addresses(mem, mode, laddr, m + n)
         == Append(Addresses(mem, mode, laddr, m), Addresses(mem, mode, (laddr + m) % WORD, n))
    decreases m
  {
    hide Physical, Addresses, Append, Cons;
    var first, b := Physical(mem, mode, laddr), Addresses(mem, mode, (laddr + m) % WORD, n);
    AddressesStep(mem, mode, laddr, m);
    AddressesStep(mem, mode, laddr, m + n);
    if m == 0 {
      AppendCons(first, b, b);
    } else {
      var next := (laddr + 1) % WORD;
      AddressesSplit(mem, mode, next, m - 1, n);
      WrapStep(laddr, m);
      AppendCons(first, Addresses(mem, mode, next, m - 1), b);
    }
  }

  lemma {:induction false} ScatterRange(mem: seq<Byte>, p: nat, bytes: seq<Byte>)
    requires p + |bytes| <= |mem|
    ensures Scatter(mem, Range(p, |bytes|), bytes) == mem[..p] + bytes + mem[p + |bytes|..]
    decreases |bytes|
  {
    if bytes != [] {
      assert Range(p, |bytes|)[1..] == Range(p + 1, |bytes| - 1);
      ScatterRange(mem[p := bytes[0]], p + 1, bytes[1..]);
    }
  }

  lemma {:induction false} ScatterConcat(mem: seq<Byte>, a: seq<nat>, b: seq<nat>, x: seq<Byte>, y: seq<Byte>)
    requires |a| == |x| && |b| == |y|
    requires forall i :: 0 <= i < |a| ==> a[i] < |mem|
    requires forall i :: 0 <= i < |b| ==> b[i] < |mem|
    ensures Scatter(mem, a + b, x + y) == Scatter(Scatter(mem, a, x), b, y)
    decreases |a|
  {
    if a == [] {
      assert a + b == b && x + y == y;
    } else {
      assert (a + b)[1..] == a[1..] + b && (x + y)[1..] == x[1..] + y;
      ScatterConcat(mem[a[0] := x[0]], a[1..], b, x[1..], y);
    }
  }

  /** Within one page a linear read is one physical read, and a linear write one physical write. */
  lemma OnePage(mem: seq<Byte>, mode: Mode, laddr: nat, len: nat, data: nat)
    requires |mem| == MEM_SIZE && laddr < WORD && 1 <= len && laddr % PAGE + len <= PAGE
    ensures match Physical(mem, mode, laddr)
            case Done(p) =>
              && p + len <= MEM_SIZE
              && LinearRead(mem, mode, laddr, len) == Done(HwRead(mem, p, len))
              && LinearWrite(mem, mode, laddr, len, data) == Done(HwWrite(mem, p, len, data))
            case Fault =>
              LinearRead(mem, mode, laddr, len) == Fault && LinearWrite(mem, mode, laddr, len, data) == Fault
  {
    hide Physical, Addresses;
    WithinPage(mem, mode, laddr, len);
    match Physical(mem, mode, laddr)
    case Done(p) =>
      assert Gather(mem, Range(p, len)) == mem[p..p + len];
      ScatterWrite(mem, p, len, data);
    case Fault =>
  }

  lemma ReadTwoRuns(mem: seq<Byte>, p: nat, m: nat, q: nat, n: nat)
    requires p + m <= |mem| && q + n <= |mem| && m + n <= 4
    ensures LittleEndian(Gather(mem, Range(p, m) + Range(q, n)))
         == (ShiftLeft32(HwRead(mem, q, n), m) + HwRead(mem, p, m)) % WORD
  {
    assert Gather(mem, Range(p, m) + Range(q, n)) == mem[p..p + m] + mem[q..q + n];
    hide ShiftLeft32;
    JoinBytes(mem[p..p + m], mem[q..q + n]);
  }

  lemma ScatterWrite(mem: seq<Byte>, p: nat, n: nat, data: nat)
    requires p + n <= |mem|
    ensures Scatter(mem, Range(p, n), BytesOf(data, n)) == HwWrite(mem, p, n, data)
  {
    ScatterRange(mem, p, BytesOf(data, n));
  }

  lemma WriteTwoRuns(mem: seq<Byte>, p: nat, m: nat, q: nat, n: nat, data: nat)
    requires p + m <= |mem| && q + n <= |mem| && m + n <= 4
    ensures Scatter(mem, Range(p, m) + Range(q, n), BytesOf(data, m + n))
         == HwWrite(HwWrite(mem, p, m, ShiftRightBytes(ShiftLeft32(data, n), n)), q, n, ShiftRightBytes(data, m))
  {
    var low, high := ShiftRightBytes(ShiftLeft32(data, n), n), ShiftRightBytes(data, m);
    assert HwWrite(mem, p, m, low) == HwWrite(mem, p, m, data) by {
      hide ShiftRightBytes, ShiftLeft32;
      MaskedLowBytes(data, n, m);
    }
    hide ShiftRightBytes, ShiftLeft32, Scatter, HwWrite, BytesOf;
    BytesOfSplit(data, m, n);
    ScatterConcat(mem, Range(p, m), Range(q, n), BytesOf(data, m), BytesOf(high, n));
    ScatterWrite(mem, p, m, data);
    ScatterWrite(HwWrite(mem, p, m, data), q, n, high);
  }

  /** Across a page boundary it is two, the data split and joined as laddr_read and laddr_write do. */
  lemma TwoPages(mem: seq<Byte>, mode: Mode, laddr: nat, m: nat, n: nat, data: nat)
    requires |mem| == MEM_SIZE && laddr < WORD && 1 <= m && 1 <= n && m + n <= 4
    requires laddr % PAGE + m == PAGE
    ensures var a, b := Physical(mem, mode, laddr), Physical(mem, mode, (laddr + m) % WORD);
      if a.Done? && b.Done? then
        && a.value + m <= MEM_SIZE && b.value + n <= MEM_SIZE
        && LinearRead(mem, mode, laddr, m + n)
           == Done((ShiftLeft32(HwRead(mem, b.value, n), m) + HwRead(mem, a.value, m)) % WORD)
        && LinearWrite(mem, mode, laddr, m + n, data)
           == Done(HwWrite(HwWrite(mem, a.value, m, ShiftRightBytes(ShiftLeft32(data, n), n)),
                           b.value, n, ShiftRightBytes(data, m)))
      else
        LinearRead(mem, mode, laddr, m + n) == Fault && LinearWrite(mem, mode, laddr, m + n, data) == Fault
  {
    hide Physical, Addresses, ShiftRightBytes, ShiftLeft32, HwRead, HwWrite, LittleEndian;
    var next := (laddr + m) % WORD;
    PageAligned(laddr + m);
    AddressesSplit(mem, mode, laddr, m, n);
    WithinPage(mem, mode, laddr, m);
    WithinPage(mem, mode, next, n);
    var a, b := Physical(mem, mode, laddr), Physical(mem, mode, next);
    if a.Done? && b.Done? {
      ReadTwoRuns(mem, a.value, m, b.value, n);
      WriteTwoRuns(mem, a.value, m, b.value, n, data);
    }
  }

  lemma PageAligned(l: nat)
    requires l % PAGE == 0
    ensures l % WORD % PAGE == 0
  {
  }

  //// laddr_read and laddr_write

  /** Without paging a linear access is the physical access at the same address. */
  lemma Unpaged(mem: seq<Byte>, mode: Mode, laddr: nat, len: nat, data: nat)
    requires |mem| == MEM_SIZE && laddr < WORD && 1 <= len <= 4 && !mode.paging
    ensures LinearRead(mem, mode, laddr, len) ==
      if laddr + len <= MEM_SIZE then Done(HwRead(mem, laddr, len)) else Fault
    ensures LinearWrite(mem, mode, laddr, len, data) ==
      if laddr + len <= MEM_SIZE then Done(HwWrite(mem, laddr, len, data)) else Fault
  {
    hide PageTranslate, Addresses, Scatter, HwWrite;
    UnpagedAddresses(mem, mode, laddr, len);
    if laddr + len <= MEM_SIZE {
      assert Gather(mem, Range(laddr, len)) == mem[laddr..laddr + len];
      ScatterWrite(mem, laddr, len, data);
    }
  }

  lemma {:induction false} UnpagedAddresses(mem: seq<Byte>, mode: Mode, laddr: nat, len: nat)
    requires |mem| == MEM_SIZE && laddr < WORD && !mode.paging
    ensures Addresses(mem, mode, laddr, len) ==
      if len == 0 || laddr + len <= MEM_SIZE then Done(Range(laddr, len)) else Fault
    decreases len
  {
    hide PageTranslate, Addresses, Cons;
    AddressesStep(mem, mode, laddr, len);
    if len == 0 {
      assert Range(laddr, 0) == [];
    } else {
      UnpagedAddresses(mem, mode, (laddr + 1) % WORD, len - 1);
      UnpagedCons(laddr, len);
    }
  }

  lemma UnpagedCons(laddr: nat, len: nat)
    requires laddr < WORD && len > 0
    ensures var next := (laddr + 1) % WORD;
      Cons(if laddr < MEM_SIZE then Done(laddr) else Fault,
           if len - 1 == 0 || next + (len - 1) <= MEM_SIZE then Done(Range(next, len - 1)) else Fault)
      == if laddr + len <= MEM_SIZE then Done(Range(laddr, len)) else Fault
  {
    if laddr < MEM_SIZE {
      assert (laddr + 1) % WORD == laddr + 1;
      assert [laddr] + Range(laddr + 1, len - 1) == Range(laddr, len);
    }
  }

  /** Where an access of at most 4 bytes leaves its page, also at the top of the address space. */
  lemma CrossingPoint(laddr: nat, len: nat)
    requires laddr < WORD && 1 <= len <= 4
    requires laddr / PAGE != (laddr + len - 1) % WORD / PAGE
    ensures var p2 := (laddr + len - 1) % WORD / PAGE; var ex := (laddr + len) % WORD - p2 * PAGE;
      1 <= ex < len && laddr % PAGE + (len - ex) == PAGE && (laddr + (len - ex)) % WORD == p2 * PAGE
  {
  }

  lemma SamePage(laddr: nat, len: nat)
    requires laddr < WORD && 1 <= len <= 4
    requires laddr / PAGE == (laddr + len - 1) % WORD / PAGE
    ensures laddr % PAGE + len <= PAGE
  {
  }

  class Mmu {
    const cache: CachedMemory
    const cacheEnabled: bool       // CACHE_ENABLED of include/config.h
    var mode: Mode

    /** After reset: memory and cache cleared, paging off. */
    constructor (cacheEnabled: bool)
      ensures Valid() && fresh(cache) && fresh(cache.hwMem) && fresh(cache.lines)
      ensures this.cacheEnabled == cacheEnabled && mode == Mode(false, 0)
    {
      cache := new CachedMemory();
      this.cacheEnabled := cacheEnabled;
      mode := Mode(false, 0);
    }

    ghost predicate Valid()
      reads this, cache, cache.hwMem, cache.lines
    {
      && cache.Valid() && mode.Valid()
      && (!cacheEnabled ==> forall i :: 0 <= i < LINES ==> !cache.lines[i].valid)
    }

    ghost function Mem(): seq<Byte>
      reads cache.hwMem
    {
      cache.Mem()
    }

    method PaddrRead(paddr: nat, len: nat) returns (ret: nat)
      requires Valid() && 1 <= len <= 4 && paddr + len <= MEM_SIZE
      modifies cache, cache.lines
      ensures Valid() && ret == HwRead(Mem(), paddr, len)
      ensures cacheEnabled ==> cache.all == old(cache.all) + (if paddr / 64 == (paddr + len - 1) / 64 then 1 else 2)
      ensures !cacheEnabled ==> unchanged(cache) && unchanged(cache.lines)
    {
      hide LineCoherent, Unique, HwRead, Holds;
      if cacheEnabled {
        ret := cache.Read(paddr, len);
      } else {
        ret := cache.ReadUncached(paddr, len);
      }
    }

    method PaddrWrite(paddr: nat, len: nat, data: nat)
      requires Valid() && 1 <= len <= 4 && paddr + len <= MEM_SIZE
      modifies cache.hwMem, cache.lines
      ensures Valid() && Mem() == HwWrite(old(Mem()), paddr, len, data)
      ensures SameTags(old(cache.lines[..]), cache.lines[..])
    {
      hide Unique, HwWrite;
      if cacheEnabled {
        cache.Write(paddr, len, data);
      } else {
        cache.WriteUncached(paddr, len, data);
      }
    }

    /** page_translate reads the tables from hw_mem directly: a write-through cache never holds
        anything newer.  An address outside hw_mem is a fault too. */
    method Translate(laddr: nat) returns (paddr: Outcome<nat>)
      requires Valid() && mode.paging
      ensures paddr == Physical(Mem(), mode, laddr)
    {
      hide HwRead, LineCoherent, Unique;
      var addrPageDir := mode.pdbr * PAGE + laddr / 0x40_0000 * 4;
      if addrPageDir + 4 > MEM_SIZE { return Fault; }
      var pde := cache.ReadUncached(addrPageDir, 4);
      if pde % 2 != 1 { return Fault; }
      var addrPage := pde / PAGE * PAGE + laddr / PAGE % 1024 * 4;
      if addrPage + 4 > MEM_SIZE { return Fault; }
      var pte := cache.ReadUncached(addrPage, 4);
      if pte % 2 != 1 { return Fault; }
      var p := pte / PAGE * PAGE + laddr % PAGE;
      return if p < MEM_SIZE then Done(p) else Fault;
    }

    method LaddrRead(laddr: nat, len: nat) returns (r: Outcome<nat>)
      requires Valid() && laddr < WORD && len in {1, 2, 4}
      modifies cache, cache.lines
      ensures Valid() && Mem() == old(Mem())
      ensures r == LinearRead(Mem(), mode, laddr, len)
    {
      hide Physical, LinearRead, LinearWrite, HwRead, HwWrite, LineCoherent, Unique;
      if !mode.paging {
        Unpaged(Mem(), mode, laddr, len, 0);
        if laddr + len > MEM_SIZE { return Fault; }
        var data := PaddrRead(laddr, len);
        return Done(data);
      }
      var p1, p2 := laddr / PAGE, (laddr + len - 1) % WORD / PAGE;
      if p1 != p2 {
        var ex := (laddr + len) % WORD - p2 * PAGE;
        CrossingPoint(laddr, len);
        TwoPages(Mem(), mode, laddr, len - ex, ex, 0);
        var paddr1 := Translate(laddr);
        if paddr1.Fault? { return Fault; }
        var paddr2 := Translate(p2 * PAGE);
        if paddr2.Fault? { return Fault; }
        var data1 := PaddrRead(paddr1.value, len - ex);
        var data2 := PaddrRead(paddr2.value, ex);
        r := Done((ShiftLeft32(data2, len - ex) + data1) % WORD);
      } else {
        SamePage(laddr, len);
        OnePage(Mem(), mode, laddr, len, 0);
        var paddr := Translate(laddr);
        if paddr.Fault? { return Fault; }
        var data := PaddrRead(paddr.value, len);
        r := Done(data);
      }
    }

    method LaddrWrite(laddr: nat, len: nat, data: nat) returns (done: bool)
      requires Valid() && laddr < WORD && len in {1, 2, 4}
      modifies cache.hwMem, cache.lines
      ensures Valid()
      ensures match LinearWrite(old(Mem()), mode, laddr, len, data)
              case Done(mem) => done && Mem() == mem
              case Fault => !done && Mem() == old(Mem())
    {
      hide Physical, LinearRead, LinearWrite, HwRead, HwWrite, LineCoherent, Unique;
      if !mode.paging {
        Unpaged(Mem(), mode, laddr, len, data);
        if laddr + len > MEM_SIZE { return false; }
        PaddrWrite(laddr, len, data);
        return true;
      }
      var p1, p2 := laddr / PAGE, (laddr + len - 1) % WORD / PAGE;
      if p1 != p2 {
        var ex := (laddr + len) % WORD - p2 * PAGE;
        CrossingPoint(laddr, len);
        TwoPages(Mem(), mode, laddr, len - ex, ex, data);
        var paddr1 := Translate(laddr);
        if paddr1.Fault? { return false; }
        var paddr2 := Translate(p2 * PAGE);
        if paddr2.Fault? { return false; }
        var data2 := ShiftRightBytes(data, len - ex);
        var data1 := ShiftRightBytes(ShiftLeft32(data, ex), ex);
        PaddrWrite(paddr1.value, len - ex, data1);
        PaddrWrite(paddr2.value, ex, data2);
      } else {
        SamePage(laddr, len);
        OnePage(Mem(), mode, laddr, len, data);
        var paddr := Translate(laddr);
        if paddr.Fault? { return false; }
        PaddrWrite(paddr.value, len, data);
      }
      done := true;
    }
  }

  //// Writing, then reading back

  /** Distinct addresses keep what is scattered to them, and nothing else changes. */
  lemma {:induction false} GatherScatter(mem: seq<Byte>, addrs: seq<nat>, bytes: seq<Byte>)
    requires |addrs| == |bytes| && forall i :: 0 <= i < |addrs| ==> addrs[i] < |mem|
    requires forall i, j :: 0 <= i < j < |addrs| ==> addrs[i] != addrs[j]
    ensures Gather(Scatter(mem, addrs, bytes), addrs) == bytes
    ensures forall a :: 0 <= a < |mem| && a !in addrs ==> Scatter(mem, addrs, bytes)[a] == mem[a]
    decreases |addrs|
  {
    if addrs != [] {
      var m := mem[addrs[0] := bytes[0]];
      GatherScatter(m, addrs[1..], bytes[1..]);
      var r := Scatter(m, addrs[1..], bytes[1..]);
      assert addrs == [addrs[0]] + addrs[1..];
      assert addrs[0] !in addrs[1..];
      forall i | 0 <= i < |addrs|
        ensures r[addrs[i]] == bytes[i]
      {
        if i > 0 {
          assert Gather(r, addrs[1..])[i - 1] == bytes[1..][i - 1];
        }
      }
    }
  }

  /** Each address keeps its page offset, so four consecutive ones never collide, even when both
      pages map to the same frame. */
  lemma {:induction false} AddressOffsets(mem: seq<Byte>, mode: Mode, laddr: nat, len: nat, i: nat)
    requires |mem| == MEM_SIZE && laddr < WORD && i < len
    requires Addresses(mem, mode, laddr, len).Done?
    ensures Addresses(mem, mode, laddr, len).value[i] % PAGE == (laddr + i) % PAGE
    decreases len
  {
    OffsetKept(mem, mode, laddr);
    hide Physical;
    if i > 0 {
      AddressOffsets(mem, mode, (laddr + 1) % WORD, len - 1, i - 1);
      OffsetWraps(laddr, i);
    }
  }

  lemma OffsetWraps(l: nat, i: nat)
    requires i > 0
    ensures ((l + 1) % WORD + (i - 1)) % PAGE == (l + i) % PAGE
  {
    var q := (l + 1) / WORD;
    assert (l + 1) % WORD + (i - 1) == l + i - q * WORD;
    assert q * WORD == PAGE * (q * 0x10_0000);
  }

  lemma AddressesDistinct(mem: seq<Byte>, mode: Mode, laddr: nat, len: nat)
    requires |mem| == MEM_SIZE && laddr < WORD && len <= 4
    requires Addresses(mem, mode, laddr, len).Done?
    ensures var addrs := Addresses(mem, mode, laddr, len).value;
      forall i, j :: 0 <= i < j < |addrs| ==> addrs[i] != addrs[j]
  {
    hide Addresses;
    var addrs := Addresses(mem, mode, laddr, len).value;
    forall i, j | 0 <= i < j < |addrs|
      ensures addrs[i] != addrs[j]
    {
      AddressOffsets(mem, mode, laddr, len, i);
      AddressOffsets(mem, mode, laddr, len, j);
      assert (laddr + i) % PAGE != (laddr + j) % PAGE;
    }
  }

  /** With the translation fixed before the write, the low bytes come back and every other byte of
      memory is untouched. */
  lemma WriteThenGather(mem: seq<Byte>, mode: Mode, laddr: nat, len: nat, data: nat)
    requires |mem| == MEM_SIZE && laddr < WORD && len <= 4
    requires Addresses(mem, mode, laddr, len).Done?
    ensures var addrs := Addresses(mem, mode, laddr, len).value;
      var after := LinearWrite(mem, mode, laddr, len, data).value;
      && LittleEndian(Gather(after, addrs)) == data % Pow256(len)
      && forall a :: 0 <= a < MEM_SIZE && a !in addrs ==> after[a] == mem[a]
  {
    hide Addresses, Physical, Scatter, BytesOf, LittleEndian;
    AddressesDistinct(mem, mode, laddr, len);
    GatherScatter(mem, Addresses(mem, mode, laddr, len).value, BytesOf(data, len));
    LittleEndianBytesOf(data, len);
  }

  /** The bytes of memory the walk for `laddr` consults. */
  predicate Consults(mem: seq<Byte>, mode: Mode, laddr: nat, a: nat)
    requires |mem| == MEM_SIZE
  {
    && mode.paging
    && PdeAddress(mode, laddr) + 4 <= MEM_SIZE
    && (|| PdeAddress(mode, laddr) <= a < PdeAddress(mode, laddr) + 4
        || var t := PteAddress(HwRead(mem, PdeAddress(mode, laddr), 4), laddr); t <= a < t + 4)
  }

  lemma TranslationStable(mem: seq<Byte>, after: seq<Byte>, mode: Mode, laddr: nat)
    requires |mem| == |after| == MEM_SIZE
    requires forall a :: 0 <= a < MEM_SIZE && Consults(mem, mode, laddr, a) ==> after[a] == mem[a]
    ensures Physical(after, mode, laddr) == Physical(mem, mode, laddr)
  {
    hide LittleEndian;
    if mode.paging && PdeAddress(mode, laddr) + 4 <= MEM_SIZE {
      var d := PdeAddress(mode, laddr);
      assert mem[d..d + 4] == after[d..d + 4];
      var t := PteAddress(HwRead(mem, d, 4), laddr);
      if t + 4 <= MEM_SIZE {
        assert mem[t..t + 4] == after[t..t + 4];
      }
    }
  }

  /** The bytes consulted to translate `len` consecutive addresses. */
  predicate ConsultsAny(mem: seq<Byte>, mode: Mode, laddr: nat, len: nat, a: nat)
    requires |mem| == MEM_SIZE
    decreases len
  {
    len > 0 && (Consults(mem, mode, laddr, a) || ConsultsAny(mem, mode, (laddr + 1) % WORD, len - 1, a))
  }

  lemma {:induction false} AddressesStable(mem: seq<Byte>, after: seq<Byte>, mode: Mode, laddr: nat, len: nat)
    requires |mem| == |after| == MEM_SIZE
    requires forall a :: 0 <= a < MEM_SIZE && ConsultsAny(mem, mode, laddr, len, a) ==> after[a] == mem[a]
    ensures Addresses(after, mode, laddr, len) == Addresses(mem, mode, laddr, len)
    decreases len
  {
    hide Consults, Physical;
    if len > 0 {
      TranslationStable(mem, after, mode, laddr);
      AddressesStable(mem, after, mode, (laddr + 1) % WORD, len - 1);
    }
  }

  /** With the walk repeated after the write: the data comes back if and only if every byte of the
      access is then translated, to a byte like the one that was written. */
  lemma ReadBackIff(mem: seq<Byte>, mode: Mode, laddr: nat, len: nat, data: nat)
    requires |mem| == MEM_SIZE && laddr < WORD && len <= 4
    requires Addresses(mem, mode, laddr, len).Done?
    ensures var w := LinearWrite(mem, mode, laddr, len, data);
      && w.Done?
      && var here, there := Addresses(mem, mode, laddr, len).value, Addresses(w.value, mode, laddr, len);
         LinearRead(w.value, mode, laddr, len) == Done(data % Pow256(len))
         <==> there.Done? && Gather(w.value, there.value) == Gather(w.value, here)
  {
    hide Addresses, Scatter, LittleEndian;
    WriteThenGather(mem, mode, laddr, len, data);
    var after := LinearWrite(mem, mode, laddr, len, data).value;
    var here, there := Addresses(mem, mode, laddr, len).value, Addresses(after, mode, laddr, len);
    if there.Done? {
      BytesOfLittleEndian(Gather(after, here));
      BytesOfLittleEndian(Gather(after, there.value));
    }
  }

  /** laddr_write followed by laddr_read returns the low bytes of the data, as long as the access
      does not overwrite the page-table entries that translate it. */
  lemma WriteThenRead(mem: seq<Byte>, mode: Mode, laddr: nat, len: nat, data: nat)
    requires |mem| == MEM_SIZE && laddr < WORD && len <= 4
    requires Addresses(mem, mode, laddr, len).Done?
    requires forall a :: a in Addresses(mem, mode, laddr, len).value ==> !ConsultsAny(mem, mode, laddr, len, a)
    ensures var w := LinearWrite(mem, mode, laddr, len, data);
      w.Done? && LinearRead(w.value, mode, laddr, len) == Done(data % Pow256(len))
  {
    hide Addresses, ConsultsAny, LittleEndian;
    WriteThenGather(mem, mode, laddr, len, data);
    var after := LinearWrite(mem, mode, laddr, len, data).value;
    AddressesStable(mem, after, mode, laddr, len);
  }

  /** Without that condition it can fail: a page that holds its own directory and table entry
      unmaps itself when it is cleared. */
  lemma WriteCanUnmapItself(mem: seq<Byte>)
    requires |mem| == MEM_SIZE && mem[..4] == [1, 0, 0, 0]
    ensures var mode := Mode(true, 0); var w := LinearWrite(mem, mode, 0, 4, 0);
      w.Done? && LinearRead(mem, mode, 0, 4) == Done(1) && LinearRead(w.value, mode, 0, 4) == Fault
  {
    var mode := Mode(true, 0);
    assert BytesOf(1, 4) == [1, 0, 0, 0];
    assert mem[0..4] == BytesOf(1, 4);
    LittleEndianBytesOf(1, 4);
    assert Pow256(4) == WORD;
    assert HwRead(mem, 0, 4) == 1;
    assert Physical(mem, mode, 0) == Done(0);
    OnePage(mem, mode, 0, 4, 0);
    ReadBack(mem, 0, 4, 0);
    var after := HwWrite(mem, 0, 4, 0);
    assert Physical(after, mode, 0) == Fault;
    OnePage(after, mode, 0, 4, 0);
  }
}
