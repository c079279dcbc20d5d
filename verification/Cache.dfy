/** The first-level data cache of nemu/src/memory/cache.c: 128 sets of 8 lines of 64 bytes,
    write-through without write-allocate, random replacement, in front of hw_mem. */
module Cache {
  import opened Bytes

  const MEM_SIZE: nat := 0x800_0000     // 128 MB
  const LINES: nat := 1024
  const LINE_SIZE: nat := 64

  /** An invalid line is listed as free once; a tag is the block number without the set bits. */
  datatype CacheLine = CacheLine(valid: bool, tag: int, data: seq<Byte>)

  /** Every valid line is an exact copy of the block its tag and set denote. */
  ghost predicate Coherent(lines: seq<CacheLine>, mem: seq<Byte>) {
    && |lines| == LINES && |mem| == MEM_SIZE
    && forall i :: 0 <= i < LINES ==> LineCoherent(lines[i], i, mem)
  }

  ghost predicate LineCoherent(line: CacheLine, i: nat, mem: seq<Byte>)
    requires |mem| == MEM_SIZE
  {
    && |line.data| == LINE_SIZE
    && (line.valid ==>
          var hi := line.tag * 128 + i / 8;
          0 <= line.tag && hi * 64 + 64 <= MEM_SIZE && line.data == mem[hi * 64..hi * 64 + 64])
  }

  /** No set has two valid lines with the same tag. */
  ghost predicate Unique(lines: seq<CacheLine>) {
    forall i, j :: 0 <= i < j < |lines| && i / 8 == j / 8 && lines[i].valid && lines[j].valid ==>
      lines[i].tag != lines[j].tag
  }

  /** A write to block `hi` leaves every line that does not hold that block coherent. */
  lemma OtherBlocksKeep(line: CacheLine, i: nat, mem: seq<Byte>, hi: nat, b: nat, len: nat, data: nat)
    requires |mem| == MEM_SIZE && hi * 64 + 64 <= MEM_SIZE && b + len <= 64
    requires LineCoherent(line, i, mem)
    requires !(line.valid && line.tag == hi / 128 && i / 8 == hi % 128)
    requires i < LINES
    ensures LineCoherent(line, i, HwWrite(mem, hi * 64 + b, len, data))
  {
    if line.valid {
      var h := line.tag * 128 + i / 8;
      assert h != hi;
      ReadElsewhere(mem, hi * 64 + b, len, data, h * 64, 64);
    }
  }

  /** The line that does hold it is repaired by the same bytes at the same offset. */
  lemma SameBlockRepaired(line: CacheLine, i: nat, mem: seq<Byte>, hi: nat, b: nat, len: nat, data: nat)
    requires |mem| == MEM_SIZE && hi * 64 + 64 <= MEM_SIZE && b + len <= 64
    requires LineCoherent(line, i, mem)
    requires line.valid && line.tag == hi / 128 && i / 8 == hi % 128
    ensures LineCoherent(line.(data := HwWrite(line.data, b, len, data)), i, HwWrite(mem, hi * 64 + b, len, data))
  {
    assert HwWrite(mem, hi * 64 + b, len, data)[hi * 64..hi * 64 + 64] == HwWrite(line.data, b, len, data);
  }

  lemma StoreNone(mem: seq<Byte>, addr: nat, data: nat)
    requires addr <= |mem|
    ensures HwWrite(mem, addr, 0, data) == mem && ShiftRightBytes(data, 0) == data
  {
  }

  /** One byte more of a write. */
  lemma StoreOne(mem: seq<Byte>, addr: nat, k: nat, data: nat)
    requires addr + k < |mem|
    ensures var d := ShiftRightBytes(data, k);
      && HwWrite(mem, addr, k + 1, data) == HwWrite(mem, addr, k, data)[addr + k := d % 256]
      && ShiftRightBytes(data, k + 1) == d / 256
  {
    var d := ShiftRightBytes(data, k);
    WriteSplit(mem, addr, k, 1, data);
    assert BytesOf(d, 1) == [d % 256];
    ShiftOneMore(data, k);
  }

  //// Runs of the flat memory

  datatype Access = Load(addr: nat, len: nat) | Save(addr: nat, len: nat, data: nat) {
    predicate InRange() { 1 <= len <= 4 && addr + len <= MEM_SIZE }
  }

  /** hw_mem_read and hw_mem_write, one access after the other. */
  function FlatRun(mem: seq<Byte>, ops: seq<Access>): (r: (seq<Byte>, seq<nat>))
    requires |mem| == MEM_SIZE && forall i :: 0 <= i < |ops| ==> ops[i].InRange()
    ensures |r.0| == MEM_SIZE
  {
    if ops == [] then (mem, []) else
      var (m, outs) := FlatRun(mem, ops[..|ops| - 1]);
      assert ops[|ops| - 1].InRange();
      match ops[|ops| - 1]
      case Load(addr, len) => (m, outs + [HwRead(m, addr, len)])
      case Save(addr, len, data) => (HwWrite(m, addr, len, data), outs)
  }

  /** A hit returns the bytes memory has. */
  lemma LineHolds(line: CacheLine, i: nat, mem: seq<Byte>, hi: nat, b: nat, len: nat)
    requires |mem| == MEM_SIZE && LineCoherent(line, i, mem) && b + len <= 64 && hi * 64 + 64 <= MEM_SIZE
    requires line.valid && line.tag == hi / 128 && i / 8 == hi % 128
    ensures HwRead(line.data, b, len) == HwRead(mem, hi * 64 + b, len)
  {
    BlockOf(line, i, mem, hi);
    hide *;
    SliceOfSlice(mem, hi * 64, 64, b, len);
    SameBytes(line.data, b, mem, hi * 64 + b, len);
  }

  lemma BlockOf(line: CacheLine, i: nat, mem: seq<Byte>, hi: nat)
    requires |mem| == MEM_SIZE && LineCoherent(line, i, mem) && hi * 64 + 64 <= MEM_SIZE
    requires line.valid && line.tag == hi / 128 && i / 8 == hi % 128
    ensures |line.data| == 64 && |mem| == 0x800_0000 && line.data == mem[hi * 64..hi * 64 + 64]
  {
    assert line.tag * 128 + i / 8 == hi;
  }

  lemma WholeLine(line: CacheLine, i: nat, mem: seq<Byte>)
    requires |mem| == MEM_SIZE && LineCoherent(line, i, mem)
    ensures |line.data| == 64
  {
  }

  lemma SliceOfSlice(s: seq<Byte>, p: nat, n: nat, b: nat, len: nat)
    requires p + n <= |s| && b + len <= n
    ensures s[p..p + n][b..b + len] == s[p + b..p + b + len]
  {
    var x, y := s[p..p + n][b..b + len], s[p + b..p + b + len];
    assert forall k :: 0 <= k < len ==> x[k] == s[p..p + n][b + k] == y[k];
  }

  lemma SameBytes(s: seq<Byte>, p: nat, t: seq<Byte>, q: nat, len: nat)
    requires p + len <= |s| && q + len <= |t| && s[p..p + len] == t[q..q + len]
    ensures HwRead(s, p, len) == HwRead(t, q, len)
  {
  }

  /** Filling any line of the set, once no line of it holds the block, keeps the invariant. */
  lemma FillKeeps(lines: seq<CacheLine>, mem: seq<Byte>, idx: nat, hi: nat)
    requires Coherent(lines, mem) && Unique(lines) && hi * 64 + 64 <= MEM_SIZE
    requires idx < LINES && idx / 8 == hi % 128
    requires forall k :: hi % 128 * 8 <= k < hi % 128 * 8 + 8 ==> !(lines[k].valid && lines[k].tag == hi / 128)
    ensures var l := lines[idx := CacheLine(true, hi / 128, mem[hi * 64..hi * 64 + 64])];
      Coherent(l, mem) && Unique(l)
  {
    var l := lines[idx := CacheLine(true, hi / 128, mem[hi * 64..hi * 64 + 64])];
    forall i | 0 <= i < LINES
      ensures LineCoherent(l[i], i, mem)
    {
      assert LineCoherent(lines[i], i, mem);
    }
  }

  /** A write to a block no line of its set holds. */
  lemma WriteMissKeeps(lines: seq<CacheLine>, mem: seq<Byte>, hi: nat, b: nat, len: nat, data: nat)
    requires Coherent(lines, mem) && hi * 64 + 64 <= MEM_SIZE && b + len <= 64
    requires forall k :: hi % 128 * 8 <= k < hi % 128 * 8 + 8 ==> !(lines[k].valid && lines[k].tag == hi / 128)
    ensures Coherent(lines, HwWrite(mem, hi * 64 + b, len, data))
  {
    forall i | 0 <= i < LINES
      ensures LineCoherent(lines[i], i, HwWrite(mem, hi * 64 + b, len, data))
    {
      assert LineCoherent(lines[i], i, mem);
      OtherBlocksKeep(lines[i], i, mem, hi, b, len, data);
    }
  }

  /** A write to a block that line `idx` holds, and therefore no other line does. */
  lemma WriteKeeps(lines: seq<CacheLine>, mem: seq<Byte>, hi: nat, b: nat, len: nat, data: nat, idx: nat)
    requires Coherent(lines, mem) && Unique(lines) && hi * 64 + 64 <= MEM_SIZE && b + len <= 64
    requires idx < LINES && idx / 8 == hi % 128 && lines[idx].valid && lines[idx].tag == hi / 128
    ensures |lines[idx].data| == 64
    ensures var l := lines[idx := lines[idx].(data := HwWrite(lines[idx].data, b, len, data))];
      Coherent(l, HwWrite(mem, hi * 64 + b, len, data)) && Unique(l)
  {
    assert LineCoherent(lines[idx], idx, mem);
    var l := lines[idx := lines[idx].(data := HwWrite(lines[idx].data, b, len, data))];
    forall i | 0 <= i < LINES
      ensures LineCoherent(l[i], i, HwWrite(mem, hi * 64 + b, len, data))
    {
      assert LineCoherent(lines[i], i, mem);
      if i == idx {
        SameBlockRepaired(lines[idx], idx, mem, hi, b, len, data);
      } else {
        OtherBlocksKeep(lines[i], i, mem, hi, b, len, data);
      }
    }
  }

  //// What is in the cache

  /** Some valid line of its set holds block `hi`. */
  predicate Holds(lines: seq<CacheLine>, hi: nat)
    requires |lines| == LINES
  {
    exists k :: hi % 128 * 8 <= k < hi % 128 * 8 + 8 && lines[k].valid && lines[k].tag == hi / 128
  }

  function Bit(b: bool): nat { if b then 1 else 0 }

  /** `after` is `before` with block `hi` filled into line `idx` of its set, a valid one only if all
      of the set were valid. */
  predicate Filled(before: seq<CacheLine>, after: seq<CacheLine>, mem: seq<Byte>, hi: nat, idx: nat)
    requires |before| == LINES && hi * 64 + 64 <= |mem|
  {
    && hi % 128 * 8 <= idx < hi % 128 * 8 + 8
    && after == before[idx := CacheLine(true, hi / 128, mem[hi * 64..hi * 64 + 64])]
    && (before[idx].valid ==> forall k :: hi % 128 * 8 <= k < hi % 128 * 8 + 8 ==> before[k].valid)
  }

  /** Filling a block of another set does not change what is held. */
  lemma FilledElsewhere(before: seq<CacheLine>, after: seq<CacheLine>, mem: seq<Byte>, hi: nat, idx: nat, other: nat)
    requires |before| == LINES && hi * 64 + 64 <= |mem| && Filled(before, after, mem, hi, idx)
    requires other % 128 != hi % 128
    ensures |after| == LINES && (Holds(after, other) <==> Holds(before, other))
  {
    assert forall k :: other % 128 * 8 <= k < other % 128 * 8 + 8 ==> after[k] == before[k];
  }

  lemma FilledHolds(before: seq<CacheLine>, after: seq<CacheLine>, mem: seq<Byte>, hi: nat, idx: nat)
    requires |before| == LINES && hi * 64 + 64 <= |mem| && Filled(before, after, mem, hi, idx)
    ensures |after| == LINES && Holds(after, hi)
  {
    assert after[idx].valid && after[idx].tag == hi / 128;
  }

  /** A block access leaves the other sets alone. */
  lemma ElsewhereKept(before: seq<CacheLine>, after: seq<CacheLine>, mem: seq<Byte>, hi: nat, other: nat)
    requires |before| == LINES && hi * 64 + 64 <= |mem| && other % 128 != hi % 128
    requires after == before || exists idx :: Filled(before, after, mem, hi, idx)
    ensures |after| == LINES && (Holds(after, other) <==> Holds(before, other))
    ensures forall k :: 0 <= k < LINES && k / 8 != hi % 128 ==> after[k] == before[k]
  {
    if after != before {
      var idx :| Filled(before, after, mem, hi, idx);
      FilledElsewhere(before, after, mem, hi, idx, other);
    }
  }

  /** A write changes no tag and makes no line valid or invalid. */
  predicate SameTags(before: seq<CacheLine>, after: seq<CacheLine>) {
    && |after| == |before|
    && forall k :: 0 <= k < |before| ==> after[k].valid == before[k].valid && after[k].tag == before[k].tag
  }

  class CachedMemory {
    const hwMem: array<Byte>
    const lines: array<CacheLine>
    var hit: nat
    var all: nat

    ghost predicate Valid()
      reads this, hwMem, lines
    {
      && Coherent(lines[..], hwMem[..])
      && Unique(lines[..])
      && hit <= all
    }

    /** The contents of hw_mem. */
    ghost function Mem(): seq<Byte>
      reads hwMem
    {
      hwMem[..]
    }

    /** init_mem and init_cache: zero memory, no valid line, counters at zero. */
    constructor ()
      ensures Valid() && fresh(hwMem) && fresh(lines)
      ensures hit == all == 0 && forall i :: 0 <= i < LINES ==> !lines[i].valid
      ensures forall a :: 0 <= a < MEM_SIZE ==> Mem()[a] == 0
    {
      hwMem := new Byte[MEM_SIZE](_ => 0);
      lines := new CacheLine[LINES](_ => CacheLine(false, 0, seq(64, _ => 0)));
      hit, all := 0, 0;
    }

    /** memcpy of the low bytes of `data` into hw_mem. */
    method Store(addr: nat, len: nat, data: nat)
      requires addr + len <= hwMem.Length
      modifies hwMem
      ensures Mem() == HwWrite(old(Mem()), addr, len, data)
    {
      hide HwWrite, ShiftRightBytes;
      var d := data;
      StoreNone(hwMem[..], addr, data);
      for k := 0 to len
        invariant hwMem[..] == HwWrite(old(hwMem[..]), addr, k, data)
        invariant d == ShiftRightBytes(data, k)
      {
        StoreOne(old(hwMem[..]), addr, k, data);
        hwMem[addr + k] := d % 256;
        d := d / 256;
      }
    }

    /** hw_mem_read and hw_mem_write called past a cache that is compiled out. */
    method ReadUncached(paddr: nat, len: nat) returns (data: nat)
      requires paddr + len <= hwMem.Length
      ensures data == HwRead(Mem(), paddr, len)
    {
      data := LittleEndian(hwMem[paddr..paddr + len]);
      assert hwMem[paddr..paddr + len] == Mem()[paddr..paddr + len];
    }

    method WriteUncached(paddr: nat, len: nat, data: nat)
      requires Valid() && paddr + len <= MEM_SIZE
      requires forall i :: 0 <= i < LINES ==> !lines[i].valid
      modifies hwMem
      ensures Valid() && Mem() == HwWrite(old(Mem()), paddr, len, data)
    {
      assert forall i :: 0 <= i < LINES ==> LineCoherent(lines[i], i, hwMem[..]);
      Store(paddr, len, data);
    }

    /** Reads `len` bytes at offset `b` of block `hi`, filling a line when none holds it. */
    method BlockRead(hi: nat, b: nat, len: nat) returns (data: nat)
      requires Valid() && hi * 64 + 64 <= MEM_SIZE && b + len <= 64
      requires hit < all
      modifies `hit, lines
      ensures Valid() && data == HwRead(Mem(), hi * 64 + b, len)
      ensures hit == old(hit) + Bit(Holds(old(lines[..]), hi))
      ensures Holds(old(lines[..]), hi) ==> lines[..] == old(lines[..])
      ensures !Holds(old(lines[..]), hi) ==> exists idx :: Filled(old(lines[..]), lines[..], Mem(), hi, idx)
      ensures Holds(lines[..], hi)
    {
      hide LineCoherent, Unique, HwRead;
      ghost var before := lines[..];
      var groupNum, tag := hi % 128, hi / 128;
      var ok: seq<int> := [];
      for i := groupNum * 8 to (groupNum + 1) * 8
        invariant forall k :: groupNum * 8 <= k < i ==> !(lines[k].valid && lines[k].tag == tag)
        invariant forall k :: 0 <= k < |ok| ==> groupNum * 8 <= ok[k] < i && !lines[ok[k]].valid
        invariant |ok| == 0 ==> forall k :: groupNum * 8 <= k < i ==> lines[k].valid
      {
        if !lines[i].valid {
          ok := ok + [i];
        }
        if lines[i].tag == tag && lines[i].valid {
          WholeLine(lines[..][i], i, hwMem[..]);
          data := HwRead(lines[i].data, b, len);
          hit := hit + 1;
          assert Holds(before, hi);
          LineHolds(lines[..][i], i, hwMem[..], hi, b, len);
          return;
        }
      }
      var rand: nat := *;
      var idx := if |ok| > 0 then ok[rand % |ok|] else rand % 8 + groupNum * 8;
      FillKeeps(lines[..], hwMem[..], idx, hi);
      lines[idx] := CacheLine(true, tag, hwMem[hi * 64..hi * 64 + 64]);
      assert LineCoherent(lines[..][idx], idx, hwMem[..]);
      data := HwRead(lines[idx].data, b, len);
      LineHolds(lines[..][idx], idx, hwMem[..], hi, b, len);
      assert Filled(before, lines[..], Mem(), hi, idx);
      FilledHolds(before, lines[..], Mem(), hi, idx);
    }

    /** cache_read: one block access, or two for an access that straddles a line. */
    method Read(paddr: nat, len: nat) returns (data: nat)
      requires Valid() && 1 <= len <= 4 && paddr + len <= MEM_SIZE
      modifies this, lines
      ensures Valid() && data == HwRead(Mem(), paddr, len)
      ensures var s, t, before := paddr / 64, (paddr + len - 1) / 64, old(lines[..]);
        && hit == old(hit) + Bit(Holds(before, s)) + (if s == t then 0 else Bit(Holds(before, t)))
        && (Holds(before, s) && Holds(before, t) ==> lines[..] == before)
        && Holds(lines[..], s) && Holds(lines[..], t)
        && forall k :: 0 <= k < LINES && k / 8 != s % 128 && k / 8 != t % 128 ==> lines[k] == before[k]
      ensures all == old(all) + (if paddr / 64 == (paddr + len - 1) / 64 then 1 else 2)
    {
      hide LineCoherent, Unique, HwRead, HwWrite, ShiftLeft32, ShiftRightBytes, Holds;
      var s, t := paddr / 64, (paddr + len - 1) / 64;
      if s == t {
        all := all + 1;
        var b := paddr - s * 64;
        data := BlockRead(s, b, len);
      } else {
        all := all + 2;
        var b, e := paddr - s * 64, paddr + len - 1 - t * 64;
        assert t == s + 1 && t % 128 != s % 128;
        ghost var before := lines[..];
        var data1 := BlockRead(s, b, 64 - b);
        ghost var middle := lines[..];
        ElsewhereKept(before, middle, Mem(), s, t);
        var data2 := BlockRead(t, 0, e + 1);
        ElsewhereKept(middle, lines[..], Mem(), t, s);
        JoinParts(Mem(), paddr, 64 - b, e + 1);
        data := (ShiftLeft32(data2, 64 - b) + data1) % WORD;
      }
    }

    /** Two reads of one block in a row: the second one is a hit. */
    method ReadTwice(paddr1: nat, len1: nat, paddr2: nat, len2: nat) returns (data1: nat, data2: nat)
      requires Valid() && 1 <= len1 <= 4 && 1 <= len2 <= 4
      requires paddr1 + len1 <= MEM_SIZE && paddr2 + len2 <= MEM_SIZE
      requires paddr1 / 64 == (paddr1 + len1 - 1) / 64 == paddr2 / 64 == (paddr2 + len2 - 1) / 64
      modifies this, lines
      ensures Valid() && data1 == HwRead(Mem(), paddr1, len1) && data2 == HwRead(Mem(), paddr2, len2)
      ensures hit == old(hit) + Bit(Holds(old(lines[..]), paddr1 / 64)) + 1
    {
      hide LineCoherent, Unique, HwRead, Holds;
      data1 := Read(paddr1, len1);
      ghost var between := lines[..];
      data2 := Read(paddr2, len2);
      assert lines[..] == between;
    }

    /** Writes through to hw_mem, and updates the one line that holds the block, if any: uniqueness
        is what makes stopping at the first match right. */
    method BlockWrite(hi: nat, b: nat, len: nat, data: nat)
      requires Valid() && hi * 64 + 64 <= MEM_SIZE && b + len <= 64
      modifies hwMem, lines
      ensures Valid() && Mem() == HwWrite(old(Mem()), hi * 64 + b, len, data)
      ensures SameTags(old(lines[..]), lines[..])
    {
      hide LineCoherent, Unique, HwWrite;
      ghost var mem, cache := hwMem[..], lines[..];
      var groupNum, tag := hi % 128, hi / 128;
      Store(hi * 64 + b, len, data);
      for i := groupNum * 8 to (groupNum + 1) * 8
        invariant lines[..] == cache && hwMem[..] == HwWrite(mem, hi * 64 + b, len, data)
        invariant forall k :: groupNum * 8 <= k < i ==> !(lines[k].valid && lines[k].tag == tag)
      {
        if lines[i].valid && lines[i].tag == tag {
          WriteKeeps(cache, mem, hi, b, len, data, i);
          lines[i] := lines[i].(data := HwWrite(lines[i].data, b, len, data));
          return;
        }
      }
      WriteMissKeeps(cache, mem, hi, b, len, data);
    }

    /** cache_write. */
    method Write(paddr: nat, len: nat, data: nat)
      requires Valid() && 1 <= len <= 4 && paddr + len <= MEM_SIZE
      modifies hwMem, lines
      ensures Valid() && Mem() == HwWrite(old(Mem()), paddr, len, data)
      ensures SameTags(old(lines[..]), lines[..])
    {
      hide LineCoherent, Unique, HwRead, HwWrite, ShiftLeft32, ShiftRightBytes;
      var s, t := paddr / 64, (paddr + len - 1) / 64;
      if s == t {
        var b := paddr - s * 64;
        BlockWrite(s, b, len, data);
      } else {
        var b, e := paddr - s * 64, paddr + len - 1 - t * 64;
        MaskedWriteSplit(Mem(), paddr, 64 - b, e + 1, data);
        BlockWrite(s, b, 64 - b, ShiftRightBytes(ShiftLeft32(data, e + 1), e + 1));
        BlockWrite(t, 0, e + 1, ShiftRightBytes(data, 64 - b));
      }
    }

    /** Any run of accesses: the values read and the memory left behind are those of the flat
        memory, whatever rand() returned at each miss. */
    method Run(ops: seq<Access>) returns (outs: seq<nat>)
      requires Valid() && forall i :: 0 <= i < |ops| ==> ops[i].InRange()
      modifies this, hwMem, lines
      ensures Valid() && (Mem(), outs) == FlatRun(old(Mem()), ops)
    {
      outs := [];
      for i := 0 to |ops|
        invariant Valid() && (Mem(), outs) == FlatRun(old(Mem()), ops[..i])
      {
        assert ops[..i + 1][..i] == ops[..i];
        match ops[i]
        case Load(addr, len) =>
          var v := Read(addr, len);
          outs := outs + [v];
        case Save(addr, len, data) =>
          Write(addr, len, data);
      }
      assert ops[..|ops|] == ops;
    }
  }
}
