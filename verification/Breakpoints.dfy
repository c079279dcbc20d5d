/** The operations of nemu/src/monitor/breakpoint.c on its static pool and the guest's code. */
module Breakpoints {
  import opened BreakpointList
  import opened Bytes
  import opened CodeSites
  import opened Common
  import opened PoolLists

  class BreakpointPool {
    const bpList: array<Node>
    const code: array<Byte>       // the guest's bytes, by virtual address
    var head: int
    var free: int
    ghost var used: seq<nat>      // the nodes from head, in list order
    ghost var avail: seq<nat>     // the nodes from free

    ghost predicate Valid()
      reads this, bpList
    {
      && Partition(bpList[..], head, free, used, avail)
      && AddressesIn(bpList[..], code.Length)
    }

    /** init_bp_list. */
    constructor (codeSize: nat)
      ensures Valid() && fresh(bpList) && fresh(code) && code.Length == codeSize
      ensures used == [] && avail == seq(NR_BP, i => i)
    {
      bpList := new Node[NR_BP](i => Node(i, false, false, 0, CodeAt(0), if i + 1 < NR_BP then i + 1 else NIL));
      code := new Byte[codeSize](_ => 0);
      head, free := NIL, 0;
      used, avail := [], seq(NR_BP, i => i);
      new;
      InitialLists(bpList[..]);
    }

    /** set_breakpoint, with new_BP inlined; None is the failed assert on an empty free list. */
    method SetBreakpoint(addr: nat) returns (r: Option<int>)
      requires Valid() && addr < code.Length
      modifies this, bpList, code
      ensures Valid()
      ensures old(avail) == [] ==>
        && r == None && used == old(used) && avail == old(avail)
        && bpList[..] == old(bpList[..]) && code[..] == old(code[..])
      ensures old(avail) != [] ==>
        var n := old(avail)[0];
        && r == Some(n) && used == [n] + old(used) && avail == old(avail)[1..]
        && n < NR_BP && bpList[n] == Node(n, true, true, old(code[addr]), CodeAt(addr), old(head))
        && (forall i :: 0 <= i < NR_BP && i != n ==> bpList[i] == old(bpList[i]))
        && code[..] == old(code[..])[addr := INT3]
        && Sites(bpList[..], used) == [Site(addr, old(code[addr]))] + old(Sites(bpList[..], used))
    {
      hide IsList, Sites;
      ghost var pool := bpList[..];
      if free == NIL {
        NoFree(pool, head, free, used, avail);
        return None;
      }
      NoFree(pool, head, free, used, avail);
      var p := free;
      var node := bpList[p].(inUse := true, use := CodeAt(addr), oriByte := code[addr], enable := true, next := head);
      TakeNode(bpList[..], head, free, used, avail, node);
      free := bpList[p].next;
      code[addr] := INT3;
      bpList[p] := node;
      head := p;
      SitesCons(pool, p, node, used);
      used, avail := [avail[0]] + used, avail[1..];
      r := Some(bpList[p].no);
    }

    /** set_watchpoint, given the value of its expression; -1 when that has none. */
    method SetWatchpoint(e: string, val: Option<nat>) returns (r: Option<int>)
      requires Valid()
      modifies this, bpList
      ensures Valid()
      ensures val.None? ==> r == Some(-1)
      ensures val.None? || old(avail) == [] ==>
        used == old(used) && avail == old(avail) && bpList[..] == old(bpList[..])
      ensures val.Some? && old(avail) == [] ==> r == None
      ensures val.Some? && old(avail) != [] ==>
        var n := old(avail)[0];
        && r == Some(n) && used == [n] + old(used) && avail == old(avail)[1..]
        && n < NR_BP && bpList[n] == Node(n, true, true, old(bpList[n]).oriByte, Watching(e, val.value), old(head))
        && (forall i :: 0 <= i < NR_BP && i != n ==> bpList[i] == old(bpList[i]))
    {
      hide IsList, Sites;
      if val.None? {
        return Some(-1);
      }
      NoFree(bpList[..], head, free, used, avail);
      if free == NIL {
        return None;
      }
      var p := free;
      var node := bpList[p].(inUse := true, use := Watching(e, val.value), enable := true, next := head);
      TakeNode(bpList[..], head, free, used, avail, node);
      free := bpList[p].next;
      bpList[p] := node;
      head := p;
      used, avail := [avail[0]] + used, avail[1..];
      r := Some(bpList[p].no);
    }

    /** delete_breakpoint: exactly the node with that number leaves the list, the others keep their
        order and their data.  The byte in the code is not restored. */
    method DeleteBreakpoint(no: int) returns (found: bool)
      requires Valid()
      modifies this, bpList
      ensures Valid()
      ensures found <==> no in old(used)
      ensures !found ==> used == old(used) && avail == old(avail) && bpList[..] == old(bpList[..])
      ensures found ==>
        exists k :: (
          && 0 <= k < |old(used)| && Removed(old(used), old(avail), k, no, used, avail)
          && Sites(bpList[..], used) == SitesWithout(old(bpList[..]), old(used), k))
      ensures forall i :: 0 <= i < NR_BP ==> SameData(old(bpList[..])[i], bpList[..][i])
    {
      hide Partition, AddressesIn, At, Without, SameData, Unlinked, Removed, Sites, SitesWithout;
      ghost var k: nat;
      var p, prev;
      p, prev, k := Locate(no);
      if p == NIL {
        FirstNode(bpList[..], head, free, used, avail);
        AllSame(bpList[..]);
        return false;
      }
      ghost var pool, oldHead, oldFree := bpList[..], head, free;
      if prev == NIL {
        head := bpList[p].next;
      } else {
        bpList[prev] := bpList[prev].(next := bpList[p].next);
      }
      UnlinkedIs(pool, bpList[..], used, k);
      FreeBp(p);
      ReturnNode(pool, bpList[..], oldHead, oldFree, used, avail, k);
      DataKept(pool, bpList[..], used, k, oldFree);
      AddressesKept(pool, bpList[..], code.Length);
      RemovedHere(used, avail, k);
      SitesAround(pool, used, k);
      SitesOfData(pool, bpList[..], Without(used, k));
      used, avail := Without(used, k), [used[k]] + avail;
      found := true;
    }

    /** Lines 95-98: walking the list with a trailing pointer. */
    method Locate(no: int) returns (p: int, prev: int, ghost k: nat)
      requires Valid()
      ensures p == NIL <==> no !in used
      ensures p != NIL ==> k < |used| && used[k] == p == no && prev == (if k == 0 then NIL else used[k - 1])
      ensures p != NIL ==> 0 <= p < NR_BP == bpList.Length && bpList[p].inUse && -1 <= prev < NR_BP
      ensures p != NIL ==> forall n :: n in used ==> n < NR_BP
    {
      hide At, Partition, AddressesIn;
      FirstNode(bpList[..], head, free, used, avail);
      p, prev, k := head, NIL, 0;
      while p != NIL
        invariant 0 <= k <= |used| && p == At(used, k) && prev == (if k == 0 then NIL else used[k - 1])
        invariant -1 <= prev < NR_BP
        invariant forall i :: 0 <= i < k ==> used[i] != no
        decreases |used| - k
      {
        NodeAt(bpList[..], head, free, used, avail, k, code.Length);
        if bpList[p].no == no {
          UsedNodes(bpList[..], head, free, used, avail);
          return;
        }
        prev := p;
        p := bpList[p].next;
        k := k + 1;
      }
      AtEnd(used, k);
    }

    /** free_BP. */
    method FreeBp(p: int)
      requires 0 <= p < bpList.Length && bpList[p].inUse
      modifies bpList, `free
      ensures free == p && bpList[..] == old(bpList[..])[p := old(bpList[p]).(inUse := false, next := old(free))]
    {
      bpList[p] := bpList[p].(inUse := false);
      bpList[p] := bpList[p].(next := free);
      free := p;
    }

    /** delete_all_breakpoint_recursively: the tail first, so the nodes reach the free list in their
        own order. */
    method DeleteAllRecursively(p: int, ghost rest: seq<nat>)
      requires IsList(bpList[..], p, rest) && forall n :: n in rest ==> bpList[n].inUse
      modifies bpList, `free
      ensures Freed(old(bpList[..]), bpList[..], rest, old(free))
      ensures free == HeadOr(rest, old(free))
      decreases |rest|
    {
      if p == NIL {
        return;
      }
      ghost var pool, free0 := bpList[..], free;
      ListTail(pool, p, rest);
      assert rest[0] in rest && forall n :: n in rest[1..] ==> n in rest;
      if bpList[p].next != NIL {
        DeleteAllRecursively(bpList[p].next, rest[1..]);
      }
      ghost var mid := bpList[..];
      assert mid[p] == pool[p];
      FreeBp(p);
      FreedOneMore(pool, mid, bpList[..], p, rest, free0);
    }

    /** delete_all_breakpoint. */
    method DeleteAll()
      requires Valid()
      modifies this, bpList
      ensures Valid() && used == [] && avail == old(used) + old(avail)
      ensures forall i :: 0 <= i < NR_BP ==> SameData(old(bpList[..])[i], bpList[..][i])
    {
      ghost var pool, head0, free0 := bpList[..], head, free;
      UsedNodes(pool, head, free, used, avail);
      hide Partition, IsList, Freed, SameData;
      DeleteAllRecursively(head, used);
      head := NIL;
      AllFreed(pool, bpList[..], head0, free0, used, avail);
      used, avail := [], used + avail;
    }

    /** find_breakpoint: the first breakpoint of the list at that address. */
    method FindBreakpoint(addr: nat) returns (p: int)
      requires Valid()
      ensures p == NIL ==> forall i :: 0 <= i < |used| ==> !IsSite(bpList[..], used[i], addr)
      ensures p != NIL ==> exists k :: 0 <= k < |used| && used[k] == p && IsFirstSite(bpList[..], used, k, addr)
    {
      hide Partition, At, AddressesIn;
      FirstNode(bpList[..], head, free, used, avail);
      p := head;
      ghost var k := 0;
      while p != NIL
        invariant 0 <= k <= |used| && p == At(used, k)
        invariant forall i :: 0 <= i < k ==> !IsSite(bpList[..], used[i], addr)
        decreases |used| - k
      {
        NodeAt(bpList[..], head, free, used, avail, k, code.Length);
        if bpList[p].use.CodeAt? && bpList[p].use.addr == addr {
          return;
        }
        p := bpList[p].next;
        k := k + 1;
      }
      AtEnd(used, k);
    }

    /** mask_breakpoints: the saved bytes go back, front of the list first. */
    method MaskBreakpoints()
      requires Valid()
      modifies code
      ensures Valid() && code[..] == Mask(old(code[..]), Sites(bpList[..], used))
    {
      hide Partition, AddressesIn, At, Mask, Sites;
      FirstNode(bpList[..], head, free, used, avail);
      var p := head;
      ghost var k := 0;
      while p != NIL
        invariant 0 <= k <= |used| && p == At(used, k)
        invariant Mask(code[..], Sites(bpList[..], used[k..])) == Mask(old(code[..]), Sites(bpList[..], used))
        decreases |used| - k
      {
        NodeAt(bpList[..], head, free, used, avail, k, code.Length);
        MaskStep(code[..], bpList[..], used, k);
        if bpList[p].use.CodeAt? {
          code[bpList[p].use.addr] := bpList[p].oriByte;
        }
        p := bpList[p].next;
        k := k + 1;
      }
      AtEnd(used, k);
      MaskEnd(code[..], bpList[..], used, k);
    }

    /** resume_breakpoints: each byte is saved and replaced by INT3, front of the list first. */
    method ResumeBreakpoints()
      requires Valid()
      modifies code, bpList
      ensures Valid()
      ensures (code[..], Sites(bpList[..], used)) == Resume(old(code[..]), old(Sites(bpList[..], used)))
      ensures forall i :: 0 <= i < NR_BP ==> SameNode(old(bpList[..])[i], bpList[..][i])
    {
      hide Partition, At, ResumeState, SameNodes, AddressesIn, Resume, Sites;
      ghost var pool := bpList[..];
      ghost var goal := Resume(code[..], Sites(pool, used));
      Unwritten(pool);
      FirstNode(pool, head, free, used, avail);
      ResumeStart(code[..], pool, used);
      var p := head;
      ghost var k := 0;
      while p != NIL
        invariant 0 <= k <= |used| && p == At(used, k)
        invariant Valid() && SameNodes(pool, bpList[..])
        invariant ResumeState(code[..], bpList[..], used, k, goal)
        decreases |used| - k
      {
        NodeAt(bpList[..], head, free, used, avail, k, code.Length);
        ghost var mem, before := code[..], bpList[..];
        if bpList[p].use.CodeAt? {
          bpList[p] := bpList[p].(oriByte := code[bpList[p].use.addr]);
          code[bpList[p].use.addr] := INT3;
          bpList[p] := bpList[p].(enable := true);
          OneNodeKeeps(pool, before, bpList[..], head, free, used, avail, p, code.Length);
          ResumeSite(mem, code[..], before, bpList[..], used, k, goal);
        } else {
          ResumeSkip(mem, before, used, k, goal);
        }
        p := bpList[p].next;
        k := k + 1;
      }
      AtEnd(used, k);
      ResumeEnd(code[..], bpList[..], used, k, goal);
      EachSame(pool, bpList[..]);
    }
  }
}
