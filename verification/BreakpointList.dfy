/** The breakpoint pool of nemu/src/monitor/breakpoint.c: 32 static nodes on two singly linked
    lists, the breakpoints in use and the free nodes.  A link is the index of its node. */
module BreakpointList {
  import opened Bytes
  import opened PoolLists

  const NR_BP: nat := 32
  const INT3: Byte := 0xf1

  /** What the union of a node holds; its constructor is the node's type. */
  datatype Use = CodeAt(addr: nat) | Watching(expr: string, oldVal: nat)

  datatype Node = Node(no: int, inUse: bool, enable: bool, oriByte: Byte, use: Use, next: int)

  //// Lists in the pool

  /** `p` is the head of a list whose nodes are `ns`, in order, none twice, ending in NIL. */
  predicate IsList(pool: seq<Node>, p: int, ns: seq<nat>) {
    && p == At(ns, 0) && Distinct(ns)
    && (forall i :: 0 <= i < |ns| ==> ns[i] < |pool|)
    && (forall i :: 0 <= i < |ns| ==> pool[ns[i]].next == At(ns, i + 1))
  }

  /** Every node is on exactly one of the two lists, and in_use says which. */
  ghost predicate Partition(pool: seq<Node>, head: int, free: int, used: seq<nat>, avail: seq<nat>) {
    && |pool| == NR_BP && IsList(pool, head, used) && IsList(pool, free, avail)
    && forall i :: 0 <= i < NR_BP ==> pool[i].no == i && Placed(pool[i].inUse, i, used, avail)
  }

  /** Every breakpoint in use is at an address of the guest. */
  predicate AddressesIn(pool: seq<Node>, size: nat) {
    forall i :: 0 <= i < |pool| && pool[i].use.CodeAt? && pool[i].inUse ==> pool[i].use.addr < size
  }

  predicate Placed(inUse: bool, i: nat, used: seq<nat>, avail: seq<nat>) {
    if inUse then i in used && i !in avail else i in avail && i !in used
  }

  lemma ListNodes(pool: seq<Node>, p: int, ns: seq<nat>)
    requires IsList(pool, p, ns)
    ensures p == At(ns, 0) && forall n :: n in ns ==> n < |pool|
    ensures forall i :: 0 <= i < |ns| ==> pool[ns[i]].next == At(ns, i + 1)
  {
  }

  lemma ListFrame(pool: seq<Node>, after: seq<Node>, p: int, ns: seq<nat>)
    requires IsList(pool, p, ns) && |after| == |pool|
    requires forall n :: n in ns ==> after[n].next == pool[n].next
    ensures IsList(after, p, ns)
  {
  }

  lemma ListTail(pool: seq<Node>, p: int, ns: seq<nat>)
    requires IsList(pool, p, ns) && ns != []
    ensures IsList(pool, pool[p].next, ns[1..]) && p !in ns[1..]
  {
  }

  lemma ListCons(pool: seq<Node>, n: nat, p: int, ns: seq<nat>)
    requires n < |pool| && IsList(pool, p, ns) && n !in ns && pool[n].next == p
    ensures IsList(pool, n, [n] + ns)
  {
    var l := [n] + ns;
    assert forall i :: 0 < i < |l| ==> l[i] == ns[i - 1];
  }

  lemma ListUnlink(pool: seq<Node>, p: int, ns: seq<nat>, k: nat)
    requires IsList(pool, p, ns) && 0 < k < |ns|
    ensures IsList(pool[ns[k - 1] := pool[ns[k - 1]].(next := pool[ns[k]].next)], p, Without(ns, k))
    ensures ns[k] !in Without(ns, k)
  {
    var l := Without(ns, k);
    var after := pool[ns[k - 1] := pool[ns[k - 1]].(next := pool[ns[k]].next)];
    forall i | 0 <= i < |l|
      ensures l[i] < |after| && after[l[i]].next == At(l, i + 1) && l[i] != ns[k]
    {
      if i < k {
        assert l[i] == ns[i];
      } else {
        assert l[i] == ns[i + 1] && ns[k - 1] != ns[i + 1];
      }
    }
    WithoutDistinct(ns, k);
  }

  //// The two moves between the lists

  /** new_BP and the linking in: the first free node becomes the first used one, with new data. */
  lemma TakeNode(pool: seq<Node>, head: int, free: int, used: seq<nat>, avail: seq<nat>, node: Node)
    requires Partition(pool, head, free, used, avail) && avail != []
    requires node.no == free && node.inUse && node.next == head
    ensures 0 <= free < NR_BP && free == avail[0] && !pool[free].inUse
    ensures Partition(pool[free := node], free, pool[free].next, [avail[0]] + used, avail[1..])
  {
    hide IsList, Distinct;
    ListNodes(pool, free, avail);
    ListNodes(pool, head, used);
    assert avail[0] in avail;
    assert Placed(pool[free].inUse, free, used, avail);
    var after := pool[free := node];
    assert avail == [avail[0]] + avail[1..];
    ListTail(pool, free, avail);
    ListFrame(pool, after, pool[free].next, avail[1..]);
    ListFrame(pool, after, head, used);
    ListCons(after, free, head, used);
    forall i | 0 <= i < NR_BP
      ensures after[i].no == i && Placed(after[i].inUse, i, [avail[0]] + used, avail[1..])
    {
      assert Placed(pool[i].inUse, i, used, avail);
    }
  }

  /** The node numbered `no` was the k-th used one and is now the first free one. */
  predicate Removed(used0: seq<nat>, avail0: seq<nat>, k: nat, no: int, used: seq<nat>, avail: seq<nat>)
    requires k < |used0|
  {
    used0[k] == no && used == Without(used0, k) && avail == [used0[k]] + avail0
  }

  lemma RemovedHere(used0: seq<nat>, avail0: seq<nat>, k: nat)
    requires k < |used0|
    ensures Removed(used0, avail0, k, used0[k], Without(used0, k), [used0[k]] + avail0)
  {
  }

  /** Unlinking, lines 101-102. */
  function Unlinked(pool: seq<Node>, used: seq<nat>, k: nat): (r: seq<Node>)
    requires k < |used| && forall n :: n in used ==> n < |pool|
    ensures |r| == |pool|
  {
    assert used[k] in used && (k > 0 ==> used[k - 1] in used);
    if k == 0 then pool else pool[used[k - 1] := pool[used[k - 1]].(next := pool[used[k]].next)]
  }

  lemma UnlinkedList(pool: seq<Node>, head: int, used: seq<nat>, k: nat)
    requires IsList(pool, head, used) && k < |used|
    ensures forall n :: n in used ==> n < |pool|
    ensures IsList(Unlinked(pool, used, k), if k == 0 then pool[used[0]].next else head, Without(used, k))
    ensures used[k] !in Without(used, k)
  {
    hide IsList, Distinct;
    ListNodes(pool, head, used);
    if k == 0 {
      ListTail(pool, head, used);
      assert Without(used, 0) == used[1..];
    } else {
      ListUnlink(pool, head, used, k);
    }
  }

  /** Unlinking and free_BP: a used node becomes the first free one. */
  lemma ReturnNode(pool: seq<Node>, after: seq<Node>, head: int, free: int, used: seq<nat>, avail: seq<nat>, k: nat)
    requires Partition(pool, head, free, used, avail) && k < |used|
    requires forall n :: n in used ==> n < |pool|
    requires var mid := Unlinked(pool, used, k);
      after == mid[used[k] := mid[used[k]].(inUse := false, next := free)]
    ensures Partition(after, if k == 0 then pool[used[0]].next else head, used[k], Without(used, k), [used[k]] + avail)
  {
    hide IsList, Distinct, Without;
    var n, mid := used[k], Unlinked(pool, used, k);
    assert n in used && (k > 0 ==> used[k - 1] in used);
    assert forall i :: 0 <= i < NR_BP ==> Placed(pool[i].inUse, i, used, avail);
    UnlinkedList(pool, head, used, k);
    ListNodes(mid, if k == 0 then pool[used[0]].next else head, Without(used, k));
    ListFrame(mid, after, if k == 0 then pool[used[0]].next else head, Without(used, k));
    ListNodes(pool, free, avail);
    assert n !in avail && (k > 0 ==> used[k - 1] !in avail);
    ListFrame(pool, after, free, avail);
    ListCons(after, n, free, avail);
    WithoutPlaced(pool, head, used, k);
    forall i | 0 <= i < NR_BP
      ensures after[i].no == i && Placed(after[i].inUse, i, Without(used, k), [n] + avail)
    {
      assert pool[i].no == i;
    }
  }

  /** Apart from the links and the flag of the freed node nothing is written. */
  lemma DataKept(pool: seq<Node>, after: seq<Node>, used: seq<nat>, k: nat, free: int)
    requires k < |used| && forall n :: n in used ==> n < |pool|
    requires used[k] < |pool|
    requires var mid := Unlinked(pool, used, k);
      after == mid[used[k] := mid[used[k]].(inUse := false, next := free)]
    ensures |after| == |pool| && forall i :: 0 <= i < |pool| ==> SameData(pool[i], after[i])
  {
  }

  /** What the monitor stored in a node; a node in use now was in use before. */
  predicate SameData(before: Node, after: Node) {
    && after == before.(next := after.next, inUse := after.inUse)
    && (after.inUse ==> before.inUse)
  }

  lemma AllSame(pool: seq<Node>)
    ensures forall i :: 0 <= i < |pool| ==> SameData(pool[i], pool[i])
  {
  }

  lemma UnlinkedIs(pool: seq<Node>, mid: seq<Node>, used: seq<nat>, k: nat)
    requires k < |used| && forall n :: n in used ==> n < |pool|
    requires used[k] < |pool| && (k > 0 ==> used[k - 1] < |pool|)
    requires mid == if k == 0 then pool else pool[used[k - 1] := pool[used[k - 1]].(next := pool[used[k]].next)]
    ensures mid == Unlinked(pool, used, k)
  {
  }

  lemma AddressesKept(pool: seq<Node>, after: seq<Node>, size: nat)
    requires |after| == |pool| && AddressesIn(pool, size)
    requires forall i :: 0 <= i < |pool| ==> SameData(pool[i], after[i])
    ensures AddressesIn(after, size)
  {
    forall i | 0 <= i < |after| && after[i].use.CodeAt? && after[i].inUse
      ensures after[i].use.addr < size
    {
      assert SameData(pool[i], after[i]);
    }
  }

  lemma WithoutPlaced(pool: seq<Node>, head: int, ns: seq<nat>, k: nat)
    requires IsList(pool, head, ns) && k < |ns|
    ensures forall n :: n in Without(ns, k) <==> n in ns && n != ns[k]
  {
    WithoutMembers(ns, k);
  }

  lemma ChainListed(pool: seq<Node>, all: seq<nat>)
    requires |all| == |pool| && forall i :: 0 <= i < |all| ==> all[i] == i
    requires forall i :: 0 <= i < |pool| ==> pool[i].next == if i + 1 < |pool| then i + 1 else NIL
    ensures IsList(pool, NIL, []) && IsList(pool, At(all, 0), all)
  {
  }

  /** The chain through the whole pool that init_bp_list builds. */
  lemma InitialLists(pool: seq<Node>)
    requires |pool| == NR_BP
    requires forall i :: 0 <= i < NR_BP ==> !pool[i].inUse && pool[i].no == i
    requires forall i :: 0 <= i < NR_BP ==> pool[i].next == if i + 1 < NR_BP then i + 1 else NIL
    ensures Partition(pool, NIL, 0, [], seq(NR_BP, i => i))
  {
    hide IsList;
    var all: seq<nat> := seq(NR_BP, i => i);
    ChainListed(pool, all);
    forall i | 0 <= i < NR_BP
      ensures Placed(pool[i].inUse, i, [], all)
    {
      assert all[i] == i;
    }
  }

  lemma NoFree(pool: seq<Node>, head: int, free: int, used: seq<nat>, avail: seq<nat>)
    requires Partition(pool, head, free, used, avail)
    ensures free == NIL <==> avail == []
    ensures free != NIL ==> free !in used && 0 <= free < |pool|
  {
    if avail != [] {
      assert avail[0] in avail && Placed(pool[avail[0]].inUse, avail[0], used, avail);
    }
  }

  //// Walking the used list

  lemma FirstNode(pool: seq<Node>, head: int, free: int, used: seq<nat>, avail: seq<nat>)
    requires Partition(pool, head, free, used, avail)
    ensures |pool| == NR_BP && head == At(used, 0) && used[0..] == used
  {
  }

  /** Walking the list: the k-th node, and where its link leads. */
  lemma NodeAt(pool: seq<Node>, head: int, free: int, used: seq<nat>, avail: seq<nat>, k: nat, size: nat)
    requires Partition(pool, head, free, used, avail) && AddressesIn(pool, size)
    requires k <= |used| && At(used, k) != NIL
    ensures k < |used| && At(used, k) == used[k] < |pool| == NR_BP && Distinct(used)
    ensures pool[used[k]].next == At(used, k + 1) && pool[used[k]].no == used[k]
    ensures pool[used[k]].use.CodeAt? ==> pool[used[k]].use.addr < size
  {
    assert used[k] in used && Placed(pool[used[k]].inUse, used[k], used, avail);
  }

  lemma AtEnd(ns: seq<nat>, k: nat)
    requires k <= |ns| && At(ns, k) == NIL
    ensures k == |ns|
  {
  }

  predicate IsSite(pool: seq<Node>, n: nat, addr: nat) {
    n < |pool| && pool[n].use.CodeAt? && pool[n].use.addr == addr
  }

  predicate IsFirstSite(pool: seq<Node>, used: seq<nat>, k: nat, addr: nat)
    requires k < |used|
  {
    IsSite(pool, used[k], addr) && forall i :: 0 <= i < k ==> !IsSite(pool, used[i], addr)
  }

  //// Freeing the whole list

  function HeadOr(ns: seq<nat>, p: int): int { if ns == [] then p else ns[0] }

  function FreedNode(node: Node, next: int): Node { node.(inUse := false, next := next) }

  /** The nodes of `ns` are free and linked in their order, the last one to `free`. */
  predicate Freed(pool: seq<Node>, after: seq<Node>, ns: seq<nat>, free: int) {
    && |after| == |pool|
    && (forall j :: 0 <= j < |ns| ==>
          ns[j] < |pool| && after[ns[j]] == FreedNode(pool[ns[j]], HeadOr(ns[j + 1..], free)))
    && (forall n :: 0 <= n < |pool| && n !in ns ==> after[n] == pool[n])
  }

  lemma FreedOneMore(pool: seq<Node>, mid: seq<Node>, after: seq<Node>, p: int, ns: seq<nat>, free: int)
    requires IsList(pool, p, ns) && ns != [] && Freed(pool, mid, ns[1..], free)
    requires ns[0] < |pool| && after == mid[ns[0] := FreedNode(pool[ns[0]], HeadOr(ns[1..], free))]
    ensures Freed(pool, after, ns, free)
  {
    hide IsList, FreedNode;
    ListTail(pool, p, ns);
    ListNodes(pool, p, ns);
    var rest := ns[1..];
    assert ns == [ns[0]] + rest;
    forall j | 0 <= j < |ns|
      ensures ns[j] < |pool| && after[ns[j]] == FreedNode(pool[ns[j]], HeadOr(ns[j + 1..], free))
    {
      if j > 0 {
        assert rest[j - 1] == ns[j] && rest[j - 1] in rest;
        assert rest[j - 1 + 1..] == ns[j + 1..];
      }
    }
  }

  lemma UsedNodes(pool: seq<Node>, head: int, free: int, used: seq<nat>, avail: seq<nat>)
    requires Partition(pool, head, free, used, avail)
    ensures IsList(pool, head, used) && IsList(pool, free, avail)
    ensures forall n :: n in used ==> n < NR_BP && pool[n].inUse && n !in avail
  {
    hide IsList, Distinct;
    ListNodes(pool, head, used);
    forall n | n in used
      ensures n < NR_BP && pool[n].inUse && n !in avail
    {
      assert Placed(pool[n].inUse, n, used, avail);
    }
  }

  lemma AllFreed(pool: seq<Node>, after: seq<Node>, head: int, free: int, used: seq<nat>, avail: seq<nat>)
    requires Partition(pool, head, free, used, avail) && Freed(pool, after, used, free)
    ensures Partition(after, NIL, HeadOr(used, free), [], used + avail)
    ensures forall i :: 0 <= i < NR_BP ==> SameData(pool[i], after[i])
  {
    assert IsList(after, NIL, []);
    UsedNodes(pool, head, free, used, avail);
    AppendedList(pool, after, head, free, used, avail);
    hide IsList, Distinct;
    forall i | 0 <= i < NR_BP
      ensures after[i].no == i && Placed(after[i].inUse, i, [], used + avail) && SameData(pool[i], after[i])
    {
      assert Placed(pool[i].inUse, i, used, avail) && pool[i].no == i;
      if i in used {
        var j :| 0 <= j < |used| && used[j] == i;
        assert after[used[j]] == FreedNode(pool[used[j]], HeadOr(used[j + 1..], free));
      }
    }
  }

  lemma AppendedList(pool: seq<Node>, after: seq<Node>, head: int, free: int, used: seq<nat>, avail: seq<nat>)
    requires IsList(pool, head, used) && IsList(pool, free, avail) && Freed(pool, after, used, free)
    requires forall n :: n in used ==> n !in avail
    ensures IsList(after, HeadOr(used, free), used + avail)
  {
    var l := used + avail;
    forall i | 0 <= i < |l|
      ensures l[i] < |after| && after[l[i]].next == At(l, i + 1)
    {
      if i < |used| {
        assert after[used[i]] == FreedNode(pool[used[i]], HeadOr(used[i + 1..], free));
      } else {
        var k := i - |used|;
        assert l[i] == avail[k] && avail[k] in avail && avail[k] !in used;
        assert pool[avail[k]].next == At(avail, k + 1);
      }
    }
    AppendDistinct(used, avail);
  }

  //// Saving bytes

  /** resume_breakpoints writes only the saved byte and the enable flag. */
  predicate SameNode(before: Node, after: Node) {
    after == before.(oriByte := after.oriByte, enable := after.enable)
  }

  lemma SameNodesKeep(pool: seq<Node>, after: seq<Node>, head: int, free: int, used: seq<nat>, avail: seq<nat>)
    requires Partition(pool, head, free, used, avail) && |after| == |pool|
    requires forall i :: 0 <= i < NR_BP ==> SameNode(pool[i], after[i])
    ensures Partition(after, head, free, used, avail)
  {
    hide IsList, Distinct;
    ListNodes(pool, head, used);
    ListNodes(pool, free, avail);
    ListFrame(pool, after, head, used);
    ListFrame(pool, after, free, avail);
    assert forall i :: 0 <= i < NR_BP ==> pool[i].no == i && Placed(pool[i].inUse, i, used, avail);
  }

  ghost predicate SameNodes(pool: seq<Node>, after: seq<Node>) {
    |after| == |pool| && forall i :: 0 <= i < |pool| ==> SameNode(pool[i], after[i])
  }

  lemma Unwritten(pool: seq<Node>)
    ensures SameNodes(pool, pool)
  {
  }

  lemma EachSame(pool: seq<Node>, after: seq<Node>)
    requires SameNodes(pool, after)
    ensures |after| == |pool| && forall i :: 0 <= i < |pool| ==> SameNode(pool[i], after[i])
  {
  }

  /** Saving one byte keeps the lists, and the rest of the data. */
  lemma OneNodeKeeps(pool: seq<Node>, before: seq<Node>, after: seq<Node>, head: int, free: int,
                     used: seq<nat>, avail: seq<nat>, p: int, size: nat)
    requires Partition(before, head, free, used, avail) && AddressesIn(before, size) && SameNodes(pool, before)
    requires 0 <= p < |before| == |after| && SameNode(before[p], after[p]) && after == before[p := after[p]]
    ensures Partition(after, head, free, used, avail) && AddressesIn(after, size) && SameNodes(pool, after)
  {
    assert SameNode(pool[p], before[p]);
    SameNodesKeep(before, after, head, free, used, avail);
  }
}
