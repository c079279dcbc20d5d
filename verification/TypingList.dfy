/** The generated list of game/include/adt/linklist.h for the letters of the typing game: a static
    pool of SIZE + 1 nodes, a doubly linked list of live letters, and a chain of free nodes that
    ends in a sentinel that is never handed out.  A pointer is the index of its node. */
module TypingList {
  import opened PoolLists
  import opened TypingRules

  const SIZE: nat := POOL        // the sentinel is node SIZE

  datatype Node = Node(x: real, y: int, text: nat, v: real, prev: int, next: int)

  function LetterOf(n: Node): Letter { Letter(n.x, n.y, n.text, n.v) }

  /** The letters of the nodes `ns`, in order. */
  function Letters(pool: seq<Node>, ns: seq<nat>): (r: seq<Letter>)
    ensures |r| == |ns|
  {
    seq(|ns|, i requires 0 <= i < |ns| => if ns[i] < |pool| then LetterOf(pool[ns[i]]) else Letter(0.0, 0, 0, 0.0))
  }

  /** The pointer before the i-th node of a list. */
  function Before(ns: seq<nat>, i: nat): int
    requires i <= |ns|
  {
    if i == 0 then NIL else ns[i - 1]
  }

  /** A well-formed doubly linked list from `head`, of nodes that may be handed out. */
  predicate IsLive(pool: seq<Node>, head: int, ns: seq<nat>) {
    && head == At(ns, 0) && Distinct(ns)
    && (forall n :: n in ns ==> n < |pool| && n != SIZE)
    && (forall i :: 0 <= i < |ns| ==> LinkedAt(pool, ns, i))
  }

  predicate LinkedAt(pool: seq<Node>, ns: seq<nat>, i: nat)
    requires i < |ns|
  {
    ns[i] < |pool| && pool[ns[i]].next == At(ns, i + 1) && pool[ns[i]].prev == Before(ns, i)
  }

  /** The free chain: it ends in the sentinel. */
  predicate IsChain(pool: seq<Node>, p: int, ns: seq<nat>) {
    && ns != [] && p == ns[0] && ns[|ns| - 1] == SIZE && Distinct(ns)
    && forall i :: 0 <= i < |ns| ==> ns[i] < |pool| && pool[ns[i]].next == At(ns, i + 1)
  }

  /** Each of the SIZE + 1 nodes is on exactly one of the two lists.  Before the first fly_new there
      is no chain yet. */
  ghost predicate Whole(pool: seq<Node>, head: int, freeHead: int, live: seq<nat>, chain: seq<nat>) {
    && |pool| == SIZE + 1
    && if freeHead == NIL then
         head == NIL && live == [] && chain == [] && pool[SIZE].next == NIL
       else
         && IsLive(pool, head, live) && IsChain(pool, freeHead, chain)
         && |live| + |chain| == SIZE + 1
         && forall i :: 0 <= i <= SIZE ==> OneSide(i, live, chain)
  }

  predicate OneSide(i: nat, live: seq<nat>, chain: seq<nat>) {
    (i in live) != (i in chain)
  }

  //// Frames

  lemma LiveNodes(pool: seq<Node>, head: int, ns: seq<nat>)
    requires IsLive(pool, head, ns)
    ensures head == At(ns, 0) && forall n :: n in ns ==> n < |pool| && n != SIZE
    ensures forall i :: 0 <= i < |ns| ==> LinkedAt(pool, ns, i)
  {
  }

  lemma LiveFrame(pool: seq<Node>, after: seq<Node>, head: int, ns: seq<nat>)
    requires IsLive(pool, head, ns) && |after| == |pool|
    requires forall n :: n in ns ==> after[n].next == pool[n].next && after[n].prev == pool[n].prev
    ensures IsLive(after, head, ns)
  {
    hide Distinct;
    forall i | 0 <= i < |ns|
      ensures LinkedAt(after, ns, i)
    {
      assert LinkedAt(pool, ns, i) && ns[i] in ns;
    }
  }

  lemma ChainNodes(pool: seq<Node>, p: int, ns: seq<nat>)
    requires IsChain(pool, p, ns)
    ensures ns != [] && p == ns[0] && forall n :: n in ns ==> n < |pool|
    ensures pool[p].next == At(ns, 1)
  {
  }

  lemma ChainFrame(pool: seq<Node>, after: seq<Node>, p: int, ns: seq<nat>)
    requires IsChain(pool, p, ns) && |after| == |pool|
    requires forall n :: n in ns ==> after[n].next == pool[n].next
    ensures IsChain(after, p, ns)
  {
  }

  lemma ChainTail(pool: seq<Node>, p: int, ns: seq<nat>)
    requires IsChain(pool, p, ns) && |ns| > 1
    ensures IsChain(pool, pool[p].next, ns[1..]) && p !in ns[1..] && p != SIZE
  {
  }

  lemma ChainCons(pool: seq<Node>, n: nat, p: int, ns: seq<nat>)
    requires IsChain(pool, p, ns) && n < |pool| && n !in ns && pool[n].next == p
    ensures IsChain(pool, n, [n] + ns)
  {
    var l := [n] + ns;
    assert forall i :: 0 < i < |l| ==> l[i] == ns[i - 1];
  }

  lemma LettersFrame(pool: seq<Node>, after: seq<Node>, ns: seq<nat>)
    requires |after| == |pool| && forall n :: n in ns && n < |pool| ==> LetterOf(after[n]) == LetterOf(pool[n])
    ensures Letters(after, ns) == Letters(pool, ns)
  {
    forall i | 0 <= i < |ns|
      ensures Letters(after, ns)[i] == Letters(pool, ns)[i]
    {
      assert ns[i] in ns;
    }
  }

  //// fly_new and fly_insert at the front

  /** The pool after a node `n` with the links of a new head was put before the list. */
  function Pushed(pool: seq<Node>, n: nat, node: Node, head: int): (r: seq<Node>)
    requires n < |pool|
    ensures |r| == |pool|
  {
    var p := pool[n := node];
    if 0 <= head < |p| then p[head := p[head].(prev := n)] else p
  }

  lemma PushedList(pool: seq<Node>, n: nat, node: Node, head: int, ns: seq<nat>)
    requires IsLive(pool, head, ns) && n < |pool| && n != SIZE && n !in ns
    requires node.prev == NIL && node.next == head
    ensures IsLive(Pushed(pool, n, node, head), n, [n] + ns)
    ensures Letters(Pushed(pool, n, node, head), [n] + ns) == [LetterOf(node)] + Letters(pool, ns)
  {
    var after, l := Pushed(pool, n, node, head), [n] + ns;
    forall i | 0 <= i < |l|
      ensures LinkedAt(after, l, i) && Letters(after, l)[i] == ([LetterOf(node)] + Letters(pool, ns))[i]
    {
      if i > 0 {
        assert l[i] == ns[i - 1] && ns[i - 1] in ns && LinkedAt(pool, ns, i - 1);
        assert i > 1 ==> ns[0] != ns[i - 1];
      }
    }
    assert Distinct(l) by {
      assert forall i :: 0 < i < |l| ==> l[i] == ns[i - 1];
    }
  }

  /** A new letter: the first free node, never the sentinel and never a live one, becomes the head. */
  lemma NewLetterKeeps(pool: seq<Node>, head: int, freeHead: int, live: seq<nat>, chain: seq<nat>, node: Node)
    requires Whole(pool, head, freeHead, live, chain) && |chain| > 1
    requires node.prev == NIL && node.next == head
    ensures 0 <= freeHead < SIZE && freeHead == chain[0] && freeHead !in live
    ensures head == At(live, 0) && (head != NIL ==> 0 <= head < |pool|)
    ensures Whole(Pushed(pool, freeHead, node, head), freeHead, pool[freeHead].next, [chain[0]] + live, chain[1..])
    ensures pool[freeHead].next != NIL
    ensures Letters(Pushed(pool, freeHead, node, head), [chain[0]] + live) == [LetterOf(node)] + Letters(pool, live)
  {
    hide IsLive, IsChain, Distinct, Letters;
    LiveNodes(pool, head, live);
    ChainNodes(pool, freeHead, chain);
    assert chain[0] in chain && OneSide(chain[0], live, chain);
    assert live != [] ==> live[0] in live && OneSide(live[0], live, chain);
    ChainTail(pool, freeHead, chain);
    PushedList(pool, freeHead, node, head, live);
    var after := Pushed(pool, freeHead, node, head);
    assert chain == [chain[0]] + chain[1..];
    assert head != NIL ==> head !in chain[1..];
    ChainFrame(pool, after, pool[freeHead].next, chain[1..]);
    ChainNodes(pool, pool[freeHead].next, chain[1..]);
    forall i | 0 <= i <= SIZE
      ensures OneSide(i, [chain[0]] + live, chain[1..])
    {
      assert OneSide(i, live, chain);
    }
  }

  /** Linking the untouched pool: every node is free, node 0 first and the sentinel last. */
  lemma InitialChain(pool: seq<Node>)
    requires |pool| == SIZE + 1 && forall i :: 0 <= i <= SIZE ==> pool[i].next == if i < SIZE then i + 1 else NIL
    ensures Whole(pool, NIL, 0, [], seq(SIZE + 1, i => i))
  {
    var all: seq<nat> := seq(SIZE + 1, i => i);
    assert IsLive(pool, NIL, []);
    assert IsChain(pool, 0, all);
    hide IsLive, IsChain;
    forall i | 0 <= i <= SIZE
      ensures OneSide(i, [], all)
    {
      assert all[i] == i;
    }
  }

  //// fly_remove and fly_free

  /** fly_remove bypasses the k-th node in both directions. */
  function Bypassed(pool: seq<Node>, ns: seq<nat>, k: nat): (r: seq<Node>)
    requires k < |ns| && forall n :: n in ns ==> n < |pool|
    ensures |r| == |pool|
  {
    assert (k > 0 ==> ns[k - 1] in ns) && (k + 1 < |ns| ==> ns[k + 1] in ns);
    var p := if k > 0 then pool[ns[k - 1] := pool[ns[k - 1]].(next := At(ns, k + 1))] else pool;
    if k + 1 < |ns| then p[ns[k + 1] := p[ns[k + 1]].(prev := Before(ns, k))] else p
  }

  lemma BypassedLinks(pool: seq<Node>, ns: seq<nat>, k: nat, j: nat)
    requires k < |ns| && j < |ns| && j != k && Distinct(ns) && forall n :: n in ns ==> n < |pool|
    requires ns[j] < |pool|
    ensures Bypassed(pool, ns, k)[ns[j]] == pool[ns[j]].(
      next := if j + 1 == k then At(ns, k + 1) else pool[ns[j]].next,
      prev := if j == k + 1 then Before(ns, k) else pool[ns[j]].prev)
  {
    assert k > 0 && j != k - 1 ==> ns[j] != ns[k - 1];
    assert k + 1 < |ns| && j != k + 1 ==> ns[j] != ns[k + 1];
    hide Distinct;
    assert (k > 0 ==> ns[k - 1] in ns) && (k + 1 < |ns| ==> ns[k + 1] in ns);
  }

  lemma BypassedList(pool: seq<Node>, head: int, ns: seq<nat>, k: nat)
    requires IsLive(pool, head, ns) && k < |ns|
    ensures forall n :: n in ns ==> n < |pool|
    ensures IsLive(Bypassed(pool, ns, k), At(Without(ns, k), 0), Without(ns, k))
  {
    LiveNodes(pool, head, ns);
    var after, l := Bypassed(pool, ns, k), Without(ns, k);
    WithoutDistinct(ns, k);
    WithoutMembers(ns, k);
    hide Bypassed, Distinct;
    forall i | 0 <= i < |l|
      ensures LinkedAt(after, l, i)
    {
      var j := if i < k then i else i + 1;
      assert l[i] == ns[j] && ns[j] in ns && LinkedAt(pool, ns, j);
      assert At(l, i + 1) == if i + 1 == k then At(ns, k + 1) else At(ns, j + 1);
      assert Before(l, i) == if i == k then Before(ns, k) else Before(ns, j);
      BypassedLinks(pool, ns, k, j);
    }
  }

  /** Bypassing a node does not touch what the letters are, nor any node off the list. */
  lemma BypassedRest(pool: seq<Node>, ns: seq<nat>, k: nat)
    requires k < |ns| && forall n :: n in ns ==> n < |pool|
    ensures forall n :: 0 <= n < |pool| ==> LetterOf(Bypassed(pool, ns, k)[n]) == LetterOf(pool[n])
    ensures forall n :: 0 <= n < |pool| && n !in ns ==> Bypassed(pool, ns, k)[n] == pool[n]
  {
    assert (k > 0 ==> ns[k - 1] in ns) && (k + 1 < |ns| ==> ns[k + 1] in ns);
  }

  function Removed(pool: seq<Node>, ns: seq<nat>, k: nat, freeHead: int): (r: seq<Node>)
    requires k < |ns| && forall n :: n in ns ==> n < |pool|
    ensures |r| == |pool|
  {
    assert ns[k] in ns;
    var p := Bypassed(pool, ns, k);
    p[ns[k] := p[ns[k]].(next := freeHead)]
  }

  lemma LettersWithout(pool: seq<Node>, ns: seq<nat>, k: nat)
    requires k < |ns|
    ensures Letters(pool, Without(ns, k)) == Letters(pool, ns)[..k] + Letters(pool, ns)[k + 1..]
  {
  }

  /** Freeing a live node: it becomes the first free one, and the list closes around it. */
  lemma RemoveKeeps(pool: seq<Node>, head: int, freeHead: int, live: seq<nat>, chain: seq<nat>, k: nat)
    requires Whole(pool, head, freeHead, live, chain) && k < |live|
    ensures forall n :: n in live ==> n < |pool|
    ensures var after, rest := Removed(pool, live, k, freeHead), Without(live, k);
      Whole(after, At(rest, 0), live[k], rest, [live[k]] + chain)
    ensures Letters(Removed(pool, live, k, freeHead), Without(live, k))
         == Letters(pool, live)[..k] + Letters(pool, live)[k + 1..]
  {
    LiveNodes(pool, head, live);
    WithoutMembers2(pool, head, live, k);
    hide IsLive, IsChain, Distinct, Letters, Without, Bypassed;
    var n, mid, after, rest := live[k], Bypassed(pool, live, k), Removed(pool, live, k, freeHead), Without(live, k);
    assert n in live;
    assert forall i :: 0 <= i <= SIZE ==> OneSide(i, live, chain);
    BypassedList(pool, head, live, k);
    LiveFrame(mid, after, At(rest, 0), rest);
    BypassedRest(pool, live, k);
    ChainNodes(pool, freeHead, chain);
    assert OneSide(n, live, chain);
    assert forall c :: c in chain ==> OneSide(c, live, chain);
    ChainFrame(pool, after, freeHead, chain);
    ChainCons(after, n, freeHead, chain);
    LettersFrame(pool, after, rest);
    LettersWithout(pool, live, k);
    forall i | 0 <= i <= SIZE
      ensures OneSide(i, rest, [n] + chain)
    {
      assert OneSide(i, live, chain);
    }
    WithoutLength(live, k);
  }

  lemma WithoutLength(ns: seq<nat>, k: nat)
    requires k < |ns|
    ensures |Without(ns, k)| == |ns| - 1
  {
  }

  lemma WithoutMembers2(pool: seq<Node>, head: int, ns: seq<nat>, k: nat)
    requires IsLive(pool, head, ns) && k < |ns|
    ensures forall n :: n in Without(ns, k) <==> n in ns && n != ns[k]
  {
    WithoutMembers(ns, k);
  }
}
