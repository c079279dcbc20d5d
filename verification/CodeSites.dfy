/** The breakpoints of a list as places in the code with the bytes they saved. */
module CodeSites {
  import opened BreakpointList
  import opened Bytes
  import opened PoolLists

  /** A breakpoint in the list: where it is, and the byte it saved. */
  datatype Site = Site(addr: nat, ori: Byte)

  function SiteOf(pool: seq<Node>, n: nat): seq<Site> {
    if n < |pool| && pool[n].use.CodeAt? then [Site(pool[n].use.addr, pool[n].oriByte)] else []
  }

  function Sites(pool: seq<Node>, ns: seq<nat>): seq<Site> {
    if ns == [] then [] else SiteOf(pool, ns[0]) + Sites(pool, ns[1..])
  }

  function Poke(mem: seq<Byte>, addr: nat, b: Byte): (r: seq<Byte>)
    ensures |r| == |mem|
  {
    if addr < |mem| then mem[addr := b] else mem
  }

  function Peek(mem: seq<Byte>, addr: nat): Byte {
    if addr < |mem| then mem[addr] else 0
  }

  function Mask(mem: seq<Byte>, sites: seq<Site>): (r: seq<Byte>)
    ensures |r| == |mem|
    decreases |sites|
  {
    if sites == [] then mem else Mask(Poke(mem, sites[0].addr, sites[0].ori), sites[1..])
  }

  function Resume(mem: seq<Byte>, sites: seq<Site>): (r: (seq<Byte>, seq<Site>))
    ensures |r.0| == |mem| && |r.1| == |sites|
    decreases |sites|
  {
    if sites == [] then (mem, []) else
      var a := sites[0].addr;
      var (m, rest) := Resume(Poke(mem, a, INT3), sites[1..]);
      (m, [Site(a, Peek(mem, a))] + rest)
  }

  lemma {:induction false} SitesConcat(pool: seq<Node>, s: seq<nat>, t: seq<nat>)
    ensures Sites(pool, s + t) == Sites(pool, s) + Sites(pool, t)
    decreases |s|
  {
    if s == [] {
      assert s + t == t;
    } else {
      assert (s + t)[1..] == s[1..] + t;
      SitesConcat(pool, s[1..], t);
    }
  }

  lemma {:induction false} SitesFrame(pool: seq<Node>, after: seq<Node>, ns: seq<nat>)
    requires |pool| == |after| && forall n :: n in ns && n < |pool| ==> after[n] == pool[n]
    ensures Sites(after, ns) == Sites(pool, ns)
    decreases |ns|
  {
    if ns != [] {
      assert ns[0] in ns && forall n :: n in ns[1..] ==> n in ns;
      SitesFrame(pool, after, ns[1..]);
    }
  }

  /** Rewriting one node changes one site. */
  lemma SitesAfterOne(pool: seq<Node>, after: seq<Node>, ns: seq<nat>, k: nat)
    requires k < |ns| && Distinct(ns)
    requires |after| == |pool| && forall n :: 0 <= n < |pool| && n != ns[k] ==> after[n] == pool[n]
    ensures Sites(after, ns[..k + 1]) == Sites(pool, ns[..k]) + SiteOf(after, ns[k])
    ensures Sites(after, ns[k + 1..]) == Sites(pool, ns[k + 1..])
    ensures Sites(pool, ns[k..]) == SiteOf(pool, ns[k]) + Sites(pool, ns[k + 1..])
  {
    assert ns[k] !in ns[..k] && ns[k] !in ns[k + 1..];
    hide Distinct;
    assert ns[..k + 1] == ns[..k] + [ns[k]];
    SitesConcat(after, ns[..k], [ns[k]]);
    assert Sites(after, [ns[k]]) == SiteOf(after, ns[k]);
    SitesFrame(pool, after, ns[..k]);
    SitesFrame(pool, after, ns[k + 1..]);
    assert ns[k..][1..] == ns[k + 1..];
  }

  /** A breakpoint put at the front of the list is its first site. */
  lemma SitesCons(pool: seq<Node>, n: nat, node: Node, used: seq<nat>)
    requires n < |pool| && n !in used && node.use.CodeAt?
    ensures Sites(pool[n := node], [n] + used) == [Site(node.use.addr, node.oriByte)] + Sites(pool, used)
  {
    SitesFrame(pool, pool[n := node], used);
    assert ([n] + used)[1..] == used;
  }

  //// A node leaves the list

  /** What is left of the sites of `ns` without its k-th node. */
  function SitesWithout(pool: seq<Node>, ns: seq<nat>, k: nat): seq<Site>
    requires k < |ns|
  {
    Sites(pool, ns[..k]) + Sites(pool, ns[k + 1..])
  }

  /** The site of a breakpoint among those of its list. */
  lemma SitesAround(pool: seq<Node>, ns: seq<nat>, k: nat)
    requires k < |ns|
    ensures Sites(pool, ns) == Sites(pool, ns[..k]) + SiteOf(pool, ns[k]) + Sites(pool, ns[k + 1..])
    ensures Sites(pool, Without(ns, k)) == SitesWithout(pool, ns, k)
  {
    assert ns == ns[..k] + ns[k..] && ns[k..][1..] == ns[k + 1..];
    SitesConcat(pool, ns[..k], ns[k..]);
    SitesConcat(pool, ns[..k], ns[k + 1..]);
    assert Sites(pool, ns[..k]) + (SiteOf(pool, ns[k]) + Sites(pool, ns[k + 1..]))
        == Sites(pool, ns[..k]) + SiteOf(pool, ns[k]) + Sites(pool, ns[k + 1..]);
  }

  /** Links and flags do not matter for what a breakpoint saved. */
  lemma {:induction false} SitesOfData(pool: seq<Node>, after: seq<Node>, ns: seq<nat>)
    requires |pool| == |after| && forall i :: 0 <= i < |pool| ==> SameData(pool[i], after[i])
    ensures Sites(after, ns) == Sites(pool, ns)
    decreases |ns|
  {
    if ns != [] {
      assert ns[0] < |pool| ==> SameData(pool[ns[0]], after[ns[0]]);
      SitesOfData(pool, after, ns[1..]);
    }
  }

  //// The walks of mask_breakpoints and resume_breakpoints

  lemma MaskStep(mem: seq<Byte>, pool: seq<Node>, ns: seq<nat>, k: nat)
    requires k < |ns| && ns[k] < |pool| && (pool[ns[k]].use.CodeAt? ==> pool[ns[k]].use.addr < |mem|)
    ensures var node := pool[ns[k]];
      Mask(mem, Sites(pool, ns[k..]))
      == Mask(if node.use.CodeAt? then mem[node.use.addr := node.oriByte] else mem, Sites(pool, ns[k + 1..]))
  {
    assert ns[k..][1..] == ns[k + 1..];
    var rest := Sites(pool, ns[k + 1..]);
    var s := SiteOf(pool, ns[k]) + rest;
    assert Sites(pool, ns[k..]) == s;
    if pool[ns[k]].use.CodeAt? {
      assert s[1..] == rest;
    } else {
      assert s == rest;
    }
  }

  lemma MaskEnd(mem: seq<Byte>, pool: seq<Node>, ns: seq<nat>, k: nat)
    requires k == |ns|
    ensures Mask(mem, Sites(pool, ns[k..])) == mem
  {
  }

  lemma ResumeStart(mem: seq<Byte>, pool: seq<Node>, ns: seq<nat>)
    ensures ResumeState(mem, pool, ns, 0, Resume(mem, Sites(pool, ns)))
  {
    assert ns[0..] == ns && ns[..0] == [];
    assert [] + Resume(mem, Sites(pool, ns)).1 == Resume(mem, Sites(pool, ns)).1;
  }

  /** Half way through resume_breakpoints: what is done plus what is left is the goal. */
  ghost predicate ResumeState(mem: seq<Byte>, pool: seq<Node>, ns: seq<nat>, k: nat, goal: (seq<Byte>, seq<Site>))
    requires k <= |ns|
  {
    var (m, rest) := Resume(mem, Sites(pool, ns[k..]));
    m == goal.0 && Sites(pool, ns[..k]) + rest == goal.1
  }

  lemma ResumeSite(mem: seq<Byte>, mem1: seq<Byte>, pool: seq<Node>, after: seq<Node>, ns: seq<nat>, k: nat,
                   goal: (seq<Byte>, seq<Site>))
    requires k < |ns| && Distinct(ns) && ResumeState(mem, pool, ns, k, goal)
    requires ns[k] < |pool| && pool[ns[k]].use.CodeAt? && pool[ns[k]].use.addr < |mem|
    requires after == pool[ns[k] := pool[ns[k]].(oriByte := mem[pool[ns[k]].use.addr], enable := true)]
    requires mem1 == mem[pool[ns[k]].use.addr := INT3]
    ensures ResumeState(mem1, after, ns, k + 1, goal)
  {
    hide Sites, Distinct;
    SitesAfterOne(pool, after, ns, k);
    var s, rest := Sites(pool, ns[k..]), Sites(pool, ns[k + 1..]);
    assert s[1..] == rest && s[0] == Site(pool[ns[k]].use.addr, pool[ns[k]].oriByte);
    assert Resume(mem, s).1 == SiteOf(after, ns[k]) + Resume(mem1, rest).1;
    assert Sites(pool, ns[..k]) + (SiteOf(after, ns[k]) + Resume(mem1, rest).1)
        == (Sites(pool, ns[..k]) + SiteOf(after, ns[k])) + Resume(mem1, rest).1;
  }

  lemma ResumeSkip(mem: seq<Byte>, pool: seq<Node>, ns: seq<nat>, k: nat, goal: (seq<Byte>, seq<Site>))
    requires k < |ns| && Distinct(ns) && ResumeState(mem, pool, ns, k, goal)
    requires ns[k] < |pool| && pool[ns[k]].use.Watching?
    ensures ResumeState(mem, pool, ns, k + 1, goal)
  {
    SitesAfterOne(pool, pool, ns, k);
    hide Sites, Distinct;
    assert SiteOf(pool, ns[k]) == [];
    assert [] + Sites(pool, ns[k + 1..]) == Sites(pool, ns[k + 1..]);
    assert Sites(pool, ns[..k]) + [] == Sites(pool, ns[..k]);
  }

  lemma ResumeEnd(mem: seq<Byte>, pool: seq<Node>, ns: seq<nat>, k: nat, goal: (seq<Byte>, seq<Site>))
    requires k == |ns| && ResumeState(mem, pool, ns, k, goal)
    ensures (mem, Sites(pool, ns)) == goal
  {
    assert ns[|ns|..] == [] && ns[..|ns|] == ns;
    assert Sites(pool, ns) + [] == Sites(pool, ns);
  }
}
