/** What masking and resuming breakpoints does to the guest's code (mask_breakpoints and
    resume_breakpoints, nemu/src/monitor/breakpoint.c:150-188). */
module SavedBytes {
  import opened BreakpointList
  import opened Bytes
  import opened CodeSites

  predicate InCode(mem: seq<Byte>, sites: seq<Site>) {
    forall i :: 0 <= i < |sites| ==> sites[i].addr < |mem|
  }

  predicate Armed(mem: seq<Byte>, sites: seq<Site>) {
    InCode(mem, sites) && forall i :: 0 <= i < |sites| ==> mem[sites[i].addr] == INT3
  }

  /** The last site of the list at address `a`, or -1. */
  function LastSite(sites: seq<Site>, a: nat): (r: int)
    ensures -1 <= r < |sites|
    ensures r >= 0 ==> sites[r].addr == a
    ensures forall i :: r < i < |sites| ==> sites[i].addr != a
  {
    if sites == [] then -1 else
      var rest := LastSite(sites[1..], a);
      if rest >= 0 then rest + 1 else if sites[0].addr == a then 0 else -1
  }

  /** An earlier site of the list has the same address. */
  predicate Repeated(sites: seq<Site>, i: nat)
    requires i < |sites|
  {
    exists j :: 0 <= j < i && sites[j].addr == sites[i].addr
  }

  /** Masking leaves at each address the byte saved by the last site there. */
  lemma {:induction false} MaskAt(mem: seq<Byte>, sites: seq<Site>, a: nat)
    requires InCode(mem, sites) && a < |mem|
    ensures Mask(mem, sites)[a] == if LastSite(sites, a) >= 0 then sites[LastSite(sites, a)].ori else mem[a]
    decreases |sites|
  {
    if sites != [] {
      MaskAt(Poke(mem, sites[0].addr, sites[0].ori), sites[1..], a);
    }
  }

  /** Resuming arms every site; the first site at an address saves the byte, later ones save INT3. */
  lemma {:induction false} ResumeAt(mem: seq<Byte>, sites: seq<Site>)
    requires InCode(mem, sites)
    ensures var (m, saved) := Resume(mem, sites);
      && (forall i :: 0 <= i < |sites| ==>
            saved[i] == Site(sites[i].addr, if Repeated(sites, i) then INT3 else mem[sites[i].addr]))
      && (forall a :: 0 <= a < |mem| ==> m[a] == if LastSite(sites, a) >= 0 then INT3 else mem[a])
    decreases |sites|
  {
    if sites != [] {
      var a0, rest := sites[0].addr, sites[1..];
      var mem1 := Poke(mem, a0, INT3);
      ResumeAt(mem1, rest);
      var saved := Resume(mem, sites).1;
      forall i | 0 <= i < |sites|
        ensures saved[i] == Site(sites[i].addr, if Repeated(sites, i) then INT3 else mem[sites[i].addr])
      {
        if i > 0 {
          RepeatedTail(sites, i);
          assert saved[i] == Resume(mem1, rest).1[i - 1] && rest[i - 1] == sites[i];
        }
      }
    }
  }

  lemma RepeatedTail(sites: seq<Site>, i: nat)
    requires 0 < i < |sites|
    ensures Repeated(sites, i) <==> sites[0].addr == sites[i].addr || Repeated(sites[1..], i - 1)
  {
    if Repeated(sites, i) {
      var j :| 0 <= j < i && sites[j].addr == sites[i].addr;
      assert j > 0 ==> sites[1..][j - 1] == sites[j];
    }
    if Repeated(sites[1..], i - 1) {
      var j :| 0 <= j < i - 1 && sites[1..][j].addr == sites[1..][i - 1].addr;
      assert sites[1..][j] == sites[j + 1];
    }
  }

  //// Setting breakpoints, then masking them, restores the code

  /** `mem` is `orig` with a breakpoint set at each site, all at different addresses. */
  ghost predicate ArmedOver(orig: seq<Byte>, mem: seq<Byte>, sites: seq<Site>) {
    && |mem| == |orig| && Armed(mem, sites)
    && (forall i, j :: 0 <= i < j < |sites| ==> sites[i].addr != sites[j].addr)
    && (forall i :: 0 <= i < |sites| ==> sites[i].ori == orig[sites[i].addr])
    && (forall a :: 0 <= a < |mem| && LastSite(sites, a) < 0 ==> mem[a] == orig[a])
  }

  /** One more set_breakpoint, at a new address. */
  lemma SetKeepsArmed(orig: seq<Byte>, mem: seq<Byte>, sites: seq<Site>, a: nat)
    requires ArmedOver(orig, mem, sites) && a < |mem| && LastSite(sites, a) < 0
    ensures ArmedOver(orig, mem[a := INT3], [Site(a, mem[a])] + sites)
  {
    var s, after := [Site(a, mem[a])] + sites, mem[a := INT3];
    assert s[1..] == sites;
    forall i | 0 <= i < |s|
      ensures s[i].addr < |after| && after[s[i].addr] == INT3 && s[i].ori == orig[s[i].addr]
    {
      assert i > 0 ==> s[i] == sites[i - 1];
    }
    forall i, j | 0 <= i < j < |s|
      ensures s[i].addr != s[j].addr
    {
      assert s[j] == sites[j - 1] && (i > 0 ==> s[i] == sites[i - 1]);
    }
    forall b | 0 <= b < |after| && LastSite(s, b) < 0
      ensures after[b] == orig[b]
    {
      assert LastSite(sites, b) < 0 && s[0].addr != b;
    }
  }

  /** mask_breakpoints restores exactly the original code. */
  lemma MaskRestores(orig: seq<Byte>, mem: seq<Byte>, sites: seq<Site>)
    requires ArmedOver(orig, mem, sites)
    ensures Mask(mem, sites) == orig
  {
    forall a | 0 <= a < |mem|
      ensures Mask(mem, sites)[a] == orig[a]
    {
      MaskAt(mem, sites, a);
    }
  }

  /** Setting breakpoints at a sequence of addresses, the way set_breakpoint does it. */
  function SetAll(mem: seq<Byte>, sites: seq<Site>, addrs: seq<nat>): (seq<Byte>, seq<Site>)
    decreases |addrs|
  {
    if addrs == [] then (mem, sites)
    else SetAll(Poke(mem, addrs[0], INT3), [Site(addrs[0], Peek(mem, addrs[0]))] + sites, addrs[1..])
  }

  lemma {:induction false} SetAllArms(orig: seq<Byte>, mem: seq<Byte>, sites: seq<Site>, addrs: seq<nat>)
    requires ArmedOver(orig, mem, sites)
    requires forall i :: 0 <= i < |addrs| ==> addrs[i] < |mem| && LastSite(sites, addrs[i]) < 0
    requires forall i, j :: 0 <= i < j < |addrs| ==> addrs[i] != addrs[j]
    ensures ArmedOver(orig, SetAll(mem, sites, addrs).0, SetAll(mem, sites, addrs).1)
    decreases |addrs|
  {
    if addrs != [] {
      SetKeepsArmed(orig, mem, sites, addrs[0]);
      var s := [Site(addrs[0], mem[addrs[0]])] + sites;
      assert s[1..] == sites;
      assert forall i :: 0 <= i < |addrs| - 1 ==> addrs[1..][i] == addrs[i + 1];
      SetAllArms(orig, mem[addrs[0] := INT3], s, addrs[1..]);
    }
  }

  /** From a fresh list, breakpoints at any distinct addresses followed by a mask leave the code as
      it was. */
  lemma SetThenMask(orig: seq<Byte>, addrs: seq<nat>)
    requires forall i :: 0 <= i < |addrs| ==> addrs[i] < |orig|
    requires forall i, j :: 0 <= i < j < |addrs| ==> addrs[i] != addrs[j]
    ensures var (mem, sites) := SetAll(orig, [], addrs);
      Mask(mem, sites) == orig
  {
    SetAllArms(orig, orig, [], addrs);
    MaskRestores(orig, SetAll(orig, [], addrs).0, SetAll(orig, [], addrs).1);
  }

  //// Deleting breakpoints, which does not write to the code

  lemma LastSiteIs(sites: seq<Site>, a: nat, r: int)
    requires -1 <= r < |sites| && (r >= 0 ==> sites[r].addr == a)
    requires forall i :: r < i < |sites| ==> sites[i].addr != a
    ensures LastSite(sites, a) == r
  {
  }

  function Deleted(sites: seq<Site>, k: nat): seq<Site>
    requires k < |sites|
  {
    sites[..k] + sites[k + 1..]
  }

  /** Only the oldest breakpoint at an address, the last one of the list, has the byte of the code;
      the others found INT3. */
  predicate OldestHasByte(sites: seq<Site>) {
    forall i :: 0 <= i < |sites| && i != LastSite(sites, sites[i].addr) ==> sites[i].ori == INT3
  }

  /** The sites that a deletion leaves, and which of them is the oldest at an address. */
  lemma DeletedAt(sites: seq<Site>, k: nat, a: nat)
    requires k < |sites|
    ensures var l := LastSite(sites, a); var left := LastSite(Deleted(sites, k), a);
      && (l < k ==> left == l)
      && (l > k ==> left == l - 1)
      && (l == k ==> left < k && (left >= 0 ==> sites[left].addr == a && Deleted(sites, k)[left] == sites[left]))
  {
    var d, l := Deleted(sites, k), LastSite(sites, a);
    assert forall i :: 0 <= i < |d| ==> d[i] == sites[if i < k then i else i + 1];
    if l < k {
      LastSiteIs(d, a, l);
    } else if l > k {
      LastSiteIs(d, a, l - 1);
    }
  }

  /** What the code would be without its breakpoints: a deletion makes the byte of its address INT3
      if it removes the oldest breakpoint there, and changes nothing otherwise. */
  lemma DeleteSpoils(mem: seq<Byte>, sites: seq<Site>, k: nat)
    requires Armed(mem, sites) && OldestHasByte(sites) && k < |sites|
    ensures Armed(mem, Deleted(sites, k)) && OldestHasByte(Deleted(sites, k))
    ensures Mask(mem, Deleted(sites, k)) ==
      if LastSite(sites, sites[k].addr) == k then Mask(mem, sites)[sites[k].addr := INT3] else Mask(mem, sites)
  {
    hide Mask, LastSite;
    var d := Deleted(sites, k);
    assert forall i :: 0 <= i < |d| ==> d[i] == sites[if i < k then i else i + 1];
    forall i | 0 <= i < |d| && i != LastSite(d, d[i].addr)
      ensures d[i].ori == INT3
    {
      DeletedAt(sites, k, d[i].addr);
    }
    forall a | 0 <= a < |mem|
      ensures Mask(mem, d)[a] == if a == sites[k].addr && LastSite(sites, a) == k then INT3 else Mask(mem, sites)[a]
    {
      DeletedAt(sites, k, a);
      MaskAt(mem, d, a);
      MaskAt(mem, sites, a);
    }
  }

  /** A breakpoint set at any address, occupied or not, keeps that code. */
  lemma SetKeepsMask(mem: seq<Byte>, sites: seq<Site>, a: nat)
    requires Armed(mem, sites) && OldestHasByte(sites) && a < |mem|
    ensures var s, after := [Site(a, mem[a])] + sites, mem[a := INT3];
      Armed(after, s) && OldestHasByte(s) && Mask(after, s) == Mask(mem, sites)
  {
    hide Mask, LastSite;
    var s, after := [Site(a, mem[a])] + sites, mem[a := INT3];
    assert forall i :: 0 < i < |s| ==> s[i] == sites[i - 1];
    forall b: nat
      ensures LastSite(s, b) == if LastSite(sites, b) >= 0 then LastSite(sites, b) + 1 else if b == a then 0 else -1
    {
      LastSiteIs(s, b, if LastSite(sites, b) >= 0 then LastSite(sites, b) + 1 else if b == a then 0 else -1);
    }
    forall b | 0 <= b < |mem|
      ensures Mask(after, s)[b] == Mask(mem, sites)[b]
    {
      MaskAt(after, s, b);
      MaskAt(mem, sites, b);
    }
  }

  /** What the user of the monitor does to the breakpoints: set one at an address, or delete the k-th
      one of the list. */
  datatype Edit = Set(addr: nat) | Delete(k: nat)

  predicate CanEdit(mem: seq<Byte>, sites: seq<Site>, e: Edit) {
    match e
    case Set(a) => a < |mem|
    case Delete(k) => k < |sites|
  }

  function AfterEdit(mem: seq<Byte>, sites: seq<Site>, e: Edit): (r: (seq<Byte>, seq<Site>))
    requires CanEdit(mem, sites, e)
    ensures |r.0| == |mem|
  {
    match e
    case Set(a) => (mem[a := INT3], [Site(a, mem[a])] + sites)
    case Delete(k) => (mem, Deleted(sites, k))
  }

  predicate CanEditAll(mem: seq<Byte>, sites: seq<Site>, edits: seq<Edit>)
    decreases |edits|
  {
    edits == [] ||
    (CanEdit(mem, sites, edits[0]) && var (m, s) := AfterEdit(mem, sites, edits[0]); CanEditAll(m, s, edits[1..]))
  }

  function AfterEdits(mem: seq<Byte>, sites: seq<Site>, edits: seq<Edit>): (seq<Byte>, seq<Site>)
    requires CanEditAll(mem, sites, edits)
    decreases |edits|
  {
    if edits == [] then (mem, sites) else
      var (m, s) := AfterEdit(mem, sites, edits[0]);
      AfterEdits(m, s, edits[1..])
  }

  /** The addresses at which some edit deletes the oldest breakpoint. */
  function Spoiled(mem: seq<Byte>, sites: seq<Site>, edits: seq<Edit>): set<nat>
    requires CanEditAll(mem, sites, edits)
    decreases |edits|
  {
    if edits == [] then {} else
      var (m, s) := AfterEdit(mem, sites, edits[0]);
      var rest := Spoiled(m, s, edits[1..]);
      match edits[0]
      case Set(_) => rest
      case Delete(k) => if LastSite(sites, sites[k].addr) == k then {sites[k].addr} + rest else rest
  }

  /** After any run of edits, masking gives the code back with INT3 at exactly those addresses. */
  lemma {:induction false} EditsThenMask(mem: seq<Byte>, sites: seq<Site>, edits: seq<Edit>, a: nat)
    requires Armed(mem, sites) && OldestHasByte(sites) && CanEditAll(mem, sites, edits) && a < |mem|
    ensures var (m, s) := AfterEdits(mem, sites, edits);
      && Armed(m, s) && OldestHasByte(s) && |m| == |mem|
      && Mask(m, s)[a] == if a in Spoiled(mem, sites, edits) then INT3 else Mask(mem, sites)[a]
    decreases |edits|
  {
    if edits != [] {
      hide Armed, OldestHasByte, Mask, LastSite;
      var (m, s) := AfterEdit(mem, sites, edits[0]);
      match edits[0] {
        case Set(b) => SetKeepsMask(mem, sites, b);
        case Delete(k) =>
          ArmedIn(mem, sites, k);
          DeleteSpoils(mem, sites, k);
      }
      EditsThenMask(m, s, edits[1..], a);
    }
  }

  lemma ArmedIn(mem: seq<Byte>, sites: seq<Site>, k: nat)
    requires Armed(mem, sites) && k < |sites|
    ensures sites[k].addr < |mem|
  {
  }

  /** From a fresh list: any breakpoints set and deleted, and then masked, leave the code as it was if
      and only if no deletion removed the oldest breakpoint at an address with another byte. */
  lemma EditsRestore(orig: seq<Byte>, edits: seq<Edit>)
    requires CanEditAll(orig, [], edits)
    ensures var (m, s) := AfterEdits(orig, [], edits);
      Mask(m, s) == orig <==> forall a :: a in Spoiled(orig, [], edits) && a < |orig| ==> orig[a] == INT3
  {
    hide AfterEdits, Spoiled, CanEditAll;
    var (m, s) := AfterEdits(orig, [], edits);
    assert Armed(orig, []) && OldestHasByte([]) && Mask(orig, []) == orig;
    if orig != [] {
      EditsThenMask(orig, [], edits, 0);
    } else {
      EditsLength(orig, [], edits);
    }
    forall a | 0 <= a < |orig|
      ensures Mask(m, s)[a] == if a in Spoiled(orig, [], edits) then INT3 else orig[a]
    {
      EditsThenMask(orig, [], edits, a);
    }
    if Mask(m, s) == orig {
      assert forall a :: 0 <= a < |orig| ==> Mask(m, s)[a] == orig[a];
    }
  }

  lemma {:induction false} EditsLength(mem: seq<Byte>, sites: seq<Site>, edits: seq<Edit>)
    requires CanEditAll(mem, sites, edits)
    ensures |AfterEdits(mem, sites, edits).0| == |mem|
    decreases |edits|
  {
    if edits != [] {
      var (m, s) := AfterEdit(mem, sites, edits[0]);
      EditsLength(m, s, edits[1..]);
    }
  }

  /** One deletion among breakpoints at different addresses. */
  lemma DeleteThenMask(orig: seq<Byte>, mem: seq<Byte>, sites: seq<Site>, k: nat)
    requires ArmedOver(orig, mem, sites) && k < |sites|
    ensures Mask(mem, Deleted(sites, k)) == orig <==> sites[k].ori == INT3
  {
    hide Mask;
    MaskRestores(orig, mem, sites);
    forall i | 0 <= i < |sites|
      ensures LastSite(sites, sites[i].addr) == i
    {
      LastSiteIs(sites, sites[i].addr, i);
    }
    DeleteSpoils(mem, sites, k);
    var a := sites[k].addr;
    assert orig[a := INT3][a] == INT3;
    assert orig[a] == INT3 ==> orig[a := INT3] == orig;
  }

  /** The same of the pool: after delete_breakpoint of a breakpoint, the code comes back if and only
      if that breakpoint had saved INT3. */
  lemma PoolDeleteThenMask(orig: seq<Byte>, mem: seq<Byte>, pool: seq<Node>, used: seq<nat>, k: nat)
    requires ArmedOver(orig, mem, Sites(pool, used)) && k < |used|
    requires used[k] < |pool| && pool[used[k]].use.CodeAt?
    ensures Mask(mem, SitesWithout(pool, used, k)) == orig <==> pool[used[k]].oriByte == INT3
  {
    hide Mask, Sites, ArmedOver;
    SitesAround(pool, used, k);
    var front, back := Sites(pool, used[..k]), Sites(pool, used[k + 1..]);
    var s := front + [Site(pool[used[k]].use.addr, pool[used[k]].oriByte)] + back;
    DeleteThenMask(orig, mem, s, |front|);
    assert Deleted(s, |front|) == front + back;
  }

  /** Set a breakpoint and delete it: INT3 stays in the code. */
  lemma SetThenDelete(orig: seq<Byte>, a: nat)
    requires a < |orig|
    ensures CanEditAll(orig, [], [Set(a), Delete(0)])
    ensures AfterEdits(orig, [], [Set(a), Delete(0)]) == (orig[a := INT3], [])
  {
    var edits := [Set(a), Delete(0)];
    assert edits[1..] == [Delete(0)] && edits[1..][1..] == [];
    var s := [Site(a, orig[a])] + [];
    assert Deleted(s, 0) == [];
    assert AfterEdits(orig[a := INT3], s, [Delete(0)]) == (orig[a := INT3], []);
  }

  //// Masking, then resuming

  /** Two breakpoints may share an address only if the byte there was INT3 to begin with. */
  predicate NoRealDuplicates(sites: seq<Site>) {
    forall i, j :: 0 <= i < |sites| && 0 <= j < |sites| && i != j && sites[i].addr == sites[j].addr ==>
      sites[i].ori == INT3
  }

  /** Masking and then resuming always re-arms the same code ... */
  lemma MaskResumeMemory(mem: seq<Byte>, sites: seq<Site>)
    requires Armed(mem, sites)
    ensures Resume(Mask(mem, sites), sites).0 == mem
  {
    ResumeAt(Mask(mem, sites), sites);
    forall a | 0 <= a < |mem|
      ensures Resume(Mask(mem, sites), sites).0[a] == mem[a]
    {
      MaskAt(mem, sites, a);
    }
  }

  /** What masking and resuming saves for a site. */
  lemma SavedFor(mem: seq<Byte>, sites: seq<Site>, i: nat)
    requires Armed(mem, sites) && i < |sites|
    ensures 0 <= LastSite(sites, sites[i].addr) < |sites|
    ensures Resume(Mask(mem, sites), sites).1[i] ==
      Site(sites[i].addr, if Repeated(sites, i) then INT3 else sites[LastSite(sites, sites[i].addr)].ori)
  {
    hide Mask, Resume, Repeated;
    ResumeAt(Mask(mem, sites), sites);
    MaskAt(mem, sites, sites[i].addr);
  }

  lemma SingleSaved(mem: seq<Byte>, sites: seq<Site>, i: nat)
    requires Armed(mem, sites) && NoRealDuplicates(sites) && i < |sites|
    ensures Resume(Mask(mem, sites), sites).1[i] == sites[i]
  {
    hide Mask, Resume;
    SavedFor(mem, sites, i);
  }

  lemma SavedSingle(mem: seq<Byte>, sites: seq<Site>, i: nat, j: nat)
    requires Armed(mem, sites) && Resume(Mask(mem, sites), sites).1 == sites
    requires i < |sites| && j < |sites| && i != j && sites[i].addr == sites[j].addr
    ensures sites[i].ori == INT3
  {
    hide Mask, Resume;
    SavedFor(mem, sites, i);
    var l := LastSite(sites, sites[i].addr);
    SavedFor(mem, sites, l);
    assert l >= i && l >= j;
    assert Repeated(sites, l);
  }

  /** ... and gives back the saved bytes exactly when no two breakpoints really share an address. */
  lemma MaskResumeSaved(mem: seq<Byte>, sites: seq<Site>)
    requires Armed(mem, sites)
    ensures Resume(Mask(mem, sites), sites).1 == sites <==> NoRealDuplicates(sites)
  {
    hide Mask, Resume, Armed;
    if NoRealDuplicates(sites) {
      forall i | 0 <= i < |sites|
        ensures Resume(Mask(mem, sites), sites).1[i] == sites[i]
      {
        SingleSaved(mem, sites, i);
      }
    }
    if Resume(Mask(mem, sites), sites).1 == sites {
      forall i, j | 0 <= i < |sites| && 0 <= j < |sites| && i != j && sites[i].addr == sites[j].addr
        ensures sites[i].ori == INT3
      {
        SavedSingle(mem, sites, i, j);
      }
    }
  }

  //// Running into a breakpoint

  /** When a breakpoint is hit its byte goes back, one instruction is run, and every breakpoint is
      resumed.  That keeps the saved bytes exactly when all the others had saved INT3: they save the
      INT3 that is still in the code. */
  lemma HitThenResume(orig: seq<Byte>, mem: seq<Byte>, sites: seq<Site>, k: nat)
    requires ArmedOver(orig, mem, sites) && k < |sites|
    ensures sites[k].addr < |mem|
    ensures var (m, saved) := Resume(mem[sites[k].addr := sites[k].ori], sites);
      && m == mem
      && (saved == sites <==> forall i :: 0 <= i < |sites| && i != k ==> sites[i].ori == INT3)
  {
    hide Resume;
    var hit := mem[sites[k].addr := sites[k].ori];
    ResumeAt(hit, sites);
    var (m, saved) := Resume(hit, sites);
    forall i | 0 <= i < |sites|
      ensures saved[i] == if i == k then sites[k] else Site(sites[i].addr, INT3)
    {
      assert !Repeated(sites, i);
    }
    forall a | 0 <= a < |mem|
      ensures m[a] == mem[a]
    {
      if a == sites[k].addr {
        LastSiteIs(sites, a, k);
      }
    }
    if saved == sites {
      assert forall i :: 0 <= i < |sites| && i != k ==> saved[i].ori == INT3;
    }
  }

  /** Setting a breakpoint twice at one address saves INT3 the second time.  The first mask still
      restores the code, but the resume after it saves INT3 as the older node's byte too, and the
      next mask leaves INT3 in the code. */
  lemma TwiceAtOneAddress(orig: seq<Byte>, a: nat)
    requires a < |orig|
    ensures var (mem, sites) := SetAll(orig, [], [a, a]);
      var (mem2, sites2) := Resume(orig, sites);
      Mask(mem, sites) == orig && |mem2| == |orig| && Mask(mem2, sites2)[a] == INT3
  {
    hide Mask, Resume, SetAll;
    SetPair(orig, a);
    MaskPair(orig[a := INT3], a, INT3, orig[a]);
    assert orig[a := INT3][a := orig[a]] == orig;
    ResumePair(orig, a, INT3, orig[a]);
    MaskPair(orig[a := INT3], a, orig[a], INT3);
  }

  lemma SetPair(orig: seq<Byte>, a: nat)
    requires a < |orig|
    ensures SetAll(orig, [], [a, a]) == (orig[a := INT3], [Site(a, INT3), Site(a, orig[a])])
  {
    hide SetAll;
    var mem, one := orig[a := INT3], [Site(a, orig[a])];
    SetFirst(orig, [], [a, a]);
    assert [a, a][1..] == [a] && one + [] == one;
    SetFirst(mem, one, [a]);
    assert mem[a := INT3] == mem && [a][1..] == [];
    SetFirst(mem, [Site(a, INT3)] + one, []);
    assert [Site(a, INT3)] + one == [Site(a, INT3), Site(a, orig[a])];
  }

  lemma SetFirst(mem: seq<Byte>, sites: seq<Site>, addrs: seq<nat>)
    ensures SetAll(mem, sites, addrs) ==
      if addrs == [] then (mem, sites)
      else SetAll(Poke(mem, addrs[0], INT3), [Site(addrs[0], Peek(mem, addrs[0]))] + sites, addrs[1..])
  {
  }

  lemma MaskPair(mem: seq<Byte>, a: nat, x: Byte, y: Byte)
    requires a < |mem|
    ensures Mask(mem, [Site(a, x), Site(a, y)]) == mem[a := y]
  {
    hide Mask;
    MaskFirst(mem, [Site(a, x), Site(a, y)]);
    assert [Site(a, x), Site(a, y)][1..] == [Site(a, y)];
    MaskFirst(mem[a := x], [Site(a, y)]);
    assert [Site(a, y)][1..] == [];
    MaskFirst(mem[a := y], []);
    assert mem[a := x][a := y] == mem[a := y];
  }

  lemma MaskFirst(mem: seq<Byte>, sites: seq<Site>)
    ensures Mask(mem, sites) == if sites == [] then mem else Mask(Poke(mem, sites[0].addr, sites[0].ori), sites[1..])
  {
  }

  lemma ResumePair(mem: seq<Byte>, a: nat, x: Byte, y: Byte)
    requires a < |mem|
    ensures Resume(mem, [Site(a, x), Site(a, y)]) == (mem[a := INT3], [Site(a, mem[a]), Site(a, INT3)])
  {
    hide Resume;
    var mem1 := mem[a := INT3];
    assert mem1[a := INT3] == mem1 && mem1[a] == INT3;
    ResumeFirst(mem, [Site(a, x), Site(a, y)]);
    assert [Site(a, x), Site(a, y)][1..] == [Site(a, y)];
    ResumeFirst(mem1, [Site(a, y)]);
    assert [Site(a, y)][1..] == [];
    ResumeFirst(mem1, []);
    assert [Site(a, INT3)] + [] == [Site(a, INT3)];
    assert [Site(a, mem[a])] + [Site(a, INT3)] == [Site(a, mem[a]), Site(a, INT3)];
  }

  lemma ResumeFirst(mem: seq<Byte>, sites: seq<Site>)
    ensures Resume(mem, sites) ==
      if sites == [] then (mem, []) else
        var (m, rest) := Resume(Poke(mem, sites[0].addr, INT3), sites[1..]);
        (m, [Site(sites[0].addr, Peek(mem, sites[0].addr))] + rest)
  {
  }
}
