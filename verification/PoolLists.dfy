/** Sequences of pool indices: the lists that intrusive `next` pointers spell out, with -1 for NULL. */
module PoolLists {

  const NIL: int := -1

  predicate Distinct(ns: seq<nat>) {
    forall i, j :: 0 <= i < j < |ns| ==> ns[i] != ns[j]
  }

  /** The pointer to the i-th node of a list, NIL at its end. */
  function At(ns: seq<nat>, i: nat): int { if i < |ns| then ns[i] else NIL }

  /** A node leaves its place in a list. */
  function Without(ns: seq<nat>, k: nat): seq<nat>
    requires k < |ns|
  {
    ns[..k] + ns[k + 1..]
  }

  lemma WithoutDistinct(ns: seq<nat>, k: nat)
    requires k < |ns| && Distinct(ns)
    ensures Distinct(Without(ns, k))
  {
    var l := Without(ns, k);
    forall i, j | 0 <= i < j < |l|
      ensures l[i] != l[j]
    {
      assert l[i] == ns[if i < k then i else i + 1] && l[j] == ns[if j < k then j else j + 1];
    }
  }

  lemma WithoutMembers(ns: seq<nat>, k: nat)
    requires k < |ns| && Distinct(ns)
    ensures forall n :: n in Without(ns, k) <==> n in ns && n != ns[k]
  {
    var l := Without(ns, k);
    forall n | n in ns && n != ns[k]
      ensures n in l
    {
      var i :| 0 <= i < |ns| && ns[i] == n;
      assert i < k ==> l[i] == n;
      assert i > k ==> l[i - 1] == n;
    }
  }

  lemma AppendDistinct(s: seq<nat>, t: seq<nat>)
    requires Distinct(s) && Distinct(t) && forall n :: n in s ==> n !in t
    ensures Distinct(s + t)
  {
    var l := s + t;
    forall i, j | 0 <= i < j < |l|
      ensures l[i] != l[j]
    {
      if i < |s| <= j {
        assert l[i] in s && l[j] in t;
      }
    }
  }
}
