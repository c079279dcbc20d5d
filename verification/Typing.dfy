/** The typing game over its intrusive list (game/src/typing/effect.c), proved to take the steps of
    the state machine in TypingRules. */
module Typing {
  import opened PoolLists
  import opened TypingRules
  import opened TypingList
  import opened TypingSchedule

  function Inserted(pool: seq<Node>, prev: int, next: int, obj: nat): (r: seq<Node>)
    requires obj < |pool|
    ensures |r| == |pool|
  {
    var p := pool[obj := pool[obj].(prev := prev, next := next)];
    var q := if 0 <= prev < |p| then p[prev := p[prev].(next := obj)] else p;
    if 0 <= next < |q| then q[next := q[next].(prev := obj)] else q
  }

  lemma CreatedIs(st: State, y: int, text: nat)
    requires WellFormed(st) && text < 26 && |st.letters| < SIZE
    ensures Enabled(st, Create(y, text)) && WellFormed(After(st, Create(y, text)))
    ensures After(st, Create(y, text)) ==
      st.(letters := [NewLetter(y, text)] + st.letters, pressed := st.pressed[text := false], created := st.created + 1)
  {
    AfterWellFormed(st, Create(y, text));
  }

  lemma NoLetters(pool: seq<Node>, before: seq<Node>)
    ensures Letters(pool, []) == Letters(before, []) == []
  {
  }

  /** The chain is down to its sentinel exactly when every other node is live. */
  lemma ChainEnd(pool: seq<Node>, head: int, freeHead: int, live: seq<nat>, chain: seq<nat>)
    requires Whole(pool, head, freeHead, live, chain) && freeHead != NIL
    ensures 0 <= freeHead < |pool| && |chain| >= 1
    ensures pool[freeHead].next == NIL <==> |live| == SIZE
  {
    ChainNodes(pool, freeHead, chain);
  }

  lemma HeadInPool(pool: seq<Node>, head: int, freeHead: int, live: seq<nat>, chain: seq<nat>)
    requires Whole(pool, head, freeHead, live, chain) && freeHead != NIL
    ensures NIL <= head < |pool| && |pool| == SIZE + 1
  {
    LiveNodes(pool, head, live);
    assert live != [] ==> live[0] in live;
  }

  lemma LiveCount(pool: seq<Node>, head: int, freeHead: int, live: seq<nat>, chain: seq<nat>)
    requires Whole(pool, head, freeHead, live, chain)
    ensures |live| <= SIZE && |pool| == SIZE + 1
  {
  }

  lemma PushedIs(pool0: seq<Node>, after: seq<Node>, head: int, n: nat, node: Node)
    requires n < |pool0| && NIL <= head < |pool0| && head != n
    requires |after| == |pool0| && after[n] == node
    requires forall i :: 0 <= i < |pool0| && i != n && i != head ==> after[i] == pool0[i]
    requires head != NIL ==> after[head] == pool0[head].(prev := n)
    ensures after == Pushed(pool0, n, node, head)
  {
  }

  function Closed(pool: seq<Node>, node: nat): (r: seq<Node>)
    requires node < |pool|
    ensures |r| == |pool|
  {
    var prev, next := pool[node].prev, pool[node].next;
    var p := if 0 <= prev < |pool| then pool[prev := pool[prev].(next := next)] else pool;
    if 0 <= next < |p| then p[next := p[next].(prev := prev)] else p
  }

  //// The walk of update_letter_pos

  /** Of the letters `s` at the start of the tick `j` are done, and `k` of them are still there. */
  ghost predicate TickState(s: seq<Letter>, j: nat, k: nat, now: seq<Letter>) {
    j <= |s| && k == |Survivors(s[..j])| && now == Survivors(s[..j]) + s[j..]
  }

  /** One letter further: it moves and stays. */
  lemma TickStay(s: seq<Letter>, j: nat, k: nat, now: seq<Letter>, moved: seq<Letter>)
    requires TickState(s, j, k, now) && k < |now| && moved == now[k := Moved(now[k])] && !Gone(moved[k])
    ensures j < |s| && TickState(s, j + 1, k + 1, moved)
    ensures CountTop(s[..j + 1]) == CountTop(s[..j]) && CountBottom(s[..j + 1]) == CountBottom(s[..j])
  {
    var t := s[..j + 1];
    assert t[..j] == s[..j] && t[j] == s[j];
    assert s[j..] == [s[j]] + s[j + 1..];
    SurvivorsStep(t, j);
    hide Survivors, CountTop, CountBottom;
    assert moved == Survivors(s[..j]) + [Moved(s[j])] + s[j + 1..];
  }

  /** One letter further: it moves and leaves. */
  lemma TickLeave(s: seq<Letter>, j: nat, k: nat, now: seq<Letter>, moved: seq<Letter>)
    requires TickState(s, j, k, now) && k < |now| && moved == now[k := Moved(now[k])] && Gone(moved[k])
    ensures j < |s| && TickState(s, j + 1, k, moved[..k] + moved[k + 1..])
    ensures CountTop(s[..j + 1]) == CountTop(s[..j]) + (if LeftAtTop(moved[k]) then 1 else 0)
    ensures CountBottom(s[..j + 1]) == CountBottom(s[..j]) + (if LeftAtTop(moved[k]) then 0 else 1)
  {
    var t := s[..j + 1];
    assert t[..j] == s[..j] && t[j] == s[j];
    assert s[j..] == [s[j]] + s[j + 1..];
    SurvivorsStep(t, j);
    hide Survivors, CountTop, CountBottom;
    var kept := Survivors(s[..j]);
    assert moved[..k] + moved[k + 1..] == kept + s[j + 1..];
    assert kept + [] == kept;
  }

  lemma SurvivorsStep(t: seq<Letter>, j: nat)
    requires |t| == j + 1
    ensures Survivors(t) == Survivors(t[..j]) + (if Gone(Moved(t[j])) then [] else [Moved(t[j])])
    ensures CountTop(t) == CountTop(t[..j]) + (if LeftAtTop(Moved(t[j])) then 1 else 0)
    ensures CountBottom(t) == CountBottom(t[..j]) + (if LeftAtBottom(Moved(t[j])) then 1 else 0)
  {
  }

  lemma Leaves(n: Node)
    ensures Gone(LetterOf(n)) <==> Leaving(n)
    ensures LeftAtTop(LetterOf(n)) <==> n.x < 0.0
  {
  }

  lemma LiveNode(pool: seq<Node>, head: int, freeHead: int, live: seq<nat>, chain: seq<nat>, k: nat)
    requires Whole(pool, head, freeHead, live, chain) && At(live, k) != NIL
    ensures k < |live| && At(live, k) == live[k] < |pool| == SIZE + 1
    ensures pool[live[k]].next == At(live, k + 1) && pool[live[k]].prev == Before(live, k)
    ensures NIL <= pool[live[k]].next < |pool| && NIL <= pool[live[k]].prev < |pool|
    ensures Letters(pool, live)[k] == LetterOf(pool[live[k]])
  {
    assert LinkedAt(pool, live, k) && live[k] in live;
    assert k + 1 < |live| ==> live[k + 1] in live;
    assert k > 0 ==> live[k - 1] in live;
  }

  /** A node that keeps its links changes neither list. */
  lemma UpdateKeeps(pool: seq<Node>, head: int, freeHead: int, live: seq<nat>, chain: seq<nat>, k: nat, node: Node)
    requires Whole(pool, head, freeHead, live, chain) && k < |live| && live[k] < |pool|
    requires node.prev == pool[live[k]].prev && node.next == pool[live[k]].next
    ensures Whole(pool[live[k] := node], head, freeHead, live, chain)
    ensures Letters(pool[live[k] := node], live) == Letters(pool, live)[k := LetterOf(node)]
  {
    var after := pool[live[k] := node];
    LiveNodes(pool, head, live);
    ChainNodes(pool, freeHead, chain);
    LiveFrame(pool, after, head, live);
    ChainFrame(pool, after, freeHead, chain);
    assert forall i :: 0 <= i < |live| && i != k ==> live[i] != live[k];
  }

  lemma MoveKeeps(pool: seq<Node>, after: seq<Node>, head: int, freeHead: int, live: seq<nat>, chain: seq<nat>, k: nat)
    requires Whole(pool, head, freeHead, live, chain) && k < |live| && live[k] < |pool|
    requires after == Advanced(pool, live[k])
    ensures Whole(after, head, freeHead, live, chain)
    ensures Letters(after, live) == Letters(pool, live)[k := Moved(Letters(pool, live)[k])]
  {
    hide Whole;
    UpdateKeeps(pool, head, freeHead, live, chain, k, after[live[k]]);
  }

  lemma RemovedIs(pool: seq<Node>, after: seq<Node>, head: int, freeHead: int, live: seq<nat>, chain: seq<nat>, k: nat)
    requires Whole(pool, head, freeHead, live, chain) && k < |live| && live[k] < |pool|
    requires after == Closed(pool, live[k])[live[k] := Closed(pool, live[k])[live[k]].(next := freeHead)]
    ensures forall n :: n in live ==> n < |pool|
    ensures after == Removed(pool, live, k, freeHead)
    ensures live[k] == head <==> k == 0
    ensures At(Without(live, k), k) == At(live, k + 1)
    ensures At(Without(live, k), 0) == if k == 0 then At(live, 1) else head
  {
    LiveNodes(pool, head, live);
    assert LinkedAt(pool, live, k);
    assert k > 0 ==> live[0] != live[k];
    assert (k > 0 ==> live[k - 1] in live) && (k + 1 < |live| ==> live[k + 1] in live);
  }

  //// The scan of update_keypress

  lemma ScanStart(s: seq<Letter>, pressed: seq<bool>, pool: seq<Node>, head: int, freeHead: int,
                  live: seq<nat>, chain: seq<nat>)
    requires Whole(pool, head, freeHead, live, chain)
    ensures head == At(live, 0) && IsTarget(s[..0], pressed, -1)
  {
  }

  lemma Lettered(st: State, i: nat)
    requires WellFormed(st) && i < |st.letters|
    ensures st.letters[i].text < 26 == |st.pressed|
  {
  }

  lemma ScanStep(s: seq<Letter>, pressed: seq<bool>, i: nat, k: int)
    requires i < |s| && IsTarget(s[..i], pressed, k) && s[i].text < |pressed|
    ensures -1 <= k < i
    ensures var min := if k < 0 then -100.0 else s[k].x;
      IsTarget(s[..i + 1], pressed, if s[i].v > 0.0 && s[i].x > min && pressed[s[i].text] then i else k)
  {
    assert forall j :: 0 <= j < i ==> s[..i + 1][j] == s[..i][j] == s[j];
  }

  lemma ScanEnd(st: State, live: seq<nat>, i: nat, k: int)
    requires WellFormed(st) && i <= |st.letters| == |live| && At(live, i) == NIL
    requires IsTarget(st.letters[..i], st.pressed, k)
    ensures i == |live| && -1 <= k < |live|
    ensures Enabled(st, Strike(k)) && WellFormed(After(st, Strike(k)))
    ensures k < 0 ==> After(st, Strike(k)) == st
    ensures k >= 0 ==> st.letters[k].text < 26 && After(st, Strike(k)) == st.(
                        letters := st.letters[k := st.letters[k].(v := -3.0)],
                        pressed := st.pressed[st.letters[k].text := false],
                        struck := st.struck + 1)
  {
    assert st.letters[..|live|] == st.letters;
    AfterWellFormed(st, Strike(k));
  }

  /** Strikes one after the other, each at the target of its moment. */
  ghost predicate StrikeRun(states: seq<State>, targets: seq<int>) {
    && |states| == |targets| + 1
    && forall i :: 0 <= i < |targets| ==>
      targets[i] >= 0 && Enabled(states[i], Strike(targets[i])) && states[i + 1] == After(states[i], Strike(targets[i]))
  }

  predicate NoneEligible(st: State) {
    forall i :: 0 <= i < |st.letters| ==> !Eligible(st.letters[i], st.pressed)
  }

  lemma StrikeRunStart(st: State)
    ensures StrikeRun([st], [])
  {
  }

  lemma StrikeRunStep(states: seq<State>, targets: seq<int>, k: int)
    requires StrikeRun(states, targets) && k >= 0 && Enabled(states[|targets|], Strike(k))
    ensures StrikeRun(states + [After(states[|targets|], Strike(k))], targets + [k])
  {
    hide Enabled, After;
    var ss, ts := states + [After(states[|targets|], Strike(k))], targets + [k];
    forall i | 0 <= i < |ts|
      ensures ts[i] >= 0 && Enabled(ss[i], Strike(ts[i])) && ss[i + 1] == After(ss[i], Strike(ts[i]))
    {
    }
  }

  /** Strikes do not change the ages. */
  lemma {:induction false} StrikesInTime(states: seq<State>, targets: seq<int>, c: Clock, ages: seq<nat>)
    requires StrikeRun(states, targets) && InTime(states[0], c, ages) && Begun(states[0], c)
    ensures InTime(states[|targets|], c, ages) && Begun(states[|targets|], c)
    decreases |targets|
  {
    hide InTime, Begun, After;
    if targets != [] {
      var n := |targets| - 1;
      StrikesInTime(states[..n + 1], targets[..n], c, ages);
      AgesMatch(states[n], c, ages);
      StepInTime(states[n], c, ages, Strike(targets[n]));
    }
  }

  lemma NoTarget(st: State, k: int)
    requires Enabled(st, Strike(k)) && k < 0
    ensures NoneEligible(st) && After(st, Strike(k)) == st
  {
  }

  /** Where the walk is: the lists and counters at this moment, `j` letters done, `k` of them kept. */
  datatype Walk = Walk(
    pool: seq<Node>, head: int, freeHead: int, live: seq<nat>, chain: seq<nat>, hit: nat, miss: nat, j: nat, k: nat)

  ghost predicate WalkState(st: State, w: Walk) {
    && Whole(w.pool, w.head, w.freeHead, w.live, w.chain)
    && TickState(st.letters, w.j, w.k, Letters(w.pool, w.live))
    && w.hit == st.hit + CountTop(st.letters[..w.j])
    && w.miss == st.miss + CountBottom(st.letters[..w.j])
  }

  lemma WalkStart(st: State, w: Walk)
    requires Whole(w.pool, w.head, w.freeHead, w.live, w.chain) && w.j == w.k == 0
    requires st.letters == Letters(w.pool, w.live) && w.hit == st.hit && w.miss == st.miss
    ensures WalkState(st, w) && w.head == At(w.live, w.k)
  {
    var s := st.letters;
    assert s[..0] == [] && s[0..] == s && [] + s == s;
  }

  lemma WalkNode(st: State, w: Walk)
    requires WalkState(st, w) && At(w.live, w.k) != NIL
    ensures w.k < |w.live| && At(w.live, w.k) == w.live[w.k] < |w.pool|
    ensures w.pool[w.live[w.k]].next == At(w.live, w.k + 1)
    ensures NIL <= w.pool[w.live[w.k]].next < |w.pool| && NIL <= w.pool[w.live[w.k]].prev < |w.pool|
    ensures w.j < |st.letters| && Whole(w.pool, w.head, w.freeHead, w.live, w.chain)
    ensures var moved := Advanced(w.pool, w.live[w.k])[w.live[w.k]];
      NIL <= moved.next < |w.pool| && NIL <= moved.prev < |w.pool|
  {
    LiveNode(w.pool, w.head, w.freeHead, w.live, w.chain, w.k);
  }

  /** The test of the loop body. */
  predicate Leaving(n: Node) { n.x < 0.0 || n.x + 7.9 > HEIGHT }

  function Advanced(pool: seq<Node>, n: nat): (r: seq<Node>)
    requires n < |pool|
    ensures |r| == |pool|
  {
    pool[n := pool[n].(x := pool[n].x + pool[n].v)]
  }

  /** The letter moves and stays on the screen. */
  lemma WalkStay(st: State, w: Walk, pool: seq<Node>)
    requires WalkState(st, w) && At(w.live, w.k) != NIL && w.k < |w.live| && w.live[w.k] < |w.pool|
    requires pool == Advanced(w.pool, w.live[w.k]) && !Leaving(pool[w.live[w.k]])
    ensures WalkState(st, w.(pool := pool, j := w.j + 1, k := w.k + 1))
  {
    hide Whole, Letters, CountTop, CountBottom, TickState, At, Gone, LeftAtTop, LeftAtBottom, LetterOf, Survivors;
    Leaves(pool[w.live[w.k]]);
    MoveKeeps(w.pool, pool, w.head, w.freeHead, w.live, w.chain, w.k);
    LiveNode(pool, w.head, w.freeHead, w.live, w.chain, w.k);
    TickStay(st.letters, w.j, w.k, Letters(w.pool, w.live), Letters(pool, w.live));
  }

  function Unlinked(pool: seq<Node>, n: nat, freeHead: int): (r: seq<Node>)
    requires n < |pool|
  {
    Closed(pool, n)[n := Closed(pool, n)[n].(next := freeHead)]
  }

  lemma LeaveLists(w: Walk, moved: seq<Node>, pool: seq<Node>)
    requires Whole(moved, w.head, w.freeHead, w.live, w.chain) && w.k < |w.live| && w.live[w.k] < |moved|
    requires pool == Unlinked(moved, w.live[w.k], w.freeHead)
    ensures var n := w.live[w.k];
      Whole(pool, if n == w.head then At(w.live, w.k + 1) else w.head, n, Without(w.live, w.k), [n] + w.chain)
    ensures Letters(pool, Without(w.live, w.k)) == Letters(moved, w.live)[..w.k] + Letters(moved, w.live)[w.k + 1..]
    ensures At(Without(w.live, w.k), w.k) == At(w.live, w.k + 1)
  {
    hide Whole, Letters, At, Closed, Removed, Without;
    RemovedIs(moved, pool, w.head, w.freeHead, w.live, w.chain, w.k);
    RemoveKeeps(moved, w.head, w.freeHead, w.live, w.chain, w.k);
  }

  /** The letter moves off the screen: it is counted, unlinked and freed. */
  lemma WalkLeave(st: State, w: Walk, moved: seq<Node>, pool: seq<Node>)
    requires WalkState(st, w) && At(w.live, w.k) != NIL && w.k < |w.live| && w.live[w.k] < |w.pool|
    requires moved == Advanced(w.pool, w.live[w.k]) && Leaving(moved[w.live[w.k]])
    requires pool == Unlinked(moved, w.live[w.k], w.freeHead)
    ensures At(Without(w.live, w.k), w.k) == w.pool[w.live[w.k]].next
    ensures WalkState(st, Left(w, moved[w.live[w.k]].x < 0.0, pool))
  {
    hide Whole, Letters, CountTop, CountBottom, TickState, At, Gone, LeftAtTop, LeftAtBottom;
    hide LetterOf, Unlinked, Without, Survivors, Leaving, Advanced;
    var n := w.live[w.k];
    WalkNode(st, w);
    Leaves(moved[n]);
    MoveKeeps(w.pool, moved, w.head, w.freeHead, w.live, w.chain, w.k);
    LiveNode(moved, w.head, w.freeHead, w.live, w.chain, w.k);
    TickLeave(st.letters, w.j, w.k, Letters(w.pool, w.live), Letters(moved, w.live));
    LeaveLists(w, moved, pool);
  }

  function Left(w: Walk, top: bool, pool: seq<Node>): (r: Walk)
    requires w.k < |w.live| && w.live[w.k] < |w.pool|
  {
    var n := w.live[w.k];
    Walk(pool, if n == w.head then w.pool[n].next else w.head, n, Without(w.live, w.k), [n] + w.chain,
         w.hit + (if top then 1 else 0), w.miss + (if top then 0 else 1), w.j + 1, w.k)
  }

  lemma WalkEnd(st: State, w: Walk)
    requires WalkState(st, w) && At(w.live, w.k) == NIL && WellFormed(st)
    ensures Whole(w.pool, w.head, w.freeHead, w.live, w.chain)
    ensures Enabled(st, Tick) && WellFormed(After(st, Tick))
    ensures After(st, Tick) == st.(letters := Letters(w.pool, w.live), hit := w.hit, miss := w.miss)
  {
    var s := st.letters;
    AfterWellFormed(st, Tick);
    assert w.k >= |w.live|;
    assert w.j == |s| && s[..|s|] == s;
    assert Survivors(s) + [] == Survivors(s);
  }

  class TypingGame {
    const pool: array<Node>
    const letterPressed: array<bool>
    var freeHead: int
    var head: int
    var hit: nat
    var miss: nat
    ghost var live: seq<nat>      // the nodes from head
    ghost var chain: seq<nat>     // the nodes from freeHead
    ghost var created: nat
    ghost var struck: nat

    ghost predicate Valid()
      reads this, pool, letterPressed
    {
      && Whole(pool[..], head, freeHead, live, chain)
      && WellFormed(Abs())
    }

    /** The state of the game this object is in. */
    ghost function Abs(): State
      reads this, pool, letterPressed
    {
      State(Letters(pool[..], live), letterPressed[..], hit, miss, created, struck)
    }

    constructor ()
      ensures Valid() && Abs() == Start() && fresh(pool) && fresh(letterPressed)
    {
      pool := new Node[SIZE + 1](_ => Node(0.0, 0, 0, 0.0, NIL, NIL));
      letterPressed := new bool[26](_ => false);
      freeHead, head, hit, miss := NIL, NIL, 0, 0;
      live, chain, created, struck := [], [], 0, 0;
      new;
      assert letterPressed[..] == seq(26, _ => false);
      assert Letters(pool[..], live) == [];
    }

    /** The generated fly_new.  Node `ret` comes off the chain `chain0` of the pool `pool0`, which is
        the pool after its first-use linking; NIL is the failed assert of an exhausted pool. */
    method FlyNew() returns (ret: int, ghost pool0: seq<Node>, ghost chain0: seq<nat>)
      requires Valid()
      modifies pool, `freeHead
      ensures Whole(pool0, head, if ret == NIL then freeHead else ret, live, chain0)
      ensures Letters(pool0, live) == old(Letters(pool[..], live))
      ensures ret == NIL <==> |live| == SIZE
      ensures ret == NIL ==> pool[..] == pool0 && chain0 == chain
      ensures ret != NIL ==>
        && |chain0| > 1 && 0 <= ret < |pool0| && freeHead == pool0[ret].next
        && pool[..] == pool0[ret := pool0[ret].(prev := NIL, next := NIL)]
    {
      hide IsLive, IsChain, Letters, WellFormed;
      var free := freeHead;
      pool0, chain0 := pool[..], chain;
      if free == NIL {
        for i := 1 to SIZE + 1
          invariant forall k :: 0 <= k < i - 1 ==> pool[k].next == k + 1
          invariant pool[SIZE].next == NIL
        {
          pool[i - 1] := pool[i - 1].(next := i);
        }
        free := 0;
        pool0, chain0 := pool[..], seq(SIZE + 1, i => i);
        InitialChain(pool0);
        NoLetters(pool0, old(pool[..]));
      }
      ChainEnd(pool0, head, free, live, chain0);
      if pool[free].next == NIL {
        return NIL, pool0, chain0;
      }
      ret := free;
      freeHead := pool[free].next;
      pool[ret] := pool[ret].(prev := NIL, next := NIL);
    }

    /** The generated fly_insert, between two neighbours that may be NULL. */
    method FlyInsert(prev: int, next: int, obj: nat)
      requires obj < pool.Length && NIL <= prev < pool.Length && NIL <= next < pool.Length
      modifies pool
      ensures pool[..] == Inserted(old(pool[..]), prev, next, obj)
    {
      pool[obj] := pool[obj].(prev := prev);
      pool[obj] := pool[obj].(next := next);
      if prev != NIL {
        pool[prev] := pool[prev].(next := obj);
      }
      if next != NIL {
        pool[next] := pool[next].(prev := obj);
      }
    }

    /** create_new_letter, with the three answers of rand(); false is the panic of an exhausted pool. */
    method CreateNewLetter(randY: nat, randV: nat, randText: nat) returns (ok: bool)
      requires Valid()
      modifies this, pool, letterPressed
      ensures Valid()
      ensures ok <==> |old(live)| < SIZE
      ensures var step := Create(StartColumn(randY), StartText(randText));
        ok ==> Enabled(old(Abs()), step) && Abs() == After(old(Abs()), step)
      ensures !ok ==> Abs() == old(Abs())
    {
      hide Whole, IsLive, IsChain, Letters, WellFormed, Abs, Valid, After, Enabled, Pushed;
      hide StartColumn, StartSpeed, StartText;
      ghost var st, head0 := Abs(), head;
      IsReached();
      var now;
      ghost var pool0, chain0;
      var wasEmpty := head == NIL;
      now, pool0, chain0 := FlyNew();
      LiveCount(pool0, head, if now == NIL then freeHead else now, live, chain0);
      if now == NIL {
        Reached(st);
        return false;
      }
      HeadInPool(pool0, head, now, live, chain0);
      ghost var node := Node(0.0, StartColumn(randY), StartText(randText), 0.5, NIL, head0);
      NewLetterKeeps(pool0, head, now, live, chain0, node);
      if wasEmpty {
        head := now;
      } else {
        FlyInsert(NIL, head, now);
        head := now;
      }
      var text := StartText(randText);
      StartSpeedIsHalf(randV);
      pool[head] := pool[head].(x := 0.0);
      pool[head] := pool[head].(y := StartColumn(randY));
      pool[head] := pool[head].(v := StartSpeed(randV));
      pool[head] := pool[head].(text := text);
      letterPressed[text] := false;
      PushedIs(pool0, pool[..], head0, now, node);
      live, chain, created := [chain0[0]] + live, chain0[1..], created + 1;
      CreatedIs(st, StartColumn(randY), text);
      Reached(After(st, Create(StartColumn(randY), text)));
      ok := true;
    }

    /** The generated fly_remove. */
    method FlyRemove(node: nat)
      requires node < pool.Length
      requires NIL <= pool[node].prev < pool.Length && NIL <= pool[node].next < pool.Length
      modifies pool
      ensures pool[..] == Closed(old(pool[..]), node)
    {
      var prev, next := pool[node].prev, pool[node].next;
      if prev != NIL {
        pool[prev] := pool[prev].(next := next);
      }
      if next != NIL {
        pool[next] := pool[next].(prev := prev);
      }
    }

    /** The generated fly_free. */
    method FlyFree(node: nat)
      requires node < pool.Length
      modifies pool, `freeHead
      ensures freeHead == node
      ensures pool[..] == old(pool[..])[node := old(pool[node]).(next := old(freeHead))]
    {
      pool[node] := pool[node].(next := freeHead);
      freeHead := node;
    }

    /** The node a walk is at moves: in the list it is the k-th letter, and only that one, that moves by
        its speed, and the links of both lists hold as before. */
    method Advance(it: nat, ghost k: nat)
      requires Whole(pool[..], head, freeHead, live, chain) && k < |live| && it == live[k] < pool.Length
      modifies pool
      ensures pool[..] == Advanced(old(pool[..]), it)
      ensures Whole(pool[..], head, freeHead, live, chain)
      ensures Letters(pool[..], live) == old(Letters(pool[..], live))[k := Moved(old(Letters(pool[..], live))[k])]
    {
      hide Whole, Letters;
      ghost var before := pool[..];
      pool[it] := pool[it].(x := pool[it].x + pool[it].v);
      MoveKeeps(before, pool[..], head, freeHead, live, chain, k);
    }

    /** A letter that left the screen is unlinked and freed. */
    method Drop(it: nat)
      requires it < pool.Length
      requires NIL <= pool[it].prev < pool.Length && NIL <= pool[it].next < pool.Length
      modifies pool, `freeHead
      ensures pool[..] == Unlinked(old(pool[..]), it, old(freeHead)) && freeHead == it
    {
      FlyRemove(it);
      FlyFree(it);
    }

    /** update_letter_pos: the walk saves the next pointer first, so freeing the node it stands on does
        not derail it. */
    method UpdateLetterPos()
      requires Valid()
      modifies `head, `freeHead, `hit, `miss, `live, `chain, pool
      ensures Valid() && Abs() == After(old(Abs()), Tick)
    {
      hide Whole, IsLive, IsChain, Letters, Survivors, CountTop, CountBottom, WellFormed, IsTarget;
      hide WalkState, At, Without, Unlinked, Advanced, Abs, Valid, After, Enabled;
      ghost var st := Abs();
      ghost var w := Walk(pool[..], head, freeHead, live, chain, hit, miss, 0, 0);
      IsReached();
      WalkStart(st, w);
      var it := head;
      while it != NIL
        invariant WalkState(st, w) && it == At(w.live, w.k)
        invariant w == Walk(pool[..], head, freeHead, live, chain, hit, miss, w.j, w.k)
        decreases |st.letters| - w.j
      {
        WalkNode(st, w);
        var next := pool[it].next;
        Advance(it, w.k);
        ghost var moved := pool[..];
        if Leaving(pool[it]) {
          if pool[it].x < 0.0 {
            hit := hit + 1;
          } else {
            miss := miss + 1;
          }
          Drop(it);
          live, chain := Without(live, w.k), [it] + chain;
          WalkLeave(st, w, moved, pool[..]);
          if it == head {
            head := next;
          }
          w := Left(w, moved[it].x < 0.0, pool[..]);
        } else {
          WalkStay(st, w, pool[..]);
          w := w.(pool := pool[..], j := w.j + 1, k := w.k + 1);
        }
        it := next;
      }
      WalkEnd(st, w);
      Reached(After(st, Tick));
    }

    /** keyboard_event with the scan code read from the port: press_key. */
    method KeyboardEvent(code: nat)
      requires Valid()
      modifies letterPressed
      ensures Valid() && Abs() == After(old(Abs()), Interrupt(code))
      ensures letterPressed[..] == Marked(old(letterPressed[..]), code)
    {
      hide Whole, Letters, LetterCodes, IsTarget, Marked;
      ghost var st := Abs();
      for i := 0 to 26
        invariant forall j :: 0 <= j < 26 ==> letterPressed[j] == (st.pressed[j] || (j < i && LetterCodes()[j] == code))
      {
        if LetterCodes()[i] == code {
          letterPressed[i] := true;
        }
      }
      assert letterPressed[..] == AfterPress(st.pressed, code);
      PressMarks(st.pressed, code);
    }

    /** A letter typed while a letter with that text is falling: the next update_keypress finds a letter
        and strikes it. */
    method TypeLetter(code: nat, ghost i: nat) returns (found: bool, ghost k: int)
      requires Valid() && i < |Abs().letters|
      requires Abs().letters[i].v > 0.0 && Abs().letters[i].x >= 0.0 && Abs().letters[i].text == LetterOfCode(code)
      modifies pool, letterPressed, `struck
      ensures Valid() && found && struck == old(struck) + 1
      ensures var s := old(Abs()).letters;
        && 0 <= k < |s| && s[k].v > 0.0 && s[k].x >= s[i].x
        && Abs().letters == s[k := s[k].(v := -3.0)] && !letterPressed[s[k].text]
    {
      hide Valid, Enabled, After, LetterOfCode, Whole;
      IsReached();
      ghost var st := Abs();
      KeyboardEvent(code);
      found, k := UpdateKeypress();
      TypedIsStruck(st, code, i, k);
    }

    /** update_keypress: the scan, and the strike if it found a letter.  `k` is where the letter stands
        in the list. */
    method UpdateKeypress() returns (found: bool, ghost k: int)
      requires Valid()
      modifies pool, letterPressed, `struck
      ensures Enabled(old(Abs()), Strike(k)) && (found <==> k >= 0)
      ensures Valid() && Abs() == After(old(Abs()), Strike(k))
    {
      hide Whole, IsLive, IsChain, Letters, WellFormed, IsTarget, Abs, Valid, After, Enabled, Eligible;
      ghost var st := Abs();
      ghost var s, i: nat, before := st.letters, 0, pool[..];
      IsReached();
      ScanStart(s, st.pressed, before, head, freeHead, live, chain);
      k := -1;
      var it, target, min := head, NIL, -100.0;
      while it != NIL
        invariant pool[..] == before && letterPressed[..] == st.pressed && struck == st.struck
        invariant i <= |s| && it == At(live, i) && -1 <= k < i && IsTarget(s[..i], st.pressed, k)
        invariant target == (if k < 0 then NIL else live[k]) && min == (if k < 0 then -100.0 else s[k].x)
        decreases |s| - i
      {
        LiveNode(before, head, freeHead, live, chain, i);
        Lettered(st, i);
        ScanStep(s, st.pressed, i, k);
        if pool[it].v > 0.0 && pool[it].x > min && letterPressed[pool[it].text] {
          min, target, k := pool[it].x, it, i;
        }
        it, i := pool[it].next, i + 1;
      }
      ScanEnd(st, live, i, k);
      if target != NIL {
        LiveNode(before, head, freeHead, live, chain, k);
        Lettered(st, k);
        letterPressed[pool[target].text] := false;
        pool[target] := pool[target].(v := -3.0);
        UpdateKeeps(before, head, freeHead, live, chain, k, pool[target]);
        assert pool[..] == before[live[k] := pool[target]];
        struck := struck + 1;
      }
      Reached(After(st, Strike(k)));
      found := target != NIL;
    }

    /** The loop of main_loop over update_keypress: strike until no fallen letter has its key down. */
    method StrikeAll() returns (ghost states: seq<State>, ghost targets: seq<int>)
      requires Valid()
      modifies pool, letterPressed, `struck
      ensures Valid() && StrikeRun(states, targets) && states[0] == old(Abs()) && states[|targets|] == Abs()
      ensures NoneEligible(Abs())
      ensures |targets| == CountPressed(old(letterPressed[..])) - CountPressed(letterPressed[..])
    {
      hide Whole, Letters, WellFormed, IsTarget, Valid, After, Enabled, Eligible, CountPressed, StrikeRun;
      states, targets := [Abs()], [];
      StrikeRunStart(Abs());
      var found := true;
      while found
        invariant Valid() && StrikeRun(states, targets) && |states| == |targets| + 1
        invariant states[0] == old(Abs()) && states[|targets|] == Abs()
        invariant !found ==> NoneEligible(Abs())
        invariant |targets| == CountPressed(old(letterPressed[..])) - CountPressed(letterPressed[..])
        decreases CountPressed(letterPressed[..]) + (if found then 1 else 0)
      {
        ghost var st := Abs();
        ghost var k;
        found, k := UpdateKeypress();
        if found {
          StrikeUsesKey(st, k);
          StrikeRunStep(states, targets, k);
          states, targets := states + [Abs()], targets + [k];
        } else {
          NoTarget(st, k);
        }
      }
    }

    lemma IsReached()
      requires Valid()
      ensures Whole(pool[..], head, freeHead, live, chain) && WellFormed(Abs())
      ensures Abs() == State(Letters(pool[..], live), letterPressed[..], hit, miss, created, struck)
    {
    }

    /** The inner loop of main_loop: the ticks from `now0` to `target`, each with its letter and its
        move.  False is the panic of an exhausted pool, which does not happen. */
    method CatchUp(now0: nat, target: nat, ghost ages0: seq<nat>) returns (ok: bool, ghost ages: seq<nat>)
      requires Valid() && now0 <= target
      requires InTime(Abs(), Clock(now0, false), ages0) && Begun(Abs(), Clock(now0, false))
      modifies this, pool, letterPressed
      ensures ok && Valid()
      ensures InTime(Abs(), Clock(target, false), ages) && Begun(Abs(), Clock(target, false))
    {
      hide Valid, InTime, Begun, After, Enabled, Abs;
      var now := now0;
      ages := ages0;
      while now < target
        invariant Valid() && now0 <= now <= target
        invariant InTime(Abs(), Clock(now, false), ages) && Begun(Abs(), Clock(now, false))
      {
        ghost var made := now % PER_LETTER == 0;
        if now % PER_LETTER == 0 {
          var randY: nat, randV: nat, randText: nat := *, *, *;
          ghost var step := Create(StartColumn(randY), StartText(randText));
          AgesMatch(Abs(), Clock(now, false), ages);
          StepInTime(Abs(), Clock(now, false), ages, step);
          LettersAre();
          ages := AgesAfter(Abs(), ages, step);
          ok := CreateNewLetter(randY, randV, randText);
          if !ok {
            return;
          }
        }
        if now % PER_MOVE == 0 {
          AgesMatch(Abs(), Clock(now, made), ages);
          StepInTime(Abs(), Clock(now, made), ages, Tick);
          ages := AgesAfter(Abs(), ages, Tick);
          UpdateLetterPos();
        }
        now := now + 1;
      }
      ok := true;
    }

    lemma LettersAre()
      requires Valid()
      ensures |Abs().letters| == |live|
    {
    }

    /** One round of main_loop once the clock has moved on: strikes first, then the missed ticks. */
    method Round(now: nat, target: nat, ghost ages0: seq<nat>) returns (ok: bool, ghost ages: seq<nat>)
      requires Valid() && now < target
      requires InTime(Abs(), Clock(now, false), ages0) && Begun(Abs(), Clock(now, false))
      modifies this, pool, letterPressed
      ensures ok && Valid()
      ensures InTime(Abs(), Clock(target, false), ages) && Begun(Abs(), Clock(target, false))
    {
      hide Valid, InTime, Begun, After, Enabled, Abs;
      ghost var states, targets := StrikeAll();
      StrikesInTime(states, targets, Clock(now, false), ages0);
      ok, ages := CatchUp(now, target, ages0);
    }

    /** What it takes to be in the state `st`. */
    lemma Reached(st: State)
      requires Whole(pool[..], head, freeHead, live, chain) && WellFormed(st)
      requires st == State(Letters(pool[..], live), letterPressed[..], hit, miss, created, struck)
      ensures Valid() && Abs() == st
    {
    }
  }
}
