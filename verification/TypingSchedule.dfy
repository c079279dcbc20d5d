/** The clock of the typing game's main loop (game/src/typing/game.c:54-70), and why its pool of
    letters is never exhausted. */
module TypingSchedule {
  import opened TypingRules

  const HZ: nat := 100
  const CHARACTER_PER_SECOND: nat := 3
  const UPDATE_PER_SECOND: nat := 100

  const PER_LETTER: nat := HZ / CHARACTER_PER_SECOND
  const PER_MOVE: nat := HZ / UPDATE_PER_SECOND

  /** Where the main loop is: the clock tick it works on, and whether its letter has been made. */
  datatype Clock = Clock(now: nat, made: bool)

  /** What the loop may do next.  Interrupts and strikes may come at any time. */
  predicate Due(c: Clock, step: Step) {
    match step
    case Create(_, _) => c.now % PER_LETTER == 0 && !c.made
    case Tick => c.now % PER_LETTER == 0 ==> c.made
    case Interrupt(_) => true
    case Strike(_) => true
  }

  function AfterDue(c: Clock, step: Step): Clock {
    match step
    case Create(_, _) => Clock(c.now, true)
    case Tick => Clock(c.now + 1, false)
    case Interrupt(_) => c
    case Strike(_) => c
  }

  /** What a step needs apart from room in the pool. */
  predicate Offered(st: State, step: Step) {
    && (step.Create? ==> step.text < 26)
    && (step.Strike? ==> IsTarget(st.letters, st.pressed, step.target))
  }

  /** Any interleaving of the main loop with interrupts and strikes.  Nothing is said here about the
      pool: where it has no room for a letter the next state may be anything. */
  predicate IsScheduled(states: seq<State>, clocks: seq<Clock>, steps: seq<Step>) {
    && |states| == |clocks| == |steps| + 1 && states[0] == Start() && clocks[0] == Clock(0, false)
    && forall i :: 0 <= i < |steps| ==>
      && Due(clocks[i], steps[i]) && clocks[i + 1] == AfterDue(clocks[i], steps[i])
      && Offered(states[i], steps[i])
      && (Enabled(states[i], steps[i]) ==> states[i + 1] == After(states[i], steps[i]))
  }

  //// Ages

  /** A letter `age` moves after it was made: half a step down each time, and three up once struck. */
  predicate Aged(l: Letter, age: nat) {
    && OnScreen(l)
    && (if l.v == 0.5 then l.x == 0.5 * age as real else l.x + 3.0 * age as real <= 1345.0)
  }

  lemma AgeBound(l: Letter, age: nat)
    requires Aged(l, age)
    ensures age <= 448
  {
  }

  /** How many moves there were since the last letter was made. */
  function Phase(c: Clock): nat {
    if c.made || c.now == 0 then 0 else (c.now - 1) % PER_LETTER + 1
  }

  /** The letters of the list are at least PER_LETTER moves apart, the newest one first. */
  predicate Spaced(letters: seq<Letter>, ages: seq<nat>, base: nat) {
    && |ages| == |letters|
    && forall i :: 0 <= i < |letters| ==> Aged(letters[i], ages[i]) && ages[i] >= base + PER_LETTER * i
  }

  predicate InTime(st: State, c: Clock, ages: seq<nat>) {
    && WellFormed(st) && Spaced(st.letters, ages, Phase(c)) && (c.made ==> c.now % PER_LETTER == 0)
  }

  /** So there are never more than fourteen. */
  lemma FewLetters(letters: seq<Letter>, ages: seq<nat>, base: nat)
    requires Spaced(letters, ages, base)
    ensures |letters| <= 14
    ensures letters != [] ==> base + PER_LETTER * (|letters| - 1) <= 448
  {
    if letters != [] {
      var n := |letters| - 1;
      AgeBound(letters[n], ages[n]);
    }
  }

  //// What each step does to the ages

  function SurvivorAges(s: seq<Letter>, ages: seq<nat>): (r: seq<nat>)
    requires |ages| == |s|
    ensures |r| == |Survivors(s)|
  {
    if s == [] then [] else
      var n := |s| - 1;
      SurvivorAges(s[..n], ages[..n]) + (if Gone(Moved(s[n])) then [] else [ages[n] + 1])
  }

  lemma AgedMoved(l: Letter, age: nat)
    requires Aged(l, age) && !Gone(Moved(l))
    ensures Aged(Moved(l), age + 1)
  {
    assert (age + 1) as real == age as real + 1.0;
  }

  lemma AppendSpaced(s: seq<Letter>, ages: seq<nat>, base: nat, l: Letter, age: nat)
    requires Spaced(s, ages, base) && Aged(l, age) && age >= base + PER_LETTER * |s|
    ensures Spaced(s + [l], ages + [age], base)
  {
    hide Aged;
  }

  lemma PrefixSpaced(s: seq<Letter>, ages: seq<nat>, base: nat)
    requires Spaced(s, ages, base) && s != []
    ensures var n := |s| - 1;
      Spaced(s[..n], ages[..n], base) && Aged(s[n], ages[n]) && ages[n] >= base + PER_LETTER * n
  {
    hide Aged;
  }

  lemma {:induction false} TickSpaced(s: seq<Letter>, ages: seq<nat>, base: nat)
    requires Spaced(s, ages, base)
    ensures Spaced(Survivors(s), SurvivorAges(s, ages), base + 1)
    ensures |Survivors(s)| <= |s|
    decreases |s|
  {
    if s != [] {
      hide Aged, Gone, Spaced;
      var n := |s| - 1;
      PrefixSpaced(s, ages, base);
      TickSpaced(s[..n], ages[..n], base);
      var t, a := Survivors(s[..n]), SurvivorAges(s[..n], ages[..n]);
      if !Gone(Moved(s[n])) {
        AgedMoved(s[n], ages[n]);
        Further(|t|, n);
        AppendSpaced(t, a, base + 1, Moved(s[n]), ages[n] + 1);
      } else {
        assert t + [] == t && a + [] == a;
      }
    }
  }

  lemma Further(i: nat, j: nat)
    requires i <= j
    ensures PER_LETTER * i <= PER_LETTER * j
  {
  }

  lemma CreateSpaced(l: Letter, s: seq<Letter>, ages: seq<nat>)
    requires Spaced(s, ages, PER_LETTER) && Aged(l, 0)
    ensures Spaced([l] + s, [0] + ages, 0)
  {
    hide Aged;
    var t, a := [l] + s, [0] + ages;
    forall i | 0 <= i < |t|
      ensures Aged(t[i], a[i]) && a[i] >= PER_LETTER * i
    {
      assert i > 0 ==> Aged(s[i - 1], ages[i - 1]) && ages[i - 1] >= PER_LETTER + PER_LETTER * (i - 1);
    }
  }

  lemma StrikeSpaced(s: seq<Letter>, ages: seq<nat>, base: nat, k: nat)
    requires Spaced(s, ages, base) && k < |s| && s[k].v > 0.0
    ensures Spaced(s[k := s[k].(v := -3.0)], ages, base)
  {
    assert Aged(s[k], ages[k]);
  }

  /** Before a new letter is due there have been PER_LETTER moves since the last one. */
  lemma PhaseBefore(c: Clock)
    requires !c.made && c.now % PER_LETTER == 0 && c.now > 0
    ensures Phase(c) == PER_LETTER
  {
  }

  lemma PhaseAfterTick(c: Clock)
    requires c.now % PER_LETTER == 0 ==> c.made
    requires c.made ==> c.now % PER_LETTER == 0
    ensures Phase(AfterDue(c, Tick)) == Phase(c) + 1
  {
    if !c.made {
      OneBack(c.now, c.now / PER_LETTER, c.now % PER_LETTER);
    }
  }

  lemma OneBack(n: nat, q: nat, r: nat)
    requires n == PER_LETTER * q + r && 0 < r < PER_LETTER
    ensures (n - 1) % PER_LETTER == r - 1
  {
    RemainderIs(n - 1, q, r - 1);
  }

  lemma RemainderIs(n: nat, q: nat, r: nat)
    requires n == PER_LETTER * q + r && r < PER_LETTER
    ensures n % PER_LETTER == r
  {
  }

  /** At the first tick nothing has been made yet, so the first letter needs no distance. */
  predicate Begun(st: State, c: Clock) { c.now == 0 && !c.made ==> st.letters == [] }

  function AgesAfter(st: State, ages: seq<nat>, step: Step): seq<nat>
    requires |ages| == |st.letters|
  {
    match step
    case Create(_, _) => [0] + ages
    case Tick => SurvivorAges(st.letters, ages)
    case Interrupt(_) => ages
    case Strike(_) => ages
  }

  /** Every due step is possible, and keeps the distances. */
  lemma StepInTime(st: State, c: Clock, ages: seq<nat>, step: Step)
    requires InTime(st, c, ages) && Begun(st, c) && Due(c, step) && Offered(st, step)
    ensures Enabled(st, step)
    ensures InTime(After(st, step), AfterDue(c, step), AgesAfter(st, ages, step))
    ensures Begun(After(st, step), AfterDue(c, step))
  {
    hide Aged, Survivors, SurvivorAges, Phase, IsTarget;
    FewLetters(st.letters, ages, Phase(c));
    AfterWellFormed(st, step);
    match step
    case Create(y, text) =>
      NewAged(y, text);
      if c.now > 0 {
        PhaseBefore(c);
      }
      CreateSpaced(NewLetter(y, text), st.letters, ages);
      MadePhase(AfterDue(c, step));
    case Tick =>
      TickSpaced(st.letters, ages, Phase(c));
      PhaseAfterTick(c);
    case Interrupt(code) =>
    case Strike(k) =>
      if k >= 0 {
        TargetFalls(st, k);
        StrikeSpaced(st.letters, ages, Phase(c), k);
      }
  }

  lemma MadePhase(c: Clock)
    requires c.made
    ensures Phase(c) == 0
  {
  }

  lemma NewAged(y: int, text: nat)
    requires text < 26
    ensures Aged(NewLetter(y, text), 0)
  {
  }

  lemma TargetFalls(st: State, k: nat)
    requires IsTarget(st.letters, st.pressed, k)
    ensures k < |st.letters| && st.letters[k].v > 0.0
  {
  }

  /** Over every interleaving of the main loop with interrupts and strikes the pool never runs out:
      each letter that is due can be made, and there are at most fourteen. */
  lemma {:induction false} PoolSuffices(states: seq<State>, clocks: seq<Clock>, steps: seq<Step>)
    returns (ages: seq<nat>)
    requires IsScheduled(states, clocks, steps)
    ensures IsRun(states, steps)
    ensures InTime(states[|steps|], clocks[|steps|], ages) && Begun(states[|steps|], clocks[|steps|])
    ensures |states[|steps|].letters| <= 14
    decreases |steps|
  {
    hide InTime, Due, Offered, Enabled, Begun;
    if steps == [] {
      ages := [];
      AtStart();
    } else {
      var n := |steps| - 1;
      ages := PoolSuffices(states[..n + 1], clocks[..n + 1], steps[..n]);
      AgesMatch(states[n], clocks[n], ages);
      StepInTime(states[n], clocks[n], ages, steps[n]);
      ages := AgesAfter(states[n], ages, steps[n]);
    }
    AgesMatch(states[|steps|], clocks[|steps|], ages);
  }

  lemma AgesMatch(st: State, c: Clock, ages: seq<nat>)
    requires InTime(st, c, ages)
    ensures |ages| == |st.letters| <= 14
  {
    FewLetters(st.letters, ages, Phase(c));
  }

  lemma AtStart()
    ensures InTime(Start(), Clock(0, false), []) && Begun(Start(), Clock(0, false))
  {
  }
}
