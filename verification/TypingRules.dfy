/** The typing game on values (game/src/typing/effect.c and keyboard.c): what is on the screen, the
    keys, and the score, without the linked list. */
module TypingRules {

  const HEIGHT: real := 200.0    // SCR_HEIGHT
  const SCR_WIDTH: nat := 320
  const POOL: nat := 1000        // LINKLIST_IMPL(fly, 1000)

  /** Positions and speeds are real numbers here, float in the game: multiples of one half, which a
      float holds exactly. */
  datatype Letter = Letter(x: real, y: int, text: nat, v: real)

  function Moved(l: Letter): Letter { l.(x := l.x + l.v) }

  predicate LeftAtTop(l: Letter) { l.x < 0.0 }
  predicate LeftAtBottom(l: Letter) { l.x >= 0.0 && l.x + 7.9 > HEIGHT }
  predicate Gone(l: Letter) { LeftAtTop(l) || LeftAtBottom(l) }

  /** One clock tick: every letter moves, and those that left the screen are dropped. */
  function Survivors(s: seq<Letter>): seq<Letter> {
    if s == [] then [] else
      var l := Moved(s[|s| - 1]);
      Survivors(s[..|s| - 1]) + (if Gone(l) then [] else [l])
  }

  /** How many of them leave at the top, and at the bottom. */
  function CountTop(s: seq<Letter>): nat {
    if s == [] then 0 else CountTop(s[..|s| - 1]) + (if LeftAtTop(Moved(s[|s| - 1])) then 1 else 0)
  }

  function CountBottom(s: seq<Letter>): nat {
    if s == [] then 0 else CountBottom(s[..|s| - 1]) + (if LeftAtBottom(Moved(s[|s| - 1])) then 1 else 0)
  }

  //// Keys

  /** letter_code: the scan codes of the letters a to z. */
  function LetterCodes(): (r: seq<nat>)
    ensures |r| == 26
  {
    [
      30, 48, 46, 32, 18, 33, 34, 35, 23, 36,
      37, 38, 50, 49, 24, 25, 16, 19, 31, 20,
      22, 47, 17, 45, 21, 44
    ]
  }

  /** press_key: a scan code marks its letter. */
  function AfterPress(pressed: seq<bool>, code: nat): (r: seq<bool>)
    requires |pressed| == 26
    ensures |r| == 26
  {
    seq(26, i requires 0 <= i < 26 => pressed[i] || LetterCodes()[i] == code)
  }

  /** A falling letter whose key is down. */
  predicate Eligible(l: Letter, pressed: seq<bool>) {
    l.v > 0.0 && l.x > -100.0 && l.text < |pressed| && pressed[l.text]
  }

  /** The lowest eligible letter, the first one of the list if several are equally low; or -1. */
  predicate IsTarget(s: seq<Letter>, pressed: seq<bool>, k: int) {
    && -1 <= k < |s|
    && (k == -1 ==> forall i :: 0 <= i < |s| ==> !Eligible(s[i], pressed))
    && (k >= 0 ==>
          && Eligible(s[k], pressed)
          && forall i :: 0 <= i < |s| && Eligible(s[i], pressed) ==> s[i].x < s[k].x || (s[i].x == s[k].x && k <= i))
  }

  lemma TargetUnique(s: seq<Letter>, pressed: seq<bool>, j: int, k: int)
    requires IsTarget(s, pressed, j) && IsTarget(s, pressed, k)
    ensures j == k
  {
  }

  //// The game as a state machine

  /** `created` and `struck` are not kept by the program: they count what has happened so far. */
  datatype State = State(letters: seq<Letter>, pressed: seq<bool>, hit: nat, miss: nat, created: nat, struck: nat)

  datatype Step =
    | Create(y: int, text: nat)   // create_new_letter, with what rand() chose
    | Tick                        // update_letter_pos
    | Interrupt(code: nat)        // keyboard_event
    | Strike(target: int)         // update_keypress, with the letter it finds

  function Start(): State { State([], seq(26, _ => false), 0, 0, 0, 0) }

  predicate WellFormed(st: State) {
    |st.pressed| == 26 && forall i :: 0 <= i < |st.letters| ==> st.letters[i].text < 26
  }

  predicate Enabled(st: State, step: Step) {
    && WellFormed(st)
    && match step
       case Create(_, text) => text < 26 && |st.letters| < POOL
       case Tick => true
       case Interrupt(_) => true
       case Strike(k) => IsTarget(st.letters, st.pressed, k)
  }

  /** The speed that create_new_letter computes from rand(), with an integer division. */
  function StartSpeed(r: nat): real { (r % 1000 / 2000) as real + 0.5 }

  /** It does not depend on what rand() gives. */
  lemma StartSpeedIsHalf(r: nat)
    ensures StartSpeed(r) == 0.5
  {
    assert r % 1000 < 1000;
    assert r % 1000 / 2000 == 0;
  }

  /** The column and the letter that it computes. */
  function StartColumn(r: nat): int { r % (SCR_WIDTH / 8 - 2) * 8 + 8 }

  function StartText(r: nat): (t: nat)
    ensures t < 26
  {
    r % 26
  }

  function NewLetter(y: int, text: nat): Letter { Letter(0.0, y, text, 0.5) }

  function After(st: State, step: Step): State
    requires Enabled(st, step)
  {
    match step
    case Create(y, text) =>
      st.(letters := [NewLetter(y, text)] + st.letters, pressed := st.pressed[text := false], created := st.created + 1)
    case Tick =>
      st.(letters := Survivors(st.letters),
          hit := st.hit + CountTop(st.letters),
          miss := st.miss + CountBottom(st.letters))
    case Interrupt(code) =>
      st.(pressed := AfterPress(st.pressed, code))
    case Strike(k) =>
      if k < 0 then st else
        st.(letters := st.letters[k := st.letters[k].(v := -3.0)],
            pressed := st.pressed[st.letters[k].text := false],
            struck := st.struck + 1)
  }

  lemma {:induction false} SurvivorsLettered(s: seq<Letter>)
    requires forall i :: 0 <= i < |s| ==> s[i].text < 26
    ensures forall i :: 0 <= i < |Survivors(s)| ==> Survivors(s)[i].text < 26
    decreases |s|
  {
    if s != [] {
      SurvivorsLettered(s[..|s| - 1]);
    }
  }

  lemma AfterWellFormed(st: State, step: Step)
    requires Enabled(st, step)
    ensures WellFormed(After(st, step))
  {
    hide Survivors;
    SurvivorsLettered(st.letters);
    var l := After(st, step).letters;
    if step.Create? {
      assert forall i :: 0 < i < |l| ==> l[i] == st.letters[i - 1];
    } else if step.Tick? {
      assert l == Survivors(st.letters);
    }
  }

  /** A run of the game: every step is possible where it happens. */
  predicate IsRun(states: seq<State>, steps: seq<Step>) {
    && |states| == |steps| + 1 && states[0] == Start()
    && forall i :: 0 <= i < |steps| ==> Enabled(states[i], steps[i]) && states[i + 1] == After(states[i], steps[i])
  }

  //// Every run keeps the score

  predicate OnScreen(l: Letter) {
    0.0 <= l.x && l.x + 7.9 <= HEIGHT && (l.v == 0.5 || l.v == -3.0) && l.text < 26
  }

  function CountStruck(s: seq<Letter>): nat {
    if s == [] then 0 else CountStruck(s[..|s| - 1]) + (if s[|s| - 1].v < 0.0 then 1 else 0)
  }

  /** Letters created are on the screen or scored, struck ones are still rising or scored as hits. */
  predicate ScoreKept(st: State) {
    && WellFormed(st) && (forall i :: 0 <= i < |st.letters| ==> OnScreen(st.letters[i]))
    && st.created == st.hit + st.miss + |st.letters|
    && st.struck == st.hit + CountStruck(st.letters)
    && |st.letters| <= POOL
  }

  lemma {:induction false} TickCounts(s: seq<Letter>)
    requires forall i :: 0 <= i < |s| ==> OnScreen(s[i])
    ensures |Survivors(s)| + CountTop(s) + CountBottom(s) == |s|
    ensures CountStruck(Survivors(s)) + CountTop(s) == CountStruck(s)
    ensures forall i :: 0 <= i < |Survivors(s)| ==> OnScreen(Survivors(s)[i])
    decreases |s|
  {
    if s != [] {
      var n := |s| - 1;
      TickCounts(s[..n]);
      var l := Moved(s[n]);
      assert OnScreen(s[n]);
      if !Gone(l) {
        assert (Survivors(s[..n]) + [l])[..|Survivors(s[..n])|] == Survivors(s[..n]);
      } else {
        assert Survivors(s[..n]) + [] == Survivors(s[..n]);
      }
    }
  }

  lemma {:induction false} StruckCons(l: Letter, s: seq<Letter>)
    ensures CountStruck([l] + s) == (if l.v < 0.0 then 1 else 0) + CountStruck(s)
    decreases |s|
  {
    if s == [] {
      assert [l] + s == [l] && [l][..0] == [];
      assert CountStruck([l][..0]) == 0;
    } else {
      assert ([l] + s)[..|s|] == [l] + s[..|s| - 1];
      StruckCons(l, s[..|s| - 1]);
    }
  }

  lemma {:induction false} StruckUpdate(s: seq<Letter>, k: nat, v: real)
    requires k < |s| && s[k].v >= 0.0 && v < 0.0
    ensures CountStruck(s[k := s[k].(v := v)]) == CountStruck(s) + 1
    decreases |s|
  {
    var n := |s| - 1;
    if k < n {
      assert s[k := s[k].(v := v)][..n] == s[..n][k := s[k].(v := v)];
      StruckUpdate(s[..n], k, v);
    } else {
      assert s[k := s[k].(v := v)][..n] == s[..n];
    }
  }

  lemma CreateKeepsScore(st: State, y: int, text: nat)
    requires Enabled(st, Create(y, text)) && ScoreKept(st)
    ensures ScoreKept(After(st, Create(y, text)))
  {
    StruckCons(NewLetter(y, text), st.letters);
    hide CountStruck;
    var l := [NewLetter(y, text)] + st.letters;
    forall i | 0 <= i < |l|
      ensures OnScreen(l[i])
    {
      assert i > 0 ==> l[i] == st.letters[i - 1];
    }
  }

  lemma StrikeKeepsScore(st: State, k: int)
    requires Enabled(st, Strike(k)) && ScoreKept(st)
    ensures ScoreKept(After(st, Strike(k)))
  {
    if k >= 0 {
      assert OnScreen(st.letters[k]) && Eligible(st.letters[k], st.pressed);
      StruckUpdate(st.letters, k, -3.0);
      hide CountStruck, IsTarget;
    }
  }

  lemma AllLettered(s: seq<Letter>)
    requires forall i :: 0 <= i < |s| ==> OnScreen(s[i])
    ensures forall i :: 0 <= i < |s| ==> s[i].text < 26
  {
  }

  lemma TickKeepsScore(st: State)
    requires Enabled(st, Tick) && ScoreKept(st)
    ensures ScoreKept(After(st, Tick))
  {
    hide CountStruck, CountTop, CountBottom, Survivors, OnScreen, Enabled;
    var after := After(st, Tick);
    TickCounts(st.letters);
    AllLettered(after.letters);
    assert after.created == after.hit + after.miss + |after.letters|;
    assert after.struck == after.hit + CountStruck(after.letters);
    assert |after.pressed| == 26 && |after.letters| <= POOL;
  }

  lemma StepKeepsScore(st: State, step: Step)
    requires Enabled(st, step) && ScoreKept(st)
    ensures ScoreKept(After(st, step))
  {
    match step
    case Create(y, text) =>
      CreateKeepsScore(st, y, text);
    case Tick =>
      TickKeepsScore(st);
    case Interrupt(code) =>
      assert After(st, step).letters == st.letters;
    case Strike(k) =>
      StrikeKeepsScore(st, k);
  }

  /** Conservation over every run: created = hit + miss + letters on the screen, and letters struck
      = hits + struck letters still rising.  So a hit is always a struck letter, and a miss never. */
  lemma {:induction false} EveryRunKeepsScore(states: seq<State>, steps: seq<Step>)
    requires IsRun(states, steps)
    ensures ScoreKept(states[|steps|])
    decreases |steps|
  {
    if steps != [] {
      var n := |steps| - 1;
      EveryRunKeepsScore(states[..n + 1], steps[..n]);
      StepKeepsScore(states[n], steps[n]);
    }
  }

  lemma {:induction false} StruckBound(s: seq<Letter>)
    ensures CountStruck(s) <= |s|
    decreases |s|
  {
    if s != [] {
      StruckBound(s[..|s| - 1]);
    }
  }

  /** What the counters can say: never more hits than strikes, and every letter that was not struck
      is a miss or still falling. */
  lemma ScoreBounds(states: seq<State>, steps: seq<Step>)
    requires IsRun(states, steps)
    ensures var st := states[|steps|];
      && st.hit <= st.struck <= st.hit + |st.letters|
      && st.miss + (|st.letters| - CountStruck(st.letters)) == st.created - st.struck
  {
    EveryRunKeepsScore(states, steps);
    StruckBound(states[|steps|].letters);
  }

  //// Keys and strikes, by scan code

  /** The letter of a scan code, 0 for a up to 25 for z, or -1. */
  function LetterOfCode(code: nat): (t: int)
    ensures -1 <= t < 26
  {
    match code
    case 30 => 0    // a
    case 48 => 1    // b
    case 46 => 2    // c
    case 32 => 3    // d
    case 18 => 4    // e
    case 33 => 5    // f
    case 34 => 6    // g
    case 35 => 7    // h
    case 23 => 8    // i
    case 36 => 9    // j
    case 37 => 10   // k
    case 38 => 11   // l
    case 50 => 12   // m
    case 49 => 13   // n
    case 24 => 14   // o
    case 25 => 15   // p
    case 16 => 16   // q
    case 19 => 17   // r
    case 31 => 18   // s
    case 20 => 19   // t
    case 22 => 20   // u
    case 47 => 21   // v
    case 17 => 22   // w
    case 45 => 23   // x
    case 21 => 24   // y
    case 44 => 25   // z
    case _ => -1
  }

  /** The keys after a scan code: its letter is down, the others are as they were. */
  function Marked(pressed: seq<bool>, code: nat): (r: seq<bool>)
    requires |pressed| == 26
    ensures |r| == 26
  {
    if LetterOfCode(code) >= 0 then pressed[LetterOfCode(code) := true] else pressed
  }

  lemma CodeOfLetter(code: nat, t: nat)
    requires t < 26
    ensures LetterCodes()[t] == code <==> LetterOfCode(code) == t
  {
  }

  lemma PressMarks(pressed: seq<bool>, code: nat)
    requires |pressed| == 26
    ensures AfterPress(pressed, code) == Marked(pressed, code)
  {
    forall t | 0 <= t < 26
      ensures AfterPress(pressed, code)[t] == Marked(pressed, code)[t]
    {
      CodeOfLetter(code, t);
    }
  }

  lemma InterruptMarks(st: State, code: nat)
    requires Enabled(st, Interrupt(code))
    ensures After(st, Interrupt(code)) == st.(pressed := Marked(st.pressed, code))
  {
    PressMarks(st.pressed, code);
  }

  /** Typing the letter of a falling letter and then looking for a strike always strikes one: its speed
      turns upwards, its key is used up, and of letters with the typed text none is lower. */
  lemma TypedIsStruck(st: State, code: nat, i: nat, k: int)
    requires WellFormed(st) && i < |st.letters|
    requires st.letters[i].v > 0.0 && st.letters[i].x >= 0.0 && st.letters[i].text == LetterOfCode(code)
    requires Enabled(After(st, Interrupt(code)), Strike(k))
    ensures 0 <= k < |st.letters|
    ensures var end := After(After(st, Interrupt(code)), Strike(k));
      && end.struck == st.struck + 1
      && end.letters == st.letters[k := st.letters[k].(v := -3.0)] && st.letters[k].v > 0.0
      && !end.pressed[st.letters[k].text]
      && st.letters[k].x >= st.letters[i].x
      && (st.letters[k].text == st.letters[i].text || st.pressed[st.letters[k].text])
  {
    hide LetterOfCode, AfterPress;
    InterruptMarks(st, code);
    assert Eligible(st.letters[i], Marked(st.pressed, code));
  }

  /** A new letter is not struck by a key typed before it was made, only by its own code after. */
  lemma NewLetterWaits(st: State, y: int, text: nat, code: nat)
    requires Enabled(st, Create(y, text))
    ensures var made := After(st, Create(y, text));
      && WellFormed(made)
      && !Eligible(made.letters[0], made.pressed)
      && (Eligible(made.letters[0], After(made, Interrupt(code)).pressed) <==> LetterOfCode(code) == text)
  {
    hide LetterOfCode, AfterPress;
    AfterWellFormed(st, Create(y, text));
    InterruptMarks(After(st, Create(y, text)), code);
  }

  //// Where letters start, and how long they live

  /** Columns are multiples of 8 from 8 to 304; each of them comes up, for every 38th answer of rand(). */
  lemma StartColumns(r: nat, c: int)
    ensures StartColumn(r) % 8 == 0 && 8 <= StartColumn(r) <= 304
    ensures c % 8 == 0 && 8 <= c <= 304 ==> (StartColumn(r) == c <==> r % 38 == c / 8 - 1)
    ensures c % 8 == 0 && 8 <= c <= 304 ==> StartColumn(c / 8 - 1) == c
  {
  }

  /** And letters: each of the 26, for every 26th answer. */
  lemma StartTexts(r: nat, t: nat, q: nat)
    requires t < 26
    ensures StartText(26 * q + t) == t
    ensures StartText(r) == t ==> exists p: nat :: r == 26 * p + t
  {
    if StartText(r) == t {
      assert r == 26 * (r / 26) + t;
    }
  }

  function MovedTimes(l: Letter, n: nat): Letter {
    if n == 0 then l else Moved(MovedTimes(l, n - 1))
  }

  lemma {:induction false} PositionAfter(l: Letter, n: nat)
    ensures MovedTimes(l, n) == l.(x := l.x + n as real * l.v)
    decreases n
  {
    if n > 0 {
      PositionAfter(l, n - 1);
      var m := (n - 1) as real;
      assert n as real == m + 1.0;
      OneMoreTime(m, l.v);
    }
  }

  lemma OneMoreTime(m: real, v: real)
    ensures (m + 1.0) * v == m * v + v
  {
  }

  /** A letter that is never struck is on the screen for 384 moves, and the 385th is a miss. */
  lemma FallsFor384(y: int, text: nat, n: nat)
    ensures n <= 384 ==> !Gone(MovedTimes(NewLetter(y, text), n))
    ensures n == 385 ==> LeftAtBottom(MovedTimes(NewLetter(y, text), n))
  {
    PositionAfter(NewLetter(y, text), n);
    var x := n as real;
    assert n <= 384 ==> x <= 384.0;
    assert n == 385 ==> x == 385.0;
  }

  /** A letter struck at height `x` rises three at a time, and its first move above the top is a hit. */
  lemma RisesOut(l: Letter, n: nat)
    requires l.v == -3.0 && 0.0 <= l.x && l.x + 7.9 <= HEIGHT
    ensures var m := MovedTimes(l, n);
      (LeftAtTop(m) <==> 3.0 * n as real > l.x) && !LeftAtBottom(m)
  {
    PositionAfter(l, n);
    assert n as real >= 0.0;
  }

  lemma {:induction false} TickConcat(s: seq<Letter>, t: seq<Letter>)
    ensures Survivors(s + t) == Survivors(s) + Survivors(t)
    ensures CountTop(s + t) == CountTop(s) + CountTop(t)
    ensures CountBottom(s + t) == CountBottom(s) + CountBottom(t)
    decreases |t|
  {
    if t == [] {
      assert s + t == s && Survivors(s) + [] == Survivors(s);
    } else {
      var n := |t| - 1;
      assert (s + t)[..|s + t| - 1] == s + t[..n] && (s + t)[|s + t| - 1] == t[n];
      TickConcat(s, t[..n]);
      var last := if Gone(Moved(t[n])) then [] else [Moved(t[n])];
      assert (Survivors(s) + Survivors(t[..n])) + last == Survivors(s) + (Survivors(t[..n]) + last);
    }
  }

  /** In any list a tick moves each letter, drops it exactly when that takes it off the screen, and then
      counts it once, at the end it left by. */
  lemma TickAround(s: seq<Letter>, l: Letter, t: seq<Letter>)
    ensures var kept := if Gone(Moved(l)) then [] else [Moved(l)];
      Survivors(s + [l] + t) == Survivors(s) + kept + Survivors(t)
    ensures CountTop(s + [l] + t) == CountTop(s) + (if LeftAtTop(Moved(l)) then 1 else 0) + CountTop(t)
    ensures CountBottom(s + [l] + t) == CountBottom(s) + (if LeftAtBottom(Moved(l)) then 1 else 0) + CountBottom(t)
  {
    TickConcat(s + [l], t);
    TickConcat(s, [l]);
    TickOne(l);
  }

  lemma TickOne(l: Letter)
    ensures Survivors([l]) == if Gone(Moved(l)) then [] else [Moved(l)]
    ensures CountTop([l]) == (if LeftAtTop(Moved(l)) then 1 else 0)
    ensures CountBottom([l]) == (if LeftAtBottom(Moved(l)) then 1 else 0)
  {
    assert [l][..0] == [];
    assert Survivors([]) == [] && CountTop([]) == 0 && CountBottom([]) == 0;
  }

  //// The loop of main_loop over update_keypress ends

  function CountPressed(p: seq<bool>): nat {
    if p == [] then 0 else (if p[0] then 1 else 0) + CountPressed(p[1..])
  }

  lemma {:induction false} PressedUpdate(p: seq<bool>, k: nat)
    requires k < |p| && p[k]
    ensures CountPressed(p[k := false]) == CountPressed(p) - 1
    decreases |p|
  {
    if k == 0 {
      assert p[0 := false][1..] == p[1..];
    } else {
      assert p[k := false][1..] == p[1..][k - 1 := false];
      PressedUpdate(p[1..], k - 1);
    }
  }

  /** Each successful update_keypress uses up one pressed key. */
  lemma StrikeUsesKey(st: State, k: int)
    requires Enabled(st, Strike(k)) && k >= 0
    ensures CountPressed(After(st, Strike(k)).pressed) == CountPressed(st.pressed) - 1
  {
    PressedUpdate(st.pressed, st.letters[k].text);
  }
}
