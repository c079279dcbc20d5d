/** The interrupt-driven key states of game/src/nemu-pal/hal/keyboard.c: keyboard_event runs in
    the interrupt handler, process_keys with interrupts disabled, so each is one atomic step. */
module Keyboard {

  const NR_KEYS: nat := 18

  datatype KeyState = Empty | WaitRelease | Release | Press

  /** A call of one of the two callbacks, with the index of its key. */
  datatype Callback = Pressed(key: nat) | Released(key: nat)

  /** What can happen next: an interrupt with a scan code, or a poll of process_keys. */
  datatype Step = Event(code: nat) | Poll

  /** Scan codes by key index (game/src/nemu-pal/include/hal.h:69-86). */
  const KEYCODES: seq<nat> := [
    0x48, 0x50, 0x4b, 0x4d, 0x01,
    0x1c, 0x39, 0x49, 0x51, 0x13,
    0x1e, 0x20, 0x12, 0x11, 0x10,
    0x1f, 0x21, 0x19
  ]

  predicate Pending(k: KeyState) { k.Press? || k.Release? }

  //// The steps on values

  /** What an interrupt does to the state of a key whose code it carries. */
  function KeyAfterEvent(k: KeyState, up: bool): KeyState {
    if up then Release else if k.Empty? then Press else k
  }

  function AfterEvent(s: seq<KeyState>, code: nat): (r: seq<KeyState>)
    requires |s| == NR_KEYS
    ensures |r| == NR_KEYS
  {
    seq(NR_KEYS, i requires 0 <= i < NR_KEYS =>
      if KEYCODES[i] == code % 0x80 then KeyAfterEvent(s[i], code / 0x80 % 2 == 1) else s[i])
  }

  /** The lowest pending key at or after `i`, or NR_KEYS. */
  function FirstPending(s: seq<KeyState>, i: nat): (r: nat)
    requires |s| == NR_KEYS && i <= NR_KEYS
    ensures i <= r <= NR_KEYS
    ensures r < NR_KEYS ==> Pending(s[r])
    ensures forall k :: i <= k < r ==> !Pending(s[k])
    decreases NR_KEYS - i
  {
    if i == NR_KEYS || Pending(s[i]) then i else FirstPending(s, i + 1)
  }

  /** One poll: the lowest pending key is reported and settled. */
  function AfterPoll(s: seq<KeyState>): (r: (seq<KeyState>, seq<Callback>))
    requires |s| == NR_KEYS
    ensures |r.0| == NR_KEYS
  {
    var i := FirstPending(s, 0);
    if i == NR_KEYS then (s, [])
    else if s[i].Press? then (s[i := WaitRelease], [Pressed(i)])
    else (s[i := Empty], [Released(i)])
  }

  function AfterStep(s: seq<KeyState>, step: Step): (r: (seq<KeyState>, seq<Callback>))
    requires |s| == NR_KEYS
    ensures |r.0| == NR_KEYS
  {
    match step
    case Event(code) => (AfterEvent(s, code), [])
    case Poll => AfterPoll(s)
  }

  /** A whole run from the initial state, with every callback it made, in order. */
  function Run(steps: seq<Step>): (r: (seq<KeyState>, seq<Callback>))
    ensures |r.0| == NR_KEYS
  {
    if steps == [] then (seq(NR_KEYS, _ => Empty), []) else
      var (s, log) := Run(steps[..|steps| - 1]);
      var (t, calls) := AfterStep(s, steps[|steps| - 1]);
      (t, log + calls)
  }

  //// The loops

  lemma LowestPending(s: seq<KeyState>, i: nat)
    requires |s| == NR_KEYS && i < NR_KEYS && Pending(s[i])
    requires forall k :: 0 <= k < i ==> !Pending(s[k])
    ensures FirstPending(s, 0) == i
  {
  }

  class Hal {
    const keyState: array<KeyState>
    var log: seq<Callback>       // the callbacks made so far

    ghost predicate Valid()
      reads this
    {
      keyState.Length == NR_KEYS
    }

    constructor ()
      ensures Valid() && fresh(keyState)
      ensures (keyState[..], log) == Run([])
    {
      keyState := new KeyState[NR_KEYS](_ => Empty);
      log := [];
      new;
      assert keyState[..] == seq(NR_KEYS, _ => Empty);
    }

    method KeyboardEvent(code: nat)
      requires Valid()
      modifies keyState
      ensures keyState[..] == AfterEvent(old(keyState[..]), code)
    {
      var keycode := code % 0x80;
      for i := 0 to NR_KEYS
        invariant forall k :: 0 <= k < i ==> keyState[k] == AfterEvent(old(keyState[..]), code)[k]
        invariant forall k :: i <= k < NR_KEYS ==> keyState[k] == old(keyState[k])
      {
        if KEYCODES[i] == keycode {
          if code / 0x80 % 2 == 1 {
            keyState[i] := Release;
          } else if keyState[i] == Empty {
            keyState[i] := Press;
          }
        }
      }
    }

    method ProcessKeys() returns (found: bool)
      requires Valid()
      modifies keyState, `log
      ensures keyState[..] == AfterPoll(old(keyState[..])).0
      ensures log == old(log) + AfterPoll(old(keyState[..])).1
      ensures found <==> exists k :: 0 <= k < NR_KEYS && Pending(old(keyState[..])[k])
    {
      for i := 0 to NR_KEYS
        invariant keyState[..] == old(keyState[..]) && log == old(log)
        invariant forall k :: 0 <= k < i ==> !Pending(keyState[k])
      {
        if keyState[i] == Press {
          LowestPending(keyState[..], i);
          keyState[i] := WaitRelease;
          log := log + [Pressed(i)];
          return true;
        }
        if keyState[i] == Release {
          LowestPending(keyState[..], i);
          keyState[i] := Empty;
          log := log + [Released(i)];
          return true;
        }
      }
      assert FirstPending(keyState[..], 0) == NR_KEYS;
      return false;
    }

    /** Any interleaving of interrupts and polls is the run on values. */
    method Drive(steps: seq<Step>)
      requires Valid() && (keyState[..], log) == Run([])
      modifies keyState, `log
      ensures (keyState[..], log) == Run(steps)
    {
      for n := 0 to |steps|
        invariant (keyState[..], log) == Run(steps[..n])
      {
        assert steps[..n + 1][..n] == steps[..n];
        match steps[n]
        case Event(code) =>
          KeyboardEvent(code);
          assert log + [] == log;
        case Poll =>
          var found := ProcessKeys();
      }
      assert steps[..|steps|] == steps;
    }
  }

  //// Between two presses there is a release

  /** The last callback for `key`, if any, is a press. */
  predicate LastIsPress(log: seq<Callback>, key: nat) {
    if log == [] then false
    else if log[|log| - 1].key == key then log[|log| - 1].Pressed?
    else LastIsPress(log[..|log| - 1], key)
  }

  /** A press may only be reported when the last report for the key was not a press, and a release
      settles it: what the reports of one key look like, one after the other. */
  predicate Alternates(log: seq<Callback>, key: nat) {
    if log == [] then true else
      && Alternates(log[..|log| - 1], key)
      && (log[|log| - 1] == Pressed(key) ==> !LastIsPress(log[..|log| - 1], key))
  }

  /** What holds between the state of a key and what was reported about it. */
  predicate Reported(s: seq<KeyState>, log: seq<Callback>, key: nat)
    requires |s| == NR_KEYS && key < NR_KEYS
  {
    && Alternates(log, key)
    && (LastIsPress(log, key) ==> s[key].WaitRelease? || s[key].Release?)
    && (s[key].WaitRelease? ==> LastIsPress(log, key))
  }

  lemma ReportedStep(s: seq<KeyState>, log: seq<Callback>, step: Step, key: nat)
    requires |s| == NR_KEYS && key < NR_KEYS && Reported(s, log, key)
    ensures var (t, calls) := AfterStep(s, step); Reported(t, log + calls, key)
  {
    var (t, calls) := AfterStep(s, step);
    if calls != [] {
      assert (log + calls)[..|log + calls| - 1] == log;
    } else {
      assert log + calls == log;
    }
  }

  lemma {:induction false} RunInvariant(steps: seq<Step>, key: nat)
    requires key < NR_KEYS
    ensures var (s, log) := Run(steps); Reported(s, log, key)
    decreases |steps|
  {
    if steps != [] {
      hide Reported, AfterStep;
      var n := |steps| - 1;
      RunInvariant(steps[..n], key);
      ReportedStep(Run(steps[..n]).0, Run(steps[..n]).1, steps[n], key);
    } else {
      assert !LastIsPress([], key);
    }
  }

  /** Where the last report was a press, a press is the latest report of that key. */
  lemma {:induction false} PressStandsUntilRelease(log: seq<Callback>, key: nat, i: nat)
    requires i < |log| && log[i] == Pressed(key)
    requires forall k :: i < k < |log| ==> log[k] != Released(key)
    ensures LastIsPress(log, key)
    decreases |log|
  {
    if i < |log| - 1 {
      PressStandsUntilRelease(log[..|log| - 1], key, i);
    }
  }

  lemma {:induction false} AlternatesAt(log: seq<Callback>, key: nat, j: nat)
    requires j < |log| && Alternates(log, key) && log[j] == Pressed(key)
    ensures !LastIsPress(log[..j], key)
    decreases |log|
  {
    if j < |log| - 1 {
      AlternatesAt(log[..|log| - 1], key, j);
      assert log[..|log| - 1][..j] == log[..j];
    }
  }

  /** Over every interleaving, two press callbacks for a key have a release callback between them. */
  lemma ReleaseBetweenPresses(steps: seq<Step>, key: nat, i: nat, j: nat)
    requires key < NR_KEYS && i < j < |Run(steps).1|
    requires Run(steps).1[i] == Run(steps).1[j] == Pressed(key)
    ensures exists k :: i < k < j && Run(steps).1[k] == Released(key)
  {
    var log := Run(steps).1;
    RunInvariant(steps, key);
    AlternatesAt(log, key, j);
    if forall k :: i < k < j ==> log[k] != Released(key) {
      PressStandsUntilRelease(log[..j], key, i);
    }
  }

  //// And exactly when a release has its press

  /** A break code for a key whose press was not reported: it was never pressed, or no poll came. */
  predicate EarlyBreak(s: seq<KeyState>, step: Step, key: nat)
    requires |s| == NR_KEYS && key < NR_KEYS
  {
    && step.Event? && step.code % 0x80 == KEYCODES[key] && step.code / 0x80 % 2 == 1
    && (s[key].Empty? || s[key].Press?)
  }

  predicate NoEarlyBreak(steps: seq<Step>, key: nat)
    requires key < NR_KEYS
  {
    forall n :: 0 <= n < |steps| ==> !EarlyBreak(Run(steps[..n]).0, steps[n], key)
  }

  /** Every release in the log follows a press of the key that was still standing. */
  predicate Paired(log: seq<Callback>, key: nat) {
    if log == [] then true else
      && Paired(log[..|log| - 1], key)
      && (log[|log| - 1] == Released(key) ==> LastIsPress(log[..|log| - 1], key))
  }

  /** A release that is still to be reported has no press standing. */
  predicate StrayPending(s: seq<KeyState>, log: seq<Callback>, key: nat)
    requires |s| == NR_KEYS && key < NR_KEYS
  {
    s[key].Release? && !LastIsPress(log, key)
  }

  lemma EarlyBreakLast(steps: seq<Step>, key: nat)
    requires key < NR_KEYS && steps != []
    ensures var n := |steps| - 1;
      NoEarlyBreak(steps, key) <==> NoEarlyBreak(steps[..n], key) && !EarlyBreak(Run(steps[..n]).0, steps[n], key)
  {
    hide Run, EarlyBreak;
    var n := |steps| - 1;
    assert forall m :: 0 <= m < n ==> steps[..n][..m] == steps[..m] && steps[..n][m] == steps[m];
  }

  /** One step: the pairing breaks, now or at the next report, exactly on an early break. */
  lemma PairedStep(s: seq<KeyState>, log: seq<Callback>, step: Step, key: nat)
    requires |s| == NR_KEYS && key < NR_KEYS
    requires Reported(s, log, key)
    ensures var (t, calls) := AfterStep(s, step);
      Paired(log + calls, key) && !StrayPending(t, log + calls, key)
      <==> Paired(log, key) && !StrayPending(s, log, key) && !EarlyBreak(s, step, key)
  {
    var (t, calls) := AfterStep(s, step);
    if calls != [] {
      assert (log + calls)[..|log + calls| - 1] == log;
    } else {
      assert log + calls == log;
    }
  }

  /** Over every run: all releases of a key, reported or still pending, have their press, if and only
      if no break code came for the key before its press was reported. */
  lemma {:induction false} ReleasesPaired(steps: seq<Step>, key: nat)
    requires key < NR_KEYS
    ensures var (s, log) := Run(steps);
      NoEarlyBreak(steps, key) <==> Paired(log, key) && !StrayPending(s, log, key)
    decreases |steps|
  {
    if steps != [] {
      var n := |steps| - 1;
      hide EarlyBreak, Paired, StrayPending, NoEarlyBreak, AfterStep, Reported;
      ReleasesPaired(steps[..n], key);
      EarlyBreakLast(steps, key);
      RunInvariant(steps[..n], key);
      var (s, log) := Run(steps[..n]);
      PairedStep(s, log, steps[n], key);
    }
  }

  lemma {:induction false} PressStanding(log: seq<Callback>, key: nat) returns (j: nat)
    requires LastIsPress(log, key)
    ensures j < |log| && log[j] == Pressed(key)
    ensures forall k :: j < k < |log| ==> log[k] != Released(key)
    decreases |log|
  {
    var n := |log| - 1;
    if log[n].key == key {
      j := n;
    } else {
      j := PressStanding(log[..n], key);
    }
  }

  lemma {:induction false} PairedAt(log: seq<Callback>, key: nat, i: nat)
    requires i < |log| && Paired(log, key) && log[i] == Released(key)
    ensures LastIsPress(log[..i], key)
    decreases |log|
  {
    if i < |log| - 1 {
      PairedAt(log[..|log| - 1], key, i);
      assert log[..|log| - 1][..i] == log[..i];
    }
  }

  /** So without an early break every release callback answers a press callback of its own. */
  lemma ReleaseHasPress(steps: seq<Step>, key: nat, i: nat)
    requires key < NR_KEYS && NoEarlyBreak(steps, key)
    requires i < |Run(steps).1| && Run(steps).1[i] == Released(key)
    ensures var log := Run(steps).1;
      exists j :: 0 <= j < i && log[j] == Pressed(key) && forall k :: j < k < i ==> log[k] != Released(key)
  {
    hide Run, Paired, NoEarlyBreak, LastIsPress, StrayPending;
    var log := Run(steps).1;
    ReleasesPaired(steps, key);
    PairedAt(log, key, i);
    var j := PressStanding(log[..i], key);
    assert log[j] == Pressed(key);
  }

  //// Draining

  function CountPending(s: seq<KeyState>): nat {
    if s == [] then 0 else (if Pending(s[0]) then 1 else 0) + CountPending(s[1..])
  }

  lemma {:induction false} CountUpdate(s: seq<KeyState>, i: nat, k: KeyState)
    requires i < |s| && Pending(s[i]) && !Pending(k)
    ensures CountPending(s[i := k]) == CountPending(s) - 1
    decreases |s|
  {
    if i > 0 {
      assert s[i := k][1..] == s[1..][i - 1 := k];
      CountUpdate(s[1..], i - 1, k);
    } else {
      assert s[0 := k][1..] == s[1..];
    }
  }

  lemma {:induction false} CountZero(s: seq<KeyState>)
    ensures CountPending(s) == 0 <==> forall i :: 0 <= i < |s| ==> !Pending(s[i])
    decreases |s|
  {
    if s != [] {
      CountZero(s[1..]);
      assert forall i :: 0 < i < |s| ==> s[i] == s[1..][i - 1];
    }
  }

  /** A poll reports exactly one key while any is pending, and none otherwise. */
  lemma PollSettlesOne(s: seq<KeyState>)
    requires |s| == NR_KEYS
    ensures var (t, calls) := AfterPoll(s);
      if CountPending(s) > 0 then CountPending(t) == CountPending(s) - 1 && |calls| == 1
      else t == s && calls == []
  {
    CountZero(s);
    var i := FirstPending(s, 0);
    if i < NR_KEYS {
      CountUpdate(s, i, if s[i].Press? then WaitRelease else Empty);
    }
  }

  function Polls(s: seq<KeyState>, n: nat): (r: (seq<KeyState>, seq<Callback>))
    requires |s| == NR_KEYS
    ensures |r.0| == NR_KEYS
  {
    if n == 0 then (s, []) else
      var (t, calls) := Polls(s, n - 1);
      var (u, more) := AfterPoll(t);
      (u, calls + more)
  }

  /** With no new events, polling reports every pending key once and then reports nothing. */
  lemma {:induction false} Drains(s: seq<KeyState>, n: nat)
    requires |s| == NR_KEYS
    ensures var (t, calls) := Polls(s, n);
      if n <= CountPending(s) then CountPending(t) == CountPending(s) - n && |calls| == n
      else CountPending(t) == 0 && |calls| == CountPending(s)
  {
    hide AfterPoll, CountPending;
    if n > 0 {
      Drains(s, n - 1);
      PollSettlesOne(Polls(s, n - 1).0);
    }
  }

  //// What is reported about a key

  /** The make code of each key; its break code is 0x80 more. */
  function ScanCode(key: nat): nat {
    match key
    case 0 => 0x48      // K_UP
    case 1 => 0x50      // K_DOWN
    case 2 => 0x4b      // K_LEFT
    case 3 => 0x4d      // K_RIGHT
    case 4 => 0x01      // K_ESCAPE
    case 5 => 0x1c      // K_RETURN
    case 6 => 0x39      // K_SPACE
    case 7 => 0x49      // K_PAGEUP
    case 8 => 0x51      // K_PAGEDOWN
    case 9 => 0x13      // K_r
    case 10 => 0x1e     // K_a
    case 11 => 0x20     // K_d
    case 12 => 0x12     // K_e
    case 13 => 0x11     // K_w
    case 14 => 0x10     // K_q
    case 15 => 0x1f     // K_s
    case 16 => 0x21     // K_f
    case 17 => 0x19     // K_p
    case _ => 0
  }

  /** The table of the code, and that no two keys share a code. */
  lemma KeycodesAre(key: nat)
    requires key < NR_KEYS
    ensures KEYCODES[key] == ScanCode(key) && 0 < ScanCode(key) < 0x80
  {
  }

  lemma ScanCodesDiffer(i: nat, j: nat)
    requires i < NR_KEYS && j < NR_KEYS && i != j
    ensures ScanCode(i) != ScanCode(j)
  {
  }

  /** The callbacks about one key. */
  function OfKey(log: seq<Callback>, key: nat): seq<Callback> {
    if log == [] then [] else
      var n := |log| - 1;
      OfKey(log[..n], key) + (if log[n].key == key then [log[n]] else [])
  }

  lemma {:induction false} OfKeyConcat(a: seq<Callback>, b: seq<Callback>, key: nat)
    ensures OfKey(a + b, key) == OfKey(a, key) + OfKey(b, key)
    decreases |b|
  {
    if b == [] {
      assert a + b == a;
    } else {
      var n := |b| - 1;
      assert (a + b)[..|a + b| - 1] == a + b[..n];
      OfKeyConcat(a, b[..n], key);
    }
  }

  /** `n` polls and nothing else. */
  function OnlyPolls(n: nat): (r: seq<Step>)
    ensures |r| == n && forall i :: 0 <= i < n ==> r[i] == Poll
  {
    seq(n, _ => Poll)
  }

  lemma RunPoll(steps: seq<Step>)
    ensures var (s, log) := Run(steps);
      Run(steps + [Poll]) == (AfterPoll(s).0, log + AfterPoll(s).1)
  {
    hide AfterPoll;
    assert (steps + [Poll])[..|steps|] == steps;
  }

  lemma {:induction false} RunPolls(steps: seq<Step>, n: nat)
    ensures var (s, log) := Run(steps);
      Run(steps + OnlyPolls(n)) == (Polls(s, n).0, log + Polls(s, n).1)
    decreases n
  {
    hide Run, AfterPoll;
    var (s, log) := Run(steps);
    if n == 0 {
      assert steps + OnlyPolls(0) == steps && log + [] == log;
    } else {
      RunPolls(steps, n - 1);
      RunPoll(steps + OnlyPolls(n - 1));
      assert steps + OnlyPolls(n) == (steps + OnlyPolls(n - 1)) + [Poll];
      var (t, calls) := Polls(s, n - 1);
      assert (log + calls) + AfterPoll(t).1 == log + (calls + AfterPoll(t).1);
    }
  }

  lemma RunEvent(steps: seq<Step>, code: nat)
    ensures Run(steps + [Event(code)]) == (AfterEvent(Run(steps).0, code), Run(steps).1)
  {
    var all := steps + [Event(code)];
    assert all[..|all| - 1] == steps;
    assert Run(steps).1 + [] == Run(steps).1;
  }

  /** What comes later depends on what came before only through its outcome. */
  lemma {:induction false} RunFrom(a: seq<Step>, b: seq<Step>, more: seq<Step>)
    requires Run(a) == Run(b)
    ensures Run(a + more) == Run(b + more)
    decreases |more|
  {
    if more == [] {
      assert a + more == a && b + more == b;
    } else {
      var n := |more| - 1;
      RunFrom(a, b, more[..n]);
      assert (a + more)[..|a + more| - 1] == a + more[..n];
      assert (b + more)[..|b + more| - 1] == b + more[..n];
    }
  }

  /** A pending key is reported by some poll, exactly once, and settles there. */
  predicate ReportedOnce(k: KeyState, t: KeyState, calls: seq<Callback>, key: nat)
    requires Pending(k)
  {
    || (t == k && calls == [])
    || (k.Press? && t.WaitRelease? && calls == [Pressed(key)])
    || (k.Release? && t.Empty? && calls == [Released(key)])
  }

  lemma {:induction false} PollsOfKey(s: seq<KeyState>, key: nat, n: nat)
    requires |s| == NR_KEYS && key < NR_KEYS && Pending(s[key])
    ensures ReportedOnce(s[key], Polls(s, n).0[key], OfKey(Polls(s, n).1, key), key)
    decreases n
  {
    hide AfterPoll, OfKey;
    if n > 0 {
      PollsOfKey(s, key, n - 1);
      PollOfKey(Polls(s, n - 1).0, key);
      OfKeyConcat(Polls(s, n - 1).1, AfterPoll(Polls(s, n - 1).0).1, key);
    } else {
      NothingOfKey(key);
    }
  }

  lemma NothingOfKey(key: nat)
    ensures OfKey([], key) == []
  {
  }

  lemma PollOfKey(s: seq<KeyState>, key: nat)
    requires |s| == NR_KEYS && key < NR_KEYS
    ensures var (t, calls) := AfterPoll(s);
      if Pending(s[key]) then ReportedOnce(s[key], t[key], OfKey(calls, key), key)
      else t[key] == s[key] && OfKey(calls, key) == []
  {
    var calls := AfterPoll(s).1;
    if calls != [] {
      assert calls[..0] == [] && OfKey([], key) == [];
    }
  }

  /** With enough polls it has been reported. */
  lemma PollsSettle(s: seq<KeyState>, key: nat, n: nat)
    requires |s| == NR_KEYS && key < NR_KEYS && Pending(s[key]) && n >= CountPending(s)
    ensures OfKey(Polls(s, n).1, key) == [if s[key].Press? then Pressed(key) else Released(key)]
  {
    hide Polls, OfKey, CountPending;
    PollsOfKey(s, key, n);
    Drains(s, n);
    CountZero(Polls(s, n).0);
  }

  lemma {:induction false} CountOneMore(s: seq<KeyState>, i: nat, k: KeyState)
    requires i < |s|
    ensures CountPending(s[i := k]) <= CountPending(s) + 1
    decreases |s|
  {
    if i > 0 {
      assert s[i := k][1..] == s[1..][i - 1 := k];
      CountOneMore(s[1..], i - 1, k);
    } else {
      assert s[0 := k][1..] == s[1..];
    }
  }

  /** An event about a key changes that key only. */
  lemma EventOfKey(s: seq<KeyState>, key: nat, up: bool)
    requires |s| == NR_KEYS && key < NR_KEYS
    ensures var code := ScanCode(key) + (if up then 0x80 else 0);
      AfterEvent(s, code) == s[key := if up then Release else if s[key].Empty? then Press else s[key]]
  {
    var code := ScanCode(key) + (if up then 0x80 else 0);
    KeycodesAre(key);
    assert code % 0x80 == ScanCode(key) && code / 0x80 % 2 == (if up then 1 else 0);
    forall i | 0 <= i < NR_KEYS && i != key
      ensures KEYCODES[i] != ScanCode(key)
    {
      KeycodesAre(i);
      ScanCodesDiffer(i, key);
    }
    hide ScanCode;
  }

  /** The make code of a key that is up is reported as a press of that key, once, and within as many
      polls as there are keys to report; whatever was pending besides. */
  lemma MakeIsReported(steps: seq<Step>, key: nat, n: nat)
    requires key < NR_KEYS && Run(steps).0[key].Empty? && n > CountPending(Run(steps).0)
    ensures OfKey(Run(steps + [Event(ScanCode(key))] + OnlyPolls(n)).1, key)
         == OfKey(Run(steps).1, key) + [Pressed(key)]
  {
    hide Run, Polls, OfKey, CountPending, AfterEvent, ScanCode;
    EventReported(steps, key, false, n);
  }

  /** And a break code as a release, in whatever state the key is. */
  lemma BreakIsReported(steps: seq<Step>, key: nat, n: nat)
    requires key < NR_KEYS && n > CountPending(Run(steps).0)
    ensures OfKey(Run(steps + [Event(ScanCode(key) + 0x80)] + OnlyPolls(n)).1, key)
         == OfKey(Run(steps).1, key) + [Released(key)]
  {
    hide Run, Polls, OfKey, CountPending, AfterEvent, ScanCode;
    EventReported(steps, key, true, n);
  }

  lemma EventReported(steps: seq<Step>, key: nat, up: bool, n: nat)
    requires key < NR_KEYS && (up || Run(steps).0[key].Empty?) && n > CountPending(Run(steps).0)
    ensures var code := ScanCode(key) + (if up then 0x80 else 0);
      OfKey(Run(steps + [Event(code)] + OnlyPolls(n)).1, key)
      == OfKey(Run(steps).1, key) + [if up then Released(key) else Pressed(key)]
  {
    hide Run, Polls, OfKey, CountPending, AfterEvent, ScanCode;
    var code := ScanCode(key) + (if up then 0x80 else 0);
    var (s, log) := Run(steps);
    RunEvent(steps, code);
    EventOfKey(s, key, up);
    var t := AfterEvent(s, code);
    CountOneMore(s, key, t[key]);
    RunPolls(steps + [Event(code)], n);
    PollsSettle(t, key, n);
    OfKeyConcat(log, Polls(t, n).1, key);
  }

  /** A make code repeated while the key is down, reported or not, changes nothing for ever. */
  lemma RepeatIgnored(steps: seq<Step>, key: nat, more: seq<Step>)
    requires key < NR_KEYS && !Run(steps).0[key].Empty?
    ensures Run(steps + [Event(ScanCode(key))] + more) == Run(steps + more)
  {
    hide Run, AfterEvent, ScanCode;
    var s := Run(steps).0;
    RunEvent(steps, ScanCode(key));
    EventOfKey(s, key, false);
    assert s[key := s[key]] == s;
    RunFrom(steps + [Event(ScanCode(key))], steps, more);
  }

  /** And a code of no key at all. */
  lemma OtherCodesIgnored(steps: seq<Step>, code: nat, more: seq<Step>)
    requires forall key :: 0 <= key < NR_KEYS ==> code % 0x80 != ScanCode(key)
    ensures Run(steps + [Event(code)] + more) == Run(steps + more)
  {
    hide Run, ScanCode;
    RunEvent(steps, code);
    forall key | 0 <= key < NR_KEYS
      ensures KEYCODES[key] != code % 0x80
    {
      KeycodesAre(key);
    }
    assert AfterEvent(Run(steps).0, code) == Run(steps).0;
    RunFrom(steps + [Event(code)], steps, more);
  }

  /** An early break: a key let go before the poll is reported as released without ever being
      reported as pressed. */
  lemma ReleaseWithoutPress()
    ensures !NoEarlyBreak([Event(0x1c), Event(0x9c), Poll], 5)
    ensures Run([Event(0x1c), Event(0x9c), Poll]).1 == [Released(5)]
  {
    var s0 := Run([]).0;
    assert [Event(0x1c)][..0] == [];
    var s1 := Run([Event(0x1c)]).0;
    assert [Event(0x1c), Event(0x9c)][..1] == [Event(0x1c)];
    var s2 := Run([Event(0x1c), Event(0x9c)]).0;
    assert [Event(0x1c), Event(0x9c), Poll][..2] == [Event(0x1c), Event(0x9c)];
    assert s1[5] == Press && s2[5] == Release;
    LowestPending(s2, 5);
  }
}
