/**
  * The `App` component: the name pools and the animated draw, the spin
  * settings, the teams with their scores and activities, the activity
  * registry and the leader effect.
  *
  * The component's `useState` slots are the fields of one `State` value,
  * held by `Sorteador` and replaced by every handler, as `setX` replaces a
  * slot; a handler's updates are applied together before the next event. The
  * three timers of a draw (the countdown interval, the spin interval and the
  * spin timeout) and the variables their closures share (`pool`, `step`,
  * `cursor`, the settings captured when the draw began) are fields of
  * `Sorteador` updated in place: a timer firing is a call of
  * `TickCountdown`, `TickSpin` or `FireTimeout`, and a cleared timer is one
  * whose call does nothing. `Math.random()` is a parameter in [0, 1) and
  * `createId()` a fresh id supplied by the caller.
  */
module App {
  import opened Text
  import opened Rand
  import opened NameUtils
  import opened Teams
  import opened DownloadUtils

  // ---------------------------------------------------------------------------
  // handleAddNames: the entries passed on to the pending list
  // ---------------------------------------------------------------------------

  /** `mergedAll.filter((name) => !prevAll.includes(name))`. */
  function NewEntries(merged: seq<string>, prev: seq<string>): (r: seq<string>)
    ensures forall x :: x in r <==> x in merged && x !in prev
    ensures |r| <= |merged|
  {
    if merged == [] then []
    else (if merged[0] in prev then [] else [merged[0]]) + NewEntries(merged[1..], prev)
  }

  lemma {:induction false} NewEntriesConcat(a: seq<string>, b: seq<string>, prev: seq<string>)
    ensures NewEntries(a + b, prev) == NewEntries(a, prev) + NewEntries(b, prev)
  {
    if a == [] {
      assert a + b == b;
    } else {
      assert (a + b)[1..] == a[1..] + b;
      NewEntriesConcat(a[1..], b, prev);
    }
  }

  lemma {:induction false} NewEntriesNone(a: seq<string>, prev: seq<string>)
    requires forall i | 0 <= i < |a| :: a[i] in prev
    ensures NewEntries(a, prev) == []
  {
    if a != [] {
      NewEntriesNone(a[1..], prev);
    }
  }

  lemma {:induction false} NewEntriesAll(a: seq<string>, prev: seq<string>)
    requires forall i | 0 <= i < |a| :: a[i] !in prev
    ensures NewEntries(a, prev) == a
  {
    if a != [] {
      NewEntriesAll(a[1..], prev);
      assert [a[0]] + a[1..] == a;
    }
  }

  /**
    * When `allNames` has unique keys, the merge only appends, and the new
    * entries handed to the pending list are exactly the appended names, each
    * with a key `allNames` did not have.
    */
  lemma AddNamesAppends(prev: seq<string>, names: seq<string>)
    requires UniqueKeys(prev)
    ensures Merged(prev, names) == prev + NewEntries(Merged(prev, names), prev)
    ensures forall x | x in NewEntries(Merged(prev, names), prev) :: Key(x) !in Keys(prev)
  {
    var m := Merged(prev, names);
    MergeKeepsUniqueCurrent(prev, names);
    var tail := m[|prev|..];
    assert m == prev + tail;
    forall j | 0 <= j < |tail|
      ensures tail[j] !in prev && Key(tail[j]) !in Keys(prev)
    {
      forall i | 0 <= i < |prev|
        ensures Key(prev[i]) != Key(tail[j])
      {
        assert m[i] == prev[i] && m[|prev| + j] == tail[j];
      }
    }
    NewEntriesConcat(prev, tail, prev);
    NewEntriesNone(prev, prev);
    NewEntriesAll(tail, prev);
    assert NewEntries(m, prev) == tail;
  }

  /** Merging one name into nothing gives that name. */
  lemma MergedSingle(name: string)
    ensures Merged([], [name]) == [name]
  {
    assert PushAll([], []) == [];
    assert Keys([]) == [];
    assert Push([], name) == [] + [name] == [name];
    assert [name][1..] == [];
    assert PushAll([name], []) == [name];
    assert PushAll([], [name]) == PushAll(Push([], name), [name][1..]);
  }

  /** `prev.filter((item) => item !== name)` keeps the keys unique. */
  lemma {:induction false} UniqueKeysWithout(s: seq<string>, x: string)
    requires UniqueKeys(s)
    ensures UniqueKeys(Without(s, x))
  {
    if s != [] {
      var tail := Without(s[1..], x);
      UniqueKeysTail(s);
      UniqueKeysWithout(s[1..], x);
      if s[0] != x {
        assert Without(s, x) == [s[0]] + tail;
        forall y | y in tail ensures Key(y) != Key(s[0]) {
          assert y in multiset(tail);
          assert y in s[1..];
        }
        UniqueKeysCons(s[0], tail);
      }
    }
  }

  /** The tail of a list with unique keys has unique keys, none of them the head's. */
  lemma UniqueKeysTail(s: seq<string>)
    requires UniqueKeys(s) && s != []
    ensures UniqueKeys(s[1..])
    ensures forall y | y in s[1..] :: Key(y) != Key(s[0])
  {
    forall i, j | 0 <= i < j < |s[1..]|
      ensures Key(s[1..][i]) != Key(s[1..][j])
    {
      assert s[1..][i] == s[i + 1] && s[1..][j] == s[j + 1];
    }
    forall y | y in s[1..] ensures Key(y) != Key(s[0]) {
      var k :| 0 <= k < |s[1..]| && s[1..][k] == y;
      assert s[k + 1] == y;
    }
  }

  /** A name whose key is new, put in front of a list with unique keys, keeps the keys unique. */
  lemma UniqueKeysCons(x: string, s: seq<string>)
    requires UniqueKeys(s)
    requires forall y | y in s :: Key(y) != Key(x)
    ensures UniqueKeys([x] + s)
  {
    var r := [x] + s;
    forall i, j | 0 <= i < j < |r|
      ensures Key(r[i]) != Key(r[j])
    {
      assert r[j] == s[j - 1] && s[j - 1] in s;
      if i > 0 {
        assert r[i] == s[i - 1];
      }
    }
  }

  // ---------------------------------------------------------------------------
  // handleDraw: the pool, the countdown, the spin and the winner
  // ---------------------------------------------------------------------------

  /** The countdown shown before the spin, one entry every 600 ms. */
  const CountdownSteps: seq<string> := ["1", "2", "3", "VALENDO!"]

  /** The pool a draw spins over: the pending names, shuffled when `shuffleBeforeDraw` is on. */
  function DrawPool(shuffle: bool, pending: seq<string>, rolls: seq<real>): (pool: seq<string>)
    requires RollsFor(rolls, |pending|)
    ensures |pool| == |pending| && multiset(pool) == multiset(pending)
    ensures !shuffle ==> pool == pending
  {
    if shuffle then Shuffled(pending, rolls) else pending
  }

  /** `pool[Math.floor(Math.random() * pool.length)]`: the winner is a name of the pool. */
  function Winner(pool: seq<string>, r: real): (w: string)
    requires 0.0 <= r < 1.0 && |pool| > 0
    ensures w in pool
  {
    pool[RandomIndex(r, |pool|)]
  }

  /** Every name of the pool can win: the random number `i / |pool|` picks the name at `i`. */
  lemma EveryNameCanWin(pool: seq<string>, name: string)
    requires name in pool
    ensures exists r | 0.0 <= r < 1.0 :: Winner(pool, r) == name
  {
    var i :| 0 <= i < |pool| && pool[i] == name;
    RandomIndexReaches(i, |pool|);
    var r := i as real / |pool| as real;
    assert Winner(pool, r) == name;
  }

  /**
    * The drawn list after `winner` is drawn: the winner at the head, once,
    * and the earlier draws after it.
    */
  function RecordWinner(drawn: seq<string>, winner: string): (r: seq<string>)
    ensures |r| >= 1 && r[0] == winner
    ensures multiset(r) == multiset(drawn)[winner := 1]
  {
    [winner] + Without(drawn, winner)
  }

  /** Recording a winner drops no other name and reorders none. */
  lemma RecordWinnerKeepsOthers(drawn: seq<string>, winner: string)
    ensures Without(RecordWinner(drawn, winner), winner) == Without(drawn, winner)
  {
    var rest := Without(drawn, winner);
    WithoutConcat([winner], rest, winner);
    assert Without([winner], winner) == [];
  }

  /** A drawn list without repeats stays without repeats. */
  lemma RecordWinnerDistinct(drawn: seq<string>, winner: string)
    requires Distinct(drawn)
    ensures Distinct(RecordWinner(drawn, winner))
  {
    var rest := Without(drawn, winner);
    DistinctWithout(drawn, winner);
    var r := RecordWinner(drawn, winner);
    forall i, j | 0 <= i < j < |r|
      ensures r[i] != r[j]
    {
      assert r[j] == rest[j - 1];
      if i > 0 {
        assert r[i] == rest[i - 1];
      }
    }
  }

  /** Drawing the same winner twice in a row leaves the list as the first draw left it. */
  lemma RecordWinnerTwice(drawn: seq<string>, winner: string)
    ensures RecordWinner(RecordWinner(drawn, winner), winner) == RecordWinner(drawn, winner)
  {
    RecordWinnerKeepsOthers(drawn, winner);
  }

  // ---------------------------------------------------------------------------
  // Spin settings: handleMinSpinChange, handleMaxSpinChange and startSpin
  // ---------------------------------------------------------------------------

  const MinSpin: real := 0.5
  const MaxSpin: real := 15.0

  /** `Number(value)` of a settings field: a number, or `NaN`. */
  datatype NumInput = Num(value: real) | NaN

  function RMin(a: real, b: real): real { if a <= b then a else b }
  function RMax(a: real, b: real): real { if a <= b then b else a }
  function IMax(a: int, b: int): int { if a <= b then b else a }

  /** `Math.min(Math.max(numeric, 0.5), 15)`: into [0.5, 15], leaving values there untouched. */
  function ClampSeconds(x: real): (r: real)
    ensures MinSpin <= r <= MaxSpin
    ensures MinSpin <= x <= MaxSpin ==> r == x
    ensures x < MinSpin ==> r == MinSpin
    ensures x > MaxSpin ==> r == MaxSpin
  {
    RMin(RMax(x, 0.5), 15.0)
  }

  /** `Math.round(x)`: the integer nearest to `x`, halves rounded up. */
  function Round(x: real): (n: int)
    ensures x - 0.5 < n as real <= x + 0.5
  {
    (x + 0.5).Floor
  }

  /** The bounds of a spin's length, in milliseconds. */
  datatype SpinRange = SpinRange(minMs: int, maxMs: int)

  /**
    * `startSpin`'s bounds from the two settings in seconds: whichever order
    * they are in, the range is ordered and starts at 500 ms or later.
    */
  function SpinBounds(a: real, b: real): (r: SpinRange)
    ensures 500 <= r.minMs <= r.maxMs
  {
    var minMs := IMax(500, Round(RMin(a, b) * 1000.0));
    SpinRange(minMs, IMax(minMs, Round(RMax(a, b) * 1000.0)))
  }

  lemma SpinBoundsSymmetric(a: real, b: real)
    ensures SpinBounds(a, b) == SpinBounds(b, a)
  {
  }

  /** `x <= y` rounds to `Round(x) <= Round(y)`. */
  lemma RoundMonotonic(x: real, y: real)
    requires x <= y
    ensures Round(x) <= Round(y)
  {
  }

  /**
    * With settings in [0.5, 15] and in order, the bounds are the two
    * settings in milliseconds, and a spin lasts at most 15 seconds.
    */
  lemma SpinBoundsOfSettings(a: real, b: real)
    requires MinSpin <= a <= b <= MaxSpin
    ensures SpinBounds(a, b) == SpinRange(Round(a * 1000.0), Round(b * 1000.0))
    ensures SpinBounds(a, b).maxMs <= 15000
  {
    RoundMonotonic(a * 1000.0, b * 1000.0);
  }

  /** The default settings, 2 and 4 seconds, spin between 2000 and 4000 ms. */
  lemma SpinBoundsDefault()
    ensures SpinBounds(2.0, 4.0) == SpinRange(2000, 4000)
  {
    SpinBoundsOfSettings(2.0, 4.0);
    assert Round(2000.0) == 2000;
    assert Round(4000.0) == 4000;
  }

  /** `Math.floor(Math.random() * (maxMs - minMs + 1)) + minMs`: a length within the bounds. */
  function SpinDuration(r: real, range: SpinRange): (ms: int)
    requires 0.0 <= r < 1.0 && range.minMs <= range.maxMs
    ensures range.minMs <= ms <= range.maxMs
  {
    RandomIndex(r, range.maxMs - range.minMs + 1) + range.minMs
  }

  /** Every length within the bounds, both ends included, can come out. */
  lemma SpinDurationReaches(range: SpinRange, ms: int)
    requires range.minMs <= ms <= range.maxMs
    ensures exists r | 0.0 <= r < 1.0 :: SpinDuration(r, range) == ms
  {
    var n := range.maxMs - range.minMs + 1;
    RandomIndexReaches(ms - range.minMs, n);
    var r := (ms - range.minMs) as real / n as real;
    assert SpinDuration(r, range) == ms;
  }

  // ---------------------------------------------------------------------------
  // handleGenerateTeams: the activities handed out
  // ---------------------------------------------------------------------------

  /** The activities dealt to the new teams: a shuffle of the registry when assignment is on, none otherwise. */
  function ActivitiesForTeams(assign: bool, registry: seq<Activity>, rolls: seq<real>): (acts: seq<Activity>)
    requires RollsFor(rolls, |registry|)
    ensures assign ==> multiset(acts) == multiset(registry)
    ensures !assign ==> acts == []
  {
    if assign && |registry| > 0 then Shuffled(registry, rolls) else []
  }

  /** The activities `handleGenerateTeams` deals out: shuffled when assignment is on and there are any. */
  method DealtActivities(assign: bool, registry: seq<Activity>, rolls: seq<real>) returns (acts: seq<Activity>)
    requires RollsFor(rolls, |registry|)
    ensures acts == ActivitiesForTeams(assign, registry, rolls)
  {
    acts := [];
    if assign && |registry| > 0 {
      acts := ShuffleArray(registry, rolls);
    }
  }

  // ---------------------------------------------------------------------------
  // The component's state
  // ---------------------------------------------------------------------------

  /**
    * The component's `useState` slots at one moment. React state is an
    * immutable snapshot: every `setX` call replaces one slot, so a handler
    * produces a new `State` from the old one.
    */
  datatype State = State(
    allNames: seq<string>, pendingNames: seq<string>, drawnNames: seq<string>,
    displayName: string, isDrawing: bool,
    shuffleBeforeDraw: bool, autoRemoveWinner: bool, teamCount: int,
    teams: seq<Team>, activities: seq<Activity>, assignActivitiesOnDraw: bool,
    minSpinSeconds: real, maxSpinSeconds: real, countdownValue: Option<string>,
    soundEnabled: bool, leaderId: Option<Id>)

  /** The state right after mounting. */
  const Initial: State := State(
    [], [], [], [], false,
    true, true, 3,
    [], [], false,
    2.0, 4.0, None,
    true, None)

  /**
    * What every handler keeps of the `useState` slots: ordered settings within
    * [0.5, 15], name lists without duplicate keys, a drawn list without
    * repeats, and a valid activity registry.
    */
  predicate ValidState(s: State) {
    && MinSpin <= s.minSpinSeconds <= s.maxSpinSeconds <= MaxSpin
    && UniqueKeys(s.allNames) && UniqueKeys(s.pendingNames) && Distinct(s.drawnNames)
    && RegistryValid(s.activities)
  }

  /**
    * Which timers of a draw are pending: none, the countdown interval
    * (`countdownRef`), or the spin interval and the spin timeout
    * (`intervalRef`, `timeoutRef`).
    */
  datatype Phase = Idle | Countdown | Spinning

  /** The settings a draw captures when it begins: its closures see these, not later changes. */
  datatype DrawConfig = DrawConfig(minSpin: real, maxSpin: real, sound: bool, autoRemove: bool)

  predicate ConfigInRange(cfg: DrawConfig) {
    MinSpin <= cfg.minSpin <= cfg.maxSpin <= MaxSpin
  }

  /**
    * The invariant of a component whose slots are `s` and whose draw is in
    * `phase` over `pool`, with `cfg` captured, at countdown `step`, spin
    * position `cursor` and spin length `spinMs`.
    */
  predicate DrawValid(s: State, phase: Phase, pool: seq<string>, cfg: DrawConfig, step: nat, cursor: nat, spinMs: int) {
    && ValidState(s)
    && (phase == Idle ==> s.countdownValue == None)
    && (phase != Idle ==> s.isDrawing && |pool| > 0 && ConfigInRange(cfg))
    && (phase == Countdown ==>
          step < |CountdownSteps| && s.countdownValue == Some(CountdownSteps[step]))
    && (phase == Spinning ==>
          && s.countdownValue == None
          && SpinBounds(cfg.minSpin, cfg.maxSpin).minMs <= spinMs
          && spinMs <= SpinBounds(cfg.minSpin, cfg.maxSpin).maxMs
          && (s.displayName == pool[cursor % |pool|] || s.displayName == []))
  }

  /**
    * The component. `state` holds the `useState` slots; the timer refs and
    * the variables the draw's closures share are fields updated in place:
    * `phase` says which timers are pending, `pool` is the snapshot the draw
    * spins over, `cfg` the settings it captured, `step` and `cursor` the
    * counters its callbacks advance and `spinMs` the length of its spin.
    * A timer firing is a call of `TickCountdown`, `TickSpin` or
    * `FireTimeout`; a cleared timer is one whose call does nothing. The
    * spin sound and the confetti are recorded as `playing` and
    * `confettiBursts`.
    */
  class Sorteador {
    var state: State
    var phase: Phase
    var pool: seq<string>
    var cfg: DrawConfig
    var step: nat
    var cursor: nat
    var spinMs: int
    var playing: bool
    var confettiBursts: nat

    /**
      * The slots are valid; a timer is pending only while `isDrawing`, over
      * a non-empty pool; the countdown shows its current step; the spin
      * shows the name under the cursor (or nothing, once that name was
      * removed) and lasts a length within the captured bounds.
      */
    predicate Valid()
      reads this
    {
      DrawValid(state, phase, pool, cfg, step, cursor, spinMs)
    }

    /** `isDrawing` is set exactly while a timer of the draw is pending. */
    predicate Synced()
      reads this
    {
      state.isDrawing == (phase != Idle)
    }

    constructor()
      ensures state == Initial && phase == Idle && !playing && confettiBursts == 0
      ensures Valid() && Synced()
    {
      state := Initial;
      phase, pool, cfg, step, cursor, spinMs := Idle, [], DrawConfig(2.0, 4.0, true, true), 0, 0, 0;
      playing, confettiBursts := false, 0;
    }

    // ---- the name pools ----

    /** `handleAddNames`: merge into `allNames`; the entries that are new there are merged into `pendingNames`. */
    method AddNames(names: seq<string>)
      requires Valid()
      modifies this`state
      ensures Valid() && Synced() == old(Synced())
      ensures var merged := Merged(old(state).allNames, names);
        var added := NewEntries(merged, old(state).allNames);
        state == old(state).(
          allNames := merged,
          pendingNames := if added == [] then old(state).pendingNames else Merged(old(state).pendingNames, added))
    {
      var prevAll := state.allNames;
      var mergedAll := MergeUniqueNames(prevAll, names);
      var added := NewEntries(mergedAll, prevAll);
      var pending := state.pendingNames;
      if |added| > 0 {
        pending := MergeUniqueNames(pending, added);
      }
      state := state.(allNames := mergedAll, pendingNames := pending);
    }

    /** Clears the three timer refs: a cleared timer never fires, so every later tick does nothing. */
    method CancelTimers()
      modifies this`phase
      ensures phase == Idle
    {
      phase := Idle;
    }

    /**
      * `handleResetNames` as written: the timers are cleared, the sound
      * stopped and the lists emptied, but `isDrawing` is left as it was.
      */
    method ResetNamesAsWritten()
      requires Valid()
      modifies this`phase, this`playing, this`state
      ensures Valid()
      ensures phase == Idle && !playing
      ensures state == old(state).(
        countdownValue := None, allNames := [], pendingNames := [], drawnNames := [],
        displayName := [], teams := [], leaderId := None)
    {
      CancelTimers();
      playing := false;
      state := state.(countdownValue := None, allNames := [], pendingNames := [], drawnNames := [],
        displayName := [], teams := [], leaderId := None);
    }

    /**
      * `handleResetNames` with `isDrawing` cleared along with the timers it
      * belongs to: the draw can start again once names are added.
      */
    method ResetNames()
      requires Valid()
      modifies this`phase, this`playing, this`state
      ensures Valid() && Synced()
      ensures phase == Idle && !playing
      ensures state == old(state).(
        countdownValue := None, isDrawing := false, allNames := [], pendingNames := [], drawnNames := [],
        displayName := [], teams := [], leaderId := None)
    {
      CancelTimers();
      playing := false;
      state := state.(countdownValue := None, isDrawing := false, allNames := [], pendingNames := [],
        drawnNames := [], displayName := [], teams := [], leaderId := None);
    }

    /** `handleReinclude`: the name goes back to the pending list and leaves the drawn list. */
    method Reinclude(name: string)
      requires Valid()
      modifies this`state
      ensures Valid() && Synced() == old(Synced())
      ensures state == old(state).(
        pendingNames := Merged(old(state).pendingNames, [name]),
        drawnNames := Without(old(state).drawnNames, name))
    {
      var merged := MergeUniqueNames(state.pendingNames, [name]);
      DistinctWithout(state.drawnNames, name);
      state := state.(pendingNames := merged, drawnNames := Without(state.drawnNames, name));
    }

    /** `handleRemovePending`: the name leaves both lists, and the display if it is showing. */
    method RemovePending(name: string)
      requires Valid()
      modifies this`state
      ensures Valid() && Synced() == old(Synced())
      ensures state == old(state).(
        pendingNames := Without(old(state).pendingNames, name),
        allNames := Without(old(state).allNames, name),
        displayName := if old(state).displayName == name then [] else old(state).displayName)
    {
      UniqueKeysWithout(state.pendingNames, name);
      UniqueKeysWithout(state.allNames, name);
      var shown := if state.displayName == name then [] else state.displayName;
      state := state.(
        pendingNames := Without(state.pendingNames, name),
        allNames := Without(state.allNames, name),
        displayName := shown);
    }

    // ---- the draw ----

    /**
      * `handleDraw`: refused while drawing or with no pending name;
      * otherwise every timer is cleared, the pool is fixed (a permutation
      * of the pending names), the settings are captured and the countdown
      * starts at its first step.
      */
    method StartDraw(rolls: seq<real>)
      requires Valid()
      requires RollsFor(rolls, |state.pendingNames|)
      modifies this`phase, this`pool, this`cfg, this`step, this`state
      ensures Valid() && Synced() == old(Synced())
      ensures old(state).isDrawing || old(state).pendingNames == [] ==>
        state == old(state) && phase == old(phase) && pool == old(pool) && cfg == old(cfg) && step == old(step)
      ensures !old(state).isDrawing && old(state).pendingNames != [] ==>
        var s := old(state);
        && phase == Countdown && step == 0
        && pool == DrawPool(s.shuffleBeforeDraw, s.pendingNames, rolls)
        && multiset(pool) == multiset(s.pendingNames)
        && cfg == DrawConfig(s.minSpinSeconds, s.maxSpinSeconds, s.soundEnabled, s.autoRemoveWinner)
        && state == s.(isDrawing := true, displayName := [], countdownValue := Some(CountdownSteps[0]))
    {
      if state.isDrawing || |state.pendingNames| == 0 {
        return;
      }
      CancelTimers();
      var snapshot := state.pendingNames;
      if state.shuffleBeforeDraw {
        snapshot := ShuffleArray(state.pendingNames, rolls);
      }
      // The source's `if (!pool.length)` branch cannot be taken: the pool has as many names as `pendingNames`.
      cfg := DrawConfig(state.minSpinSeconds, state.maxSpinSeconds, state.soundEnabled, state.autoRemoveWinner);
      state := state.(isDrawing := true, displayName := [], countdownValue := Some(CountdownSteps[0]));
      pool, step, phase := snapshot, 0, Countdown;
    }

    /**
      * The countdown interval fires: the next step is shown, and after the
      * last one the countdown stops and the spin starts in the same tick.
      */
    method TickCountdown(r: real)
      requires Valid()
      requires 0.0 <= r < 1.0
      modifies this`phase, this`step, this`cursor, this`spinMs, this`playing, this`state
      ensures Valid() && Synced() == old(Synced())
      ensures old(phase) != Countdown ==>
        phase == old(phase) && step == old(step) && cursor == old(cursor) && spinMs == old(spinMs)
        && playing == old(playing) && state == old(state)
      ensures old(phase) == Countdown && old(step) + 1 < |CountdownSteps| ==>
        && phase == Countdown && step == old(step) + 1
        && cursor == old(cursor) && spinMs == old(spinMs) && playing == old(playing)
        && state == old(state).(countdownValue := Some(CountdownSteps[step]))
      ensures old(phase) == Countdown && old(step) + 1 == |CountdownSteps| ==>
        && phase == Spinning && step == |CountdownSteps| && cursor == 0
        && spinMs == SpinDuration(r, SpinBounds(cfg.minSpin, cfg.maxSpin))
        && playing == (old(playing) || cfg.sound)
        && state == old(state).(countdownValue := None, displayName := pool[0])
    {
      if phase != Countdown {
        return;
      }
      step := step + 1;
      if step < |CountdownSteps| {
        state := state.(countdownValue := Some(CountdownSteps[step]));
      } else {
        CancelTimers();
        state := state.(countdownValue := None);
        StartSpin(r);
      }
    }

    /**
      * `startSpin`, once the countdown is cleared: the spin length is drawn
      * from the captured settings, the sound starts if it was on when the
      * draw began, and the name at the head of the pool is shown.
      */
    method StartSpin(r: real)
      requires Valid() && phase == Idle && state.isDrawing
      requires |pool| > 0 && ConfigInRange(cfg) && 0.0 <= r < 1.0
      modifies this`phase, this`cursor, this`spinMs, this`playing, this`state
      ensures Valid() && Synced()
      ensures phase == Spinning && cursor == 0
      ensures spinMs == SpinDuration(r, SpinBounds(cfg.minSpin, cfg.maxSpin))
      ensures playing == (old(playing) || cfg.sound)
      ensures state == old(state).(displayName := pool[0])
    {
      var range := SpinBounds(cfg.minSpin, cfg.maxSpin);
      spinMs := SpinDuration(r, range);
      if cfg.sound {
        playing := true;
      }
      cursor := 0;
      state := state.(displayName := pool[cursor % |pool|]);
      phase := Spinning;
    }

    /** The spin interval fires: the cursor moves on and the name under it is shown. */
    method TickSpin()
      requires Valid()
      modifies this`cursor, this`state
      ensures Valid() && Synced() == old(Synced())
      ensures old(phase) != Spinning ==> cursor == old(cursor) && state == old(state)
      ensures old(phase) == Spinning ==>
        cursor == old(cursor) + 1 && state == old(state).(displayName := pool[cursor % |pool|])
    {
      if phase != Spinning {
        return;
      }
      cursor := cursor + 1;
      state := state.(displayName := pool[cursor % |pool|]);
    }

    /**
      * The spin timeout fires: the spin interval is cleared, a winner is
      * picked from the pool independently of the cursor, shown, put at the
      * head of the drawn list and, when the captured setting says so, taken
      * off the pending list; the draw is over.
      */
    method FireTimeout(r: real)
      requires Valid()
      requires 0.0 <= r < 1.0
      modifies this`phase, this`playing, this`state
      ensures Valid() && Synced() == old(Synced())
      ensures old(phase) != Spinning ==> phase == old(phase) && playing == old(playing) && state == old(state)
      ensures old(phase) == Spinning ==>
        var w := Winner(pool, r);
        && phase == Idle && !playing
        && state == old(state).(
          displayName := w, isDrawing := false,
          drawnNames := RecordWinner(old(state).drawnNames, w),
          pendingNames := if cfg.autoRemove then Without(old(state).pendingNames, w) else old(state).pendingNames)
    {
      if phase != Spinning {
        return;
      }
      CancelTimers();
      var winner := pool[RandomIndex(r, |pool|)];
      playing := false;
      RecordWinnerDistinct(state.drawnNames, winner);
      UniqueKeysWithout(state.pendingNames, winner);
      var pending := if cfg.autoRemove then Without(state.pendingNames, winner) else state.pendingNames;
      state := state.(
        displayName := winner, isDrawing := false,
        drawnNames := [winner] + Without(state.drawnNames, winner), pendingNames := pending);
    }

    /**
      * The unmount cleanup: every timer cleared and the sound stopped, and no
      * state setter called, so a countdown or `isDrawing` left on stays as it
      * was. Nothing runs on the component afterwards, which is why the
      * cleared timers need not agree with `state` any more.
      */
    method Teardown()
      requires Valid()
      modifies this`phase, this`playing
      ensures phase == Idle && !playing && state == old(state)
      ensures ValidState(state)
    {
      CancelTimers();
      playing := false;
    }

    // ---- settings ----

    /** `handleMinSpinChange`: `NaN` is ignored; otherwise the clamped value, with the maximum raised to it if below. */
    method SetMinSpin(input: NumInput)
      requires Valid()
      modifies this`state
      ensures Valid() && Synced() == old(Synced())
      ensures input.NaN? ==> state == old(state)
      ensures input.Num? ==>
        var v := ClampSeconds(input.value);
        state == old(state).(
          minSpinSeconds := v,
          maxSpinSeconds := if old(state).maxSpinSeconds < v then v else old(state).maxSpinSeconds)
    {
      if input.NaN? {
        return;
      }
      var sanitized := ClampSeconds(input.value);
      var upper := if state.maxSpinSeconds < sanitized then sanitized else state.maxSpinSeconds;
      state := state.(minSpinSeconds := sanitized, maxSpinSeconds := upper);
    }

    /** `handleMaxSpinChange`: `NaN` is ignored; otherwise the clamped value, with the minimum lowered to it if above. */
    method SetMaxSpin(input: NumInput)
      requires Valid()
      modifies this`state
      ensures Valid() && Synced() == old(Synced())
      ensures input.NaN? ==> state == old(state)
      ensures input.Num? ==>
        var v := ClampSeconds(input.value);
        state == old(state).(
          maxSpinSeconds := v,
          minSpinSeconds := if old(state).minSpinSeconds > v then v else old(state).minSpinSeconds)
    {
      if input.NaN? {
        return;
      }
      var sanitized := ClampSeconds(input.value);
      var lower := if state.minSpinSeconds > sanitized then sanitized else state.minSpinSeconds;
      state := state.(maxSpinSeconds := sanitized, minSpinSeconds := lower);
    }

    /** `onToggleShuffle`. */
    method ToggleShuffle()
      requires Valid()
      modifies this`state
      ensures Valid() && Synced() == old(Synced())
      ensures state == old(state).(shuffleBeforeDraw := !old(state).shuffleBeforeDraw)
    {
      state := state.(shuffleBeforeDraw := !state.shuffleBeforeDraw);
    }

    /** `onToggleAutoRemove`. */
    method ToggleAutoRemove()
      requires Valid()
      modifies this`state
      ensures Valid() && Synced() == old(Synced())
      ensures state == old(state).(autoRemoveWinner := !old(state).autoRemoveWinner)
    {
      state := state.(autoRemoveWinner := !state.autoRemoveWinner);
    }

    /** `onToggleSound`, with the effect that stops the spin sound once sound is off. */
    method ToggleSound()
      requires Valid()
      modifies this`state, this`playing
      ensures Valid() && Synced() == old(Synced())
      ensures state == old(state).(soundEnabled := !old(state).soundEnabled)
      ensures playing == (old(playing) && !old(state).soundEnabled)
    {
      state := state.(soundEnabled := !state.soundEnabled);
      if !state.soundEnabled {
        playing := false;
      }
    }

    /** `onToggleAssignActivities`. */
    method ToggleAssignActivities()
      requires Valid()
      modifies this`state
      ensures Valid() && Synced() == old(Synced())
      ensures state == old(state).(assignActivitiesOnDraw := !old(state).assignActivitiesOnDraw)
    {
      state := state.(assignActivitiesOnDraw := !state.assignActivitiesOnDraw);
    }

    /** `onTeamCountChange`. */
    method SetTeamCount(count: int)
      requires Valid()
      modifies this`state
      ensures Valid() && Synced() == old(Synced())
      ensures state == old(state).(teamCount := count)
    {
      state := state.(teamCount := count);
    }

    // ---- teams ----

    /**
      * `handleGenerateTeams`: refused with no names or fewer than one team;
      * otherwise the shuffled names are dealt round-robin into `teamCount`
      * new teams, with activities when assignment is on, and the leader is
      * cleared.
      */
    method GenerateTeams(ids: seq<Id>, nameRolls: seq<real>, activityRolls: seq<real>)
      requires Valid()
      requires state.teamCount >= 1 ==> |ids| == state.teamCount
      requires RollsFor(nameRolls, |state.allNames|) && RollsFor(activityRolls, |state.activities|)
      modifies this`state
      ensures Valid() && Synced() == old(Synced())
      ensures old(state).allNames == [] || old(state).teamCount < 1 ==> state == old(state)
      ensures old(state).allNames != [] && old(state).teamCount >= 1 ==>
        var s := old(state);
        state == s.(
          teams := FormedTeams(ids, Shuffled(s.allNames, nameRolls), s.teamCount,
                               ActivitiesForTeams(s.assignActivitiesOnDraw, s.activities, activityRolls)),
          leaderId := None)
    {
      if |state.allNames| == 0 || state.teamCount < 1 {
        return;
      }
      var participants := ShuffleArray(state.allNames, nameRolls);
      var acts := DealtActivities(state.assignActivitiesOnDraw, state.activities, activityRolls);
      var created := BuildTeams(ids, participants, state.teamCount, acts);
      state := state.(teams := created, leaderId := None);
    }

    /** `handleResetTeams`. */
    method ResetTeams()
      requires Valid()
      modifies this`state
      ensures Valid() && Synced() == old(Synced())
      ensures state == old(state).(teams := [], leaderId := None)
    {
      state := state.(teams := [], leaderId := None);
    }

    /** `handleScoreDelta`. */
    method ScoreDelta(teamId: Id, delta: int)
      requires Valid()
      modifies this`state
      ensures Valid() && Synced() == old(Synced())
      ensures state == old(state).(teams := Teams.ScoreDelta(old(state).teams, teamId, delta))
    {
      state := state.(teams := Teams.ScoreDelta(state.teams, teamId, delta));
    }

    /** `handleScoreSet`. */
    method ScoreSet(teamId: Id, input: ScoreInput)
      requires Valid()
      modifies this`state
      ensures Valid() && Synced() == old(Synced())
      ensures state == old(state).(teams := Teams.ScoreSet(old(state).teams, teamId, input))
    {
      state := state.(teams := Teams.ScoreSet(state.teams, teamId, input));
    }

    /** `handleAssignActivity`, looking the label up in the current registry. */
    method AssignActivity(teamId: Id, activityId: Option<Id>)
      requires Valid()
      modifies this`state
      ensures Valid() && Synced() == old(Synced())
      ensures state == old(state).(teams := Teams.AssignActivity(old(state).teams, old(state).activities, teamId, activityId))
    {
      state := state.(teams := Teams.AssignActivity(state.teams, state.activities, teamId, activityId));
    }

    /** `setActivities`: the registry slot replaced by a valid registry, nothing else touched. */
    method SetActivities(activities: seq<Activity>)
      requires Valid() && RegistryValid(activities)
      modifies this`state
      ensures Valid() && Synced() == old(Synced())
      ensures state == old(state).(activities := activities)
    {
      state := state.(activities := activities);
    }

    /** `handleAddActivity`, with `newId` the fresh id `createId()` returns. */
    method AddActivity(input: string, newId: Id)
      requires Valid()
      requires newId !in Ids(state.activities)
      modifies this`state
      ensures Valid() && Synced() == old(Synced())
      ensures state == old(state).(activities := Teams.AddActivity(old(state).activities, input, newId))
    {
      AddActivityValid(state.activities, input, newId);
      SetActivities(Teams.AddActivity(state.activities, input, newId));
    }

    /** `handleRemoveActivity`: out of the registry and off every team that had it. */
    method RemoveActivity(id: Id)
      requires Valid()
      modifies this`state
      ensures Valid() && Synced() == old(Synced())
      ensures state == old(state).(
        activities := RemoveById(old(state).activities, id),
        teams := ClearActivity(old(state).teams, id))
    {
      RemoveActivityValid(state.activities, id);
      state := state.(activities := RemoveById(state.activities, id), teams := ClearActivity(state.teams, id));
    }

    /** `rankedTeams`: the teams sorted by score, then by creation order, and nothing else. */
    function RankedTeams(): (r: seq<Team>)
      reads this
      ensures RankSorted(r) && multiset(r) == multiset(state.teams)
    {
      RankedSorted(state.teams);
      Ranked(state.teams)
    }

    /** The leader effect, run after a change of the teams or of `leaderId`. */
    method LeaderEffect()
      requires Valid()
      modifies this`state, this`confettiBursts
      ensures Valid() && Synced() == old(Synced())
      ensures var out := LeaderStep(Ranked(old(state).teams), old(state).leaderId);
        && state == old(state).(leaderId := out.leaderId)
        && confettiBursts == old(confettiBursts) + if out.celebrate then 1 else 0
    {
      var out := LeaderStep(Ranked(state.teams), state.leaderId);
      state := state.(leaderId := out.leaderId);
      if out.celebrate {
        confettiBursts := confettiBursts + 1;
      }
    }

    /** `handleExportCsv`: the text of the ranked teams, which reads back as the header and their rows in ranking order. */
    function ExportCsv(): (csv: string)
      reads this
      ensures ParseCsv(csv) == Some([Headers] + Rows(RankedTeams()))
    {
      ExportTeamsAsCsv(RankedTeams())
    }
  }

  // ---------------------------------------------------------------------------
  // A reset during a draw
  // ---------------------------------------------------------------------------

  /**
    * With `handleResetNames` as written, a reset during the countdown
    * leaves `isDrawing` set with no timer left to clear it: names can be
    * added again, but every later `handleDraw` is refused.
    */
  method ResetDuringDrawAsWritten() returns (app: Sorteador)
    ensures app.Valid() && !app.Synced()
    ensures app.state.pendingNames == ["Ana"] && app.state.isDrawing
    ensures app.phase == Idle && app.state.countdownValue == None
  {
    MergedSingle("Ana");
    app := new Sorteador();
    app.AddNames(["Ana"]);
    app.StartDraw([]);
    app.ResetNamesAsWritten();
    app.AddNames(["Ana"]);
    app.StartDraw([]);
  }

  /** With `isDrawing` cleared by the reset, the same sequence starts the countdown. */
  method ResetDuringDraw() returns (app: Sorteador)
    ensures app.Valid() && app.Synced()
    ensures app.phase == Countdown && app.pool == ["Ana"] && app.step == 0
    ensures app.state.countdownValue == Some("1")
  {
    MergedSingle("Ana");
    app := new Sorteador();
    app.AddNames(["Ana"]);
    app.StartDraw([]);
    app.ResetNames();
    app.AddNames(["Ana"]);
    app.StartDraw([]);
  }
}
