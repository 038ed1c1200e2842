/** The state reported for the bitcoin daemon, smoothed over a short history of observations. */
module DaemonState {
  import opened Wrappers

  datatype State =
    | MgmtDisabled | ExeMissing | HomeMissing | TorrentSynchronizing | NeverStarted | AlreadyRunning
    | DatabaseEnvError | UnknownCrash | NotAvailable | Initializing | WrongPassword | Synchronizing | Ready

  datatype RpcError = NoError | Uninitialized | ValueError | JsonRpcException | SocketError | OtherError

  /** What one call sees of its surroundings; errorWords is the daemon's error output cut into lower-case words. */
  datatype Sight = Sight(disabled: bool, failedFindExe: bool, failedFindHome: bool, torrentRunning: bool,
                         started: bool, running: bool, errorWords: Option<set<string>>, responsive: bool,
                         error: RpcError, secSinceLastBlk: real, blksPerSec: real)

  const RUN_WORDS := {"cannot", "obtain", "lock", "already", "running"}
  const DB_WORDS := {"database", "recover", "backup", "except", "wallet", "dat"}
  const FOUR_HOURS := 14400.0

  /** The unsmoothed state, given the states still in the history. */
  function RawState(e: Sight, history: seq<State>): State {
    if e.disabled then MgmtDisabled
    else if e.failedFindExe then ExeMissing
    else if e.failedFindHome then HomeMissing
    else if e.torrentRunning then TorrentSynchronizing
    else if !e.started && e.error == Uninitialized then NeverStarted
    else if !(e.started && e.running) then
      if e.errorWords.None? then NotAvailable
      else if |e.errorWords.value * RUN_WORDS| >= |RUN_WORDS| - 1 then AlreadyRunning
      else if |e.errorWords.value * DB_WORDS| >= |DB_WORDS| - 1 then DatabaseEnvError
      else UnknownCrash
    else if !e.responsive then Initializing
    else if e.error == ValueError then WrongPassword
    else if e.error == JsonRpcException then Initializing
    else if e.error == SocketError then NotAvailable
    else if Ready in history then Ready
    else if e.secSinceLastBlk > FOUR_HOURS || e.blksPerSec == -1.0 then Synchronizing
    else if e.blksPerSec * 20.0 > 2.0 then Synchronizing
    else Ready
  }

  datatype History = History(states: seq<State>, times: seq<real>)

  /** Appends an observation, and drops the oldest one if the second oldest is more than five seconds old. */
  function Record(h: History, s: State, now: real): History
    requires |h.states| == |h.times|
  {
    var states, times := h.states + [s], h.times + [now];
    if |times| > 2 && times[|times| - 1] - times[1] > 5.0 then History(states[1..], times[1..])
    else History(states, times)
  }

  function Smoothed(h: History, s: State): State {
    if s == NotAvailable && Initializing in h.states then Initializing else s
  }

  class DaemonManager {
    var circBufferState: seq<State>
    var circBufferTime: seq<real>

    constructor ()
      ensures circBufferState == [] && circBufferTime == []
    {
      circBufferState := [];
      circBufferTime := [];
    }

    method GetSDMState(e: Sight, now: real) returns (r: State)
      requires |circBufferState| == |circBufferTime|
      modifies this
      ensures var old_h := History(old(circBufferState), old(circBufferTime));
              var s := RawState(e, old_h.states);
              var h := Record(old_h, s, now);
              circBufferState == h.states && circBufferTime == h.times && r == Smoothed(h, s)
      ensures |circBufferState| == |circBufferTime|
    {
      var state := RawState(e, circBufferState);
      circBufferState := circBufferState + [state];
      circBufferTime := circBufferTime + [now];
      if |circBufferTime| > 2 && circBufferTime[|circBufferTime| - 1] - circBufferTime[1] > 5.0 {
        circBufferState := circBufferState[1..];
        circBufferTime := circBufferTime[1..];
      }
      if state == NotAvailable {
        if Initializing in circBufferState {
          return Initializing;
        }
      }
      return state;
    }
  }

  // ----- whole runs -----

  datatype Call = Call(sight: Sight, now: real)

  /** The history after a run of calls from a fresh object. */
  function After(calls: seq<Call>): (h: History)
    ensures |h.states| == |h.times|
    decreases 2 * |calls|
  {
    if calls == [] then History([], [])
    else
      var n := |calls| - 1;
      Record(After(calls[..n]), Observed(calls, n), calls[n].now)
  }

  /** What the i-th call of a run observed, and what it returned. */
  function Observed(calls: seq<Call>, i: nat): State
    requires i < |calls|
    decreases 2 * i + 1
  {
    RawState(calls[i].sight, After(calls[..i]).states)
  }

  function Returned(calls: seq<Call>, i: nat): State
    requires i < |calls|
  {
    Smoothed(After(calls[..i + 1]), Observed(calls, i))
  }

  ghost predicate ClockRuns(calls: seq<Call>) {
    forall i, j | 0 <= i <= j < |calls| :: calls[i].now <= calls[j].now
  }

  lemma ObservedPrefix(calls: seq<Call>, n: nat, i: nat)
    requires i < n <= |calls|
    ensures Observed(calls[..n], i) == Observed(calls, i)
  {
    assert calls[..n][..i] == calls[..i];
  }

  function Observations(calls: seq<Call>): (r: seq<State>)
    ensures |r| == |calls|
    decreases |calls|
  {
    if calls == [] then [] else Observations(calls[..|calls| - 1]) + [Observed(calls, |calls| - 1)]
  }

  lemma {:induction false} ObservationAt(calls: seq<Call>, i: nat)
    requires i < |calls|
    ensures Observations(calls)[i] == Observed(calls, i)
    decreases |calls|
  {
    hide Observed;
    var n := |calls| - 1;
    if i < n {
      ObservationAt(calls[..n], i);
      ObservedPrefix(calls, n, i);
    }
  }

  function Times(calls: seq<Call>): (r: seq<real>)
    ensures |r| == |calls| && forall i | 0 <= i < |calls| :: r[i] == calls[i].now
  {
    seq(|calls|, i requires 0 <= i < |calls| => calls[i].now)
  }

  lemma AfterStep(calls: seq<Call>)
    requires calls != []
    ensures var n := |calls| - 1; After(calls) == Record(After(calls[..n]), Observed(calls, n), calls[n].now)
  {
  }

  // ----- which observations the history holds -----

  /** How many of the oldest observations have been dropped, from the times of the calls alone. */
  function Drops(times: seq<real>): (d: nat)
    ensures d <= |times| && (times != [] ==> d < |times|)
  {
    if times == [] then 0
    else
      var n := |times| - 1;
      var d := Drops(times[..n]);
      if n - d >= 2 && times[n] - times[d + 1] > 5.0 then d + 1 else d
  }

  lemma SuffixAppends<T>(s: seq<T>, d: nat, x: T)
    requires d <= |s|
    ensures s[d..] + [x] == (s + [x])[d..]
  {
  }

  lemma SuffixDrops<T>(s: seq<T>, d: nat)
    requires d < |s|
    ensures s[d..][1..] == s[d + 1..]
  {
  }

  /** In every run, whatever the clock does, the history is the observations and times that have not been dropped. */
  lemma {:induction false} HistoryIs(calls: seq<Call>)
    ensures var d := Drops(Times(calls)); After(calls) == History(Observations(calls)[d..], Times(calls)[d..])
    decreases |calls|
  {
    hide RawState, Record, Observed, Drops;
    if calls == [] {
      assert Times(calls) == [];
    } else {
      hide After;
      var n := |calls| - 1;
      HistoryIs(calls[..n]);
      AfterStep(calls);
      assert Times(calls) == Times(calls[..n]) + [calls[n].now];
      RecordIs(Observations(calls[..n]), Times(calls[..n]), Observed(calls, n), calls[n].now);
    }
  }

  lemma RecordIs(observed: seq<State>, times: seq<real>, s: State, now: real)
    requires |observed| == |times|
    ensures var d, o, t := Drops(times), observed + [s], times + [now];
            var e := Drops(t);
            Record(History(observed[d..], times[d..]), s, now) == History(o[e..], t[e..])
  {
    var d, o, t := Drops(times), observed + [s], times + [now];
    assert t[..|times|] == times;
    hide Drops;
    SuffixAppends(observed, d, s);
    SuffixAppends(times, d, now);
    if |times| - d >= 2 {
      assert t[d..][1] == t[d + 1];
      SuffixDrops(o, d);
      SuffixDrops(t, d);
    }
  }

  ghost predicate Ascending(times: seq<real>) {
    forall i, j | 0 <= i <= j < |times| :: times[i] <= times[j]
  }

  /** With a clock that does not run backwards only observations more than five seconds old are dropped. */
  lemma {:induction false} DropsOnlyOld(times: seq<real>, j: nat)
    requires Ascending(times) && j < Drops(times)
    ensures times[|times| - 1] - times[j] > 5.0
    decreases |times|
  {
    var n := |times| - 1;
    var d := Drops(times[..n]);
    if j < d {
      DropsOnlyOld(times[..n], j);
      assert times[..n][n - 1] <= times[n];
    } else {
      assert times[j] <= times[d + 1];
    }
  }

  /** In every run the history is the most recent observations, in step with their times, and reaches back over
      every call of the last five seconds. */
  lemma HistoryReachesBack(calls: seq<Call>)
    requires ClockRuns(calls)
    ensures var d := Drops(Times(calls));
            && After(calls) == History(Observations(calls)[d..], Times(calls)[d..])
            && forall j: nat | j < d :: OlderThanFive(calls, j)
  {
    hide After, Drops, OlderThanFive, Observed;
    HistoryIs(calls);
    TimesAscend(calls);
    forall j: nat | j < Drops(Times(calls)) ensures OlderThanFive(calls, j) { DroppedIsOld(calls, j); }
  }

  /** Call j lies more than five seconds before the last one. */
  ghost predicate OlderThanFive(calls: seq<Call>, j: nat)
    requires j < |calls|
  {
    calls[|calls| - 1].now - calls[j].now > 5.0
  }

  lemma TimesAscend(calls: seq<Call>)
    requires ClockRuns(calls)
    ensures Ascending(Times(calls))
  {
    hide Times;
  }

  lemma DroppedIsOld(calls: seq<Call>, j: nat)
    requires Ascending(Times(calls)) && j < Drops(Times(calls))
    ensures OlderThanFive(calls, j)
  {
    hide Drops, Times, Ascending;
    DropsOnlyOld(Times(calls), j);
  }

  // ----- what is reported -----

  /** The history after call j holds an observation of "initializing". */
  ghost predicate InitializingHeld(calls: seq<Call>, j: nat)
    requires j < |calls|
  {
    exists i: nat :: Drops(Times(calls[..j + 1])) <= i <= j && Observed(calls, i) == Initializing
  }

  lemma HeldInHistory(calls: seq<Call>, j: nat)
    requires j < |calls|
    ensures Initializing in After(calls[..j + 1]).states <==> InitializingHeld(calls, j)
  {
    hide RawState, Record, Observed, After, Drops;
    var run := calls[..j + 1];
    var d, o := Drops(Times(run)), Observations(run);
    HistoryIs(run);
    forall i: nat | i <= j ensures o[i] == Observed(calls, i) {
      ObservationAt(run, i);
      ObservedPrefix(calls, j + 1, i);
    }
    if Initializing in o[d..] {
      var k :| 0 <= k < |o[d..]| && o[d..][k] == Initializing;
      assert o[d + k] == Initializing;
    }
    if i: nat :| d <= i <= j && Observed(calls, i) == Initializing {
      assert o[d..][i - d] == Initializing;
    }
  }

  /** Exactly what every call of every run returns: the observed state, but "initializing" in place of "not available"
      while an observation of the former is held. */
  lemma Reported(calls: seq<Call>, j: nat)
    requires j < |calls|
    ensures Returned(calls, j) ==
            if Observed(calls, j) == NotAvailable && InitializingHeld(calls, j) then Initializing else Observed(calls, j)
  {
    hide RawState, Record, Observed, After, InitializingHeld;
    HeldInHistory(calls, j);
  }

  /** Within five seconds of having observed the daemon initializing, a call never reports it not available. */
  lemma NeverNotAvailableAfterInitializing(calls: seq<Call>, i: nat, j: nat)
    requires ClockRuns(calls) && i <= j < |calls|
    requires Observed(calls, i) == Initializing && calls[j].now - calls[i].now <= 5.0
    ensures Returned(calls, j) != NotAvailable
    ensures Observed(calls, j) == NotAvailable ==> Returned(calls, j) == Initializing
  {
    hide RawState, Record, Observed, After, Drops;
    var run := calls[..j + 1];
    Reported(calls, j);
    HistoryReachesBack(run);
    if i < Drops(Times(run)) { assert OlderThanFive(run, i); }
  }

  /** n calls at the time 0 and m calls at the time t. */
  function Burst(n: nat, m: nat, t: real): (r: seq<real>)
    ensures |r| == n + m
  {
    seq(n + m, i => if i < n then 0.0 else t)
  }

  /** Observations are dropped one a call, only after more than five seconds, and never the last but for the new ones. */
  lemma {:induction false} BurstDrops(n: nat, m: nat, t: real)
    ensures Drops(Burst(n, m, t)) == if t <= 5.0 || n == 0 then 0 else if m < n then m else n - 1
    decreases m, n
  {
    hide Drops, Burst;
    if m > 0 {
      BurstDrops(n, m - 1, t);
      BurstStep(n, m, t);
    } else if n > 0 {
      BurstDrops(n - 1, 0, t);
      QuietStep(n, t);
    } else {
      NoDrops(t);
    }
  }

  lemma NoDrops(t: real)
    ensures Drops(Burst(0, 0, t)) == 0
  {
  }

  lemma QuietStep(n: nat, t: real)
    requires n > 0
    ensures Drops(Burst(n, 0, t)) == Drops(Burst(n - 1, 0, t))
  {
    assert Burst(n, 0, t)[..n - 1] == Burst(n - 1, 0, t);
  }

  lemma BurstStep(n: nat, m: nat, t: real)
    requires m > 0
    ensures var d := Drops(Burst(n, m - 1, t));
            Drops(Burst(n, m, t)) == if n + m - 1 - d >= 2 && d + 1 < n && t > 5.0 then d + 1 else d
  {
    var r, k := Burst(n, m, t), n + m - 1;
    assert r[..k] == Burst(n, m - 1, t);
    var d := Drops(Burst(n, m - 1, t));
    assert Drops(r) == if k - d >= 2 && r[k] - r[d + 1] > 5.0 then d + 1 else d;
  }

  function Quiet(running: bool): Sight {
    Sight(false, false, false, false, true, running, None, false, NoError, 0.0, 0.0)
  }

  /** Calls at times 0, 0, 0 and 100, of which only the second finds the daemon initializing. */
  function LateRun(): seq<Call> {
    [Call(Quiet(false), 0.0), Call(Quiet(true), 0.0), Call(Quiet(false), 0.0), Call(Quiet(false), 100.0)]
  }

  /** The last of them still reports "initializing", a hundred seconds after it was observed. */
  lemma LateOverride()
    ensures var calls := LateRun();
            Observed(calls, 1) == Initializing && Observed(calls, 3) == NotAvailable && Returned(calls, 3) == Initializing
  {
    hide After, Drops, RawState, Times, Returned, LateRun;
    var calls := LateRun();
    LateSize();
    LateDrops();
    LateObserved(0);
    LateObserved(1);
    LateObserved(3);
    Reported(calls, 3);
    assert calls[..4] == calls;
    assert InitializingHeld(calls, 3);
  }

  lemma LateSize()
    ensures |LateRun()| == 4
  {
  }

  lemma LateObserved(i: nat)
    requires i < |LateRun()|
    ensures Observed(LateRun(), i) == if i == 1 then Initializing else NotAvailable
  {
    hide After;
    assert LateRun()[i].sight == Quiet(i == 1);
  }

  lemma LateDrops()
    ensures Drops(Times(LateRun())) <= 1
  {
    var times := Times(LateRun());
    DropsFew(times, 3);
  }

  /** Nothing is dropped while all times are the same. */
  lemma {:induction false} DropsFew(times: seq<real>, n: nat)
    requires n <= |times| && forall i | 0 <= i < n :: times[i] == 0.0
    ensures Drops(times[..n]) == 0 && (|times| == n + 1 ==> Drops(times) <= 1)
    decreases n
  {
    if n > 0 {
      DropsFew(times, n - 1);
      assert times[..n][..n - 1] == times[..n - 1];
    }
  }

  // ----- what each state means -----

  /** Management is on, the program and its directory were found, and no torrent is running. */
  predicate Managed(e: Sight) {
    !e.disabled && !e.failedFindExe && !e.failedFindHome && !e.torrentRunning
  }

  /** The daemon does not run, though it was started or there was an error on asking it. */
  predicate Down(e: Sight) {
    Managed(e) && !(e.started && e.running) && (e.started || e.error != Uninitialized)
  }

  predicate Up(e: Sight) {
    Managed(e) && e.started && e.running
  }

  /** The daemon is up and answers without an error. */
  predicate Healthy(e: Sight) {
    Up(e) && e.responsive && e.error != ValueError && e.error != JsonRpcException && e.error != SocketError
  }

  predicate SeemsInitializing(e: Sight) {
    Up(e) && (!e.responsive || e.error == JsonRpcException)
  }

  predicate SeemsNotAvailable(e: Sight) {
    (Down(e) && e.errorWords.None?) || (Up(e) && e.responsive && e.error == SocketError)
  }

  /** Of all these words, no two are missing from the daemon's error output. */
  predicate Says(e: Sight, all: set<string>) {
    e.errorWords.Some? && forall a, b | a in all && b in all && a != b :: a in e.errorWords.value || b in e.errorWords.value
  }

  predicate SaysRunning(e: Sight) {
    Says(e, {"already", "cannot", "lock", "obtain", "running"})
  }

  predicate SaysDatabase(e: Sight) {
    Says(e, {"backup", "dat", "database", "except", "recover", "wallet"})
  }

  /** The last block is at most four hours old, and no more than one block comes in ten seconds. */
  predicate CaughtUp(e: Sight) {
    e.secSinceLastBlk <= 4.0 * 3600.0 && e.blksPerSec != -1.0 && 10.0 * e.blksPerSec <= 1.0
  }

  lemma FewMissing(words: set<string>, all: set<string>)
    requires all != {}
    ensures |words * all| >= |all| - 1 <==> forall a, b | a in all && b in all && a != b :: a in words || b in words
  {
    var there, missing := words * all, all - words;
    assert there + missing == all && there !! missing;
    assert |all| == |there| + |missing|;
    if |missing| >= 2 {
      var a :| a in missing;
      var rest := missing - {a};
      assert |rest| >= 1;
      var b :| b in rest;
      assert a in all && b in all && a != b && a !in words && b !in words;
    } else {
      forall a, b | a in all && b in all && a != b ensures a in words || b in words {
        if a in missing && b in missing { TwoElements(missing, a, b); }
      }
    }
  }

  lemma TwoElements(s: set<string>, a: string, b: string)
    requires a in s && b in s && a != b
    ensures |s| >= 2
  {
    var rest := s - {a};
    assert b in rest && |s| == |rest| + 1;
  }

  lemma WordsCounted(e: Sight)
    ensures e.errorWords.None? ==> !SaysRunning(e) && !SaysDatabase(e)
    ensures e.errorWords.Some? ==>
              && (|e.errorWords.value * RUN_WORDS| >= |RUN_WORDS| - 1 <==> SaysRunning(e))
              && (|e.errorWords.value * DB_WORDS| >= |DB_WORDS| - 1 <==> SaysDatabase(e))
  {
    assert RUN_WORDS == {"already", "cannot", "lock", "obtain", "running"};
    assert DB_WORDS == {"backup", "dat", "database", "except", "recover", "wallet"};
    assert "lock" in RUN_WORDS && "dat" in DB_WORDS;
    if e.errorWords.Some? {
      FewMissing(e.errorWords.value, RUN_WORDS);
      FewMissing(e.errorWords.value, DB_WORDS);
    }
  }

  /** The condition for each state, given whether "ready" and "initializing" are held in the history. */
  predicate Means(s: State, e: Sight, ready: bool, initializing: bool) {
    match s
    case MgmtDisabled => e.disabled
    case ExeMissing => e.failedFindExe && !e.disabled
    case HomeMissing => e.failedFindHome && !e.failedFindExe && !e.disabled
    case TorrentSynchronizing => e.torrentRunning && !e.failedFindHome && !e.failedFindExe && !e.disabled
    case NeverStarted => Managed(e) && !e.started && e.error == Uninitialized
    case AlreadyRunning => Down(e) && SaysRunning(e)
    case DatabaseEnvError => Down(e) && SaysDatabase(e) && !SaysRunning(e)
    case UnknownCrash => Down(e) && e.errorWords.Some? && !SaysDatabase(e) && !SaysRunning(e)
    case NotAvailable => SeemsNotAvailable(e) && !initializing
    case Initializing => SeemsInitializing(e) || (SeemsNotAvailable(e) && initializing)
    case WrongPassword => Up(e) && e.responsive && e.error == ValueError
    case Synchronizing => Healthy(e) && !ready && !CaughtUp(e)
    case Ready => Healthy(e) && (ready || CaughtUp(e))
  }

  /** Each state is observed exactly under its condition. */
  lemma ObservedExactly(e: Sight, history: seq<State>, s: State)
    ensures RawState(e, history) == s <==> Means(s, e, Ready in history, false)
  {
    hide SaysRunning, SaysDatabase;
    WordsCounted(e);
  }

  /** An observation of "ready" is held when call j is made. */
  ghost predicate ReadyHeld(calls: seq<Call>, j: nat)
    requires j < |calls|
  {
    exists i: nat :: Drops(Times(calls[..j])) <= i < j && Observed(calls, i) == Ready
  }

  lemma ReadyInHistory(calls: seq<Call>, j: nat)
    requires j < |calls|
    ensures Ready in After(calls[..j]).states <==> ReadyHeld(calls, j)
  {
    hide RawState, Record, Observed, After, Drops;
    HistoryIs(calls[..j]);
    var d, o := Drops(Times(calls[..j])), Observations(calls[..j]);
    forall i: nat | i < j ensures o[i] == Observed(calls, i) {
      ObservationAt(calls[..j], i);
      ObservedPrefix(calls, j, i);
    }
    if Ready in o[d..] {
      var k :| 0 <= k < |o[d..]| && o[d..][k] == Ready;
      assert o[d + k] == Ready;
    }
    if i: nat :| d <= i < j && Observed(calls, i) == Ready { assert o[d..][i - d] == Ready; }
  }

  /** A sight of an initializing daemon is held after call j. */
  ghost predicate InitializingSeen(calls: seq<Call>, j: nat)
    requires j < |calls|
  {
    exists i: nat :: Drops(Times(calls[..j + 1])) <= i <= j && SeemsInitializing(calls[i].sight)
  }

  lemma SeenIsHeld(calls: seq<Call>, j: nat)
    requires j < |calls|
    ensures InitializingSeen(calls, j) <==> InitializingHeld(calls, j)
  {
    hide After, Drops, RawState, SeemsInitializing;
    forall i: nat | i <= j ensures Observed(calls, i) == Initializing <==> SeemsInitializing(calls[i].sight) {
      InitializingObserved(calls[i].sight, After(calls[..i]).states);
    }
  }

  lemma InitializingObserved(e: Sight, history: seq<State>)
    ensures RawState(e, history) == Initializing <==> SeemsInitializing(e)
  {
    hide RawState;
    ObservedExactly(e, history, Initializing);
  }

  /** Exactly which state every call of every run returns, from what it sees and what the history holds. */
  lemma ReturnedExactly(calls: seq<Call>, j: nat, s: State)
    requires j < |calls|
    ensures Returned(calls, j) == s <==> Means(s, calls[j].sight, ReadyHeld(calls, j), InitializingSeen(calls, j))
  {
    hide After, Drops, Returned, RawState, ReadyHeld, InitializingSeen, InitializingHeld, Up, Down, SaysRunning, SaysDatabase;
    var e, h := calls[j].sight, After(calls[..j]).states;
    Reported(calls, j);
    ReadyInHistory(calls, j);
    SeenIsHeld(calls, j);
    ObservedExactly(e, h, s);
    ObservedExactly(e, h, NotAvailable);
  }

  /** With an older last block or a higher known rate, a daemon that was synchronizing is not ready. */
  lemma SlowerIsNotReady(e: Sight, sec: real, rate: real, history: seq<State>)
    requires RawState(e, history) == Synchronizing && sec >= e.secSinceLastBlk && e.blksPerSec != -1.0 && rate >= e.blksPerSec
    ensures RawState(e.(secSinceLastBlk := sec, blksPerSec := rate), history) == Synchronizing
  {
    hide RawState;
    var e' := e.(secSinceLastBlk := sec, blksPerSec := rate);
    ObservedExactly(e, history, Synchronizing);
    ObservedExactly(e', history, Synchronizing);
  }

  lemma HealthyStaysReady(e: Sight, history: seq<State>)
    requires Healthy(e) && Ready in history
    ensures RawState(e, history) == Ready
  {
  }

  /** Once ready, always ready, for as long as every call finds the daemon healthy. */
  lemma {:induction false} ReadyIsSticky(calls: seq<Call>, i: nat, j: nat)
    requires i <= j < |calls| && Observed(calls, i) == Ready
    requires forall k | i < k <= j :: Healthy(calls[k].sight)
    ensures Observed(calls, j) == Ready && Returned(calls, j) == Ready
    decreases j
  {
    hide RawState, Record, After, Drops;
    if i < j {
      ReadyIsSticky(calls, i, j - 1);
      HistoryIs(calls[..j]);
      ObservedPrefix(calls, j, j - 1);
      ObservationAt(calls[..j], j - 1);
      var h := After(calls[..j]);
      assert h.states[|h.states| - 1] == Observations(calls[..j])[j - 1];
      assert Healthy(calls[j].sight);
      HealthyStaysReady(calls[j].sight, h.states);
    }
  }
}
