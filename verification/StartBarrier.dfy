/**
 * The start barrier of the benchmark: workers count themselves ready, the main thread waits for all of them and then
 * gives the order to start. Each critical section is one step; waiting on a condition variable may be interrupted by
 * spurious wakeups.
 */
module StartBarrier {

  /** Where a worker is. `MustNotify` has announced itself and not yet notified; `AtFlag` is about to look at the flag. */
  datatype Worker = NotSpawned | Starting | MustNotify | AtFlag | BlockedOnFlag | Working | Finished

  datatype MainThread =
    | Spawning(next: nat)
    | AtCountdown
    | BlockedOnCountdown
    | SettingFlag
    | NotifyingAll
    | Joining(next: nat)
    | Returned

  datatype State = State(workers: seq<Worker>, main: MainThread, countdown: nat, flag: bool)

  datatype Event =
    | Spawn
    | Announce(i: nat)
    | NotifyMain(i: nat)
    | LookAtFlag(i: nat)
    | EndWork(i: nat)
    | LookAtCountdown
    | SetFlag
    | NotifyAll
    | Join
    | SpuriousWorker(i: nat)
    | SpuriousMain

  const UINT32: nat := 0x1_0000_0000

  predicate Spurious(e: Event) {
    e.SpuriousWorker? || e.SpuriousMain?
  }

  predicate ByWorker(e: Event) {
    e.Announce? || e.NotifyMain? || e.LookAtFlag? || e.EndWork? || e.SpuriousWorker?
  }

  predicate At(s: State, i: nat, w: Worker) {
    i < |s.workers| && s.workers[i] == w
  }

  /** A join returns once its thread has ended. */
  predicate Enabled(s: State, e: Event) {
    match e
    case Spawn => s.main.Spawning?
    case Announce(i) => At(s, i, Starting)
    case NotifyMain(i) => At(s, i, MustNotify)
    case LookAtFlag(i) => At(s, i, AtFlag)
    case EndWork(i) => At(s, i, Working)
    case LookAtCountdown => s.main == AtCountdown
    case SetFlag => s.main == SettingFlag
    case NotifyAll => s.main == NotifyingAll
    case Join => s.main.Joining? && (s.main.next < |s.workers| ==> s.workers[s.main.next] == Finished)
    case SpuriousWorker(i) => At(s, i, BlockedOnFlag)
    case SpuriousMain => s.main == BlockedOnCountdown
  }

  function Woken(workers: seq<Worker>): (r: seq<Worker>)
    ensures |r| == |workers|
    ensures forall i :: 0 <= i < |r| ==> r[i] == if workers[i] == BlockedOnFlag then AtFlag else workers[i]
  {
    if workers == [] then []
    else
      var last := workers[|workers| - 1];
      Woken(workers[..|workers| - 1]) + [if last == BlockedOnFlag then AtFlag else last]
  }

  function Apply(s: State, e: Event): State
    requires Enabled(s, e)
  {
    match e
    case Spawn =>
      if s.main.next < |s.workers| then
        s.(workers := s.workers[s.main.next := Starting], main := Spawning(s.main.next + 1))
      else s.(main := AtCountdown)
    case Announce(i) => s.(workers := s.workers[i := MustNotify], countdown := (s.countdown + UINT32 - 1) % UINT32)
    case NotifyMain(i) =>
      s.(workers := s.workers[i := AtFlag], main := if s.main == BlockedOnCountdown then AtCountdown else s.main)
    case LookAtFlag(i) => s.(workers := s.workers[i := if s.flag then Working else BlockedOnFlag])
    case EndWork(i) => s.(workers := s.workers[i := Finished])
    case LookAtCountdown => s.(main := if s.countdown == 0 then SettingFlag else BlockedOnCountdown)
    case SetFlag => s.(flag := true, main := NotifyingAll)
    case NotifyAll => s.(workers := Woken(s.workers), main := Joining(0))
    case Join => if s.main.next < |s.workers| then s.(main := Joining(s.main.next + 1)) else s.(main := Returned)
    case SpuriousWorker(i) => s.(workers := s.workers[i := AtFlag])
    case SpuriousMain => s.(main := AtCountdown)
  }

  ghost predicate Initial(s: State) {
    && |s.workers| < UINT32
    && (forall i :: 0 <= i < |s.workers| ==> s.workers[i] == NotSpawned)
    && s.main == Spawning(0) && s.countdown == |s.workers| && !s.flag
  }

  ghost predicate Run(states: seq<State>, events: seq<Event>) {
    && |states| == |events| + 1
    && Initial(states[0])
    && forall i :: 0 <= i < |events| ==> Enabled(states[i], events[i]) && states[i + 1] == Apply(states[i], events[i])
  }

  // ---------------------------------------------------------------- counting

  predicate Unannounced(w: Worker) {
    w == NotSpawned || w == Starting
  }

  function CountUnannounced(workers: seq<Worker>): (n: nat)
    ensures n <= |workers|
    ensures n == 0 <==> forall i :: 0 <= i < |workers| ==> !Unannounced(workers[i])
  {
    if workers == [] then 0
    else CountUnannounced(workers[..|workers| - 1]) + if Unannounced(workers[|workers| - 1]) then 1 else 0
  }

  lemma {:induction false} CountUpdate(workers: seq<Worker>, i: nat, w: Worker)
    requires i < |workers|
    ensures CountUnannounced(workers[i := w]) + (if Unannounced(workers[i]) then 1 else 0)
         == CountUnannounced(workers) + if Unannounced(w) then 1 else 0
    decreases |workers|
  {
    var n := |workers| - 1;
    if i < n {
      CountUpdate(workers[..n], i, w);
      assert workers[i := w][..n] == workers[..n][i := w];
    } else {
      assert workers[i := w][..n] == workers[..n];
    }
  }

  lemma {:induction false} CountAll(workers: seq<Worker>)
    requires forall i :: 0 <= i < |workers| ==> Unannounced(workers[i])
    ensures CountUnannounced(workers) == |workers|
    decreases |workers|
  {
    if workers != [] {
      CountAll(workers[..|workers| - 1]);
    }
  }

  // ---------------------------------------------------------------- the invariant

  /** The flag is up exactly after the main thread has set it. */
  predicate FlagWasSet(m: MainThread) {
    m == NotifyingAll || m.Joining? || m == Returned
  }

  ghost predicate Inv(s: State) {
    && |s.workers| < UINT32
    && s.countdown == CountUnannounced(s.workers)
    && (s.flag <==> FlagWasSet(s.main))
    && (s.main == SettingFlag || s.flag ==> s.countdown == 0)
    && (s.main.Spawning? ==> s.main.next <= |s.workers|)
    && (s.main.Joining? ==> s.main.next <= |s.workers|)
    && (forall i :: 0 <= i < |s.workers| ==> WorkerOk(s, i))
    && (s.main == BlockedOnCountdown && s.countdown == 0 ==> exists i :: 0 <= i < |s.workers| && s.workers[i] == MustNotify)
  }

  ghost predicate WorkerOk(s: State, i: nat)
    requires i < |s.workers|
  {
    && (s.workers[i] == NotSpawned <==> s.main.Spawning? && s.main.next <= i)
    && (s.workers[i] == Working || s.workers[i] == Finished ==> s.flag)
    && (s.workers[i] == BlockedOnFlag && s.flag ==> s.main == NotifyingAll)
    && (s.main.Joining? && i < s.main.next ==> s.workers[i] == Finished)
    && (s.main == Returned ==> s.workers[i] == Finished)
  }

  lemma InitialInv(s: State)
    requires Initial(s)
    ensures Inv(s)
  {
    CountAll(s.workers);
  }

  lemma WorkerStepKeeps(s: State, e: Event)
    requires Inv(s) && Enabled(s, e)
    requires ByWorker(e)
    ensures Inv(Apply(s, e))
  {
    hide CountUnannounced;
    var s' := Apply(s, e);
    assert WorkerOk(s, e.i);
    CountUpdate(s.workers, e.i, s'.workers[e.i]);
    forall j | 0 <= j < |s'.workers| ensures WorkerOk(s', j) {
      assert WorkerOk(s, j);
    }
    if e.Announce? {
      assert s'.workers[e.i] == MustNotify;
    } else if s'.main == BlockedOnCountdown && s'.countdown == 0 {
      var j :| 0 <= j < |s.workers| && s.workers[j] == MustNotify;
      assert s'.workers[j] == MustNotify;
    }
  }

  lemma MainStepKeeps(s: State, e: Event)
    requires Inv(s) && Enabled(s, e)
    requires !ByWorker(e)
    ensures Inv(Apply(s, e))
  {
    var s' := Apply(s, e);
    if e.Spawn? && s.main.next < |s.workers| {
      CountUpdate(s.workers, s.main.next, Starting);
      assert WorkerOk(s, s.main.next);
    }
    if e.NotifyAll? {
      assert forall j :: 0 <= j < |s.workers| ==> !Unannounced(s.workers[j]);
    }
    forall j | 0 <= j < |s'.workers| ensures WorkerOk(s', j) {
      assert WorkerOk(s, j);
    }
  }

  lemma {:induction false} InvAlways(states: seq<State>, events: seq<Event>, k: nat)
    requires Run(states, events) && k < |states|
    ensures Inv(states[k])
    decreases k
  {
    hide Inv, Apply, Enabled;
    if k == 0 {
      InitialInv(states[0]);
    } else {
      InvAlways(states, events, k - 1);
      var s, e := states[k - 1], events[k - 1];
      if ByWorker(e) {
        WorkerStepKeeps(s, e);
      } else {
        MainStepKeeps(s, e);
      }
    }
  }

  // ---------------------------------------------------------------- what the barrier is for

  /** No worker works before all have announced themselves, and the countdown is always the number that have not. */
  lemma NobodyStartsEarly(states: seq<State>, events: seq<Event>, k: nat, i: nat)
    requires Run(states, events) && k < |states| && i < |states[k].workers|
    ensures states[k].countdown == CountUnannounced(states[k].workers)
    ensures states[k].workers[i] == Working || states[k].workers[i] == Finished ==>
              forall j :: 0 <= j < |states[k].workers| ==> !Unannounced(states[k].workers[j])
  {
    InvAlways(states, events, k);
    assert WorkerOk(states[k], i);
  }

  /** Everybody is done. */
  predicate Over(s: State) {
    s.main == Returned && forall i :: 0 <= i < |s.workers| ==> s.workers[i] == Finished
  }

  /** No wakeup is lost: as long as not everybody is done, some thread can go on without a spurious wakeup. */
  lemma NoDeadlock(states: seq<State>, events: seq<Event>, k: nat)
    requires Run(states, events) && k < |states|
    ensures Over(states[k]) <==> !exists e :: Enabled(states[k], e) && !Spurious(e)
  {
    InvAlways(states, events, k);
    var s := states[k];
    if !Over(s) {
      SomeoneCanGoOn(s);
    } else {
      forall e | Enabled(s, e) ensures Spurious(e) {}
    }
  }

  lemma SomeoneCanGoOn(s: State)
    requires Inv(s) && !Over(s)
    ensures exists e :: Enabled(s, e) && !Spurious(e)
  {
    match s.main
    case Spawning(_) => assert Enabled(s, Spawn);
    case AtCountdown => assert Enabled(s, LookAtCountdown);
    case BlockedOnCountdown =>
      if s.countdown == 0 {
        var i :| 0 <= i < |s.workers| && s.workers[i] == MustNotify;
        assert Enabled(s, NotifyMain(i));
      } else {
        var i :| 0 <= i < |s.workers| && Unannounced(s.workers[i]);
        assert WorkerOk(s, i);
        assert Enabled(s, Announce(i));
      }
    case SettingFlag => assert Enabled(s, SetFlag);
    case NotifyingAll => assert Enabled(s, NotifyAll);
    case Joining(next) =>
      if next < |s.workers| && s.workers[next] != Finished {
        assert WorkerOk(s, next) && !Unannounced(s.workers[next]);
        assert Enabled(s, NotifyMain(next)) || Enabled(s, LookAtFlag(next)) || Enabled(s, EndWork(next));
      } else {
        assert Enabled(s, Join);
      }
    case Returned =>
      var i :| 0 <= i < |s.workers| && s.workers[i] != Finished;
      assert WorkerOk(s, i);
  }

  /** A worker that has finished has done its work. */
  lemma {:induction false} FinishedHasWorked(states: seq<State>, events: seq<Event>, k: nat, i: nat)
    requires Run(states, events) && k <= |events| && At(states[k], i, Finished)
    ensures exists j :: 0 < j < k && At(states[j], i, Working) && events[j] == EndWork(i)
    decreases k
  {
    if k > 0 {
      var s, e := states[k - 1], events[k - 1];
      assert Enabled(s, e) && states[k] == Apply(s, e);
      if At(s, i, Finished) {
        FinishedHasWorked(states, events, k - 1, i);
      } else {
        assert e == EndWork(i) && At(states[k - 1], i, Working);
      }
    }
  }

  /** When the main thread returns, every worker has worked, each after all had announced themselves. */
  lemma AllHaveWorked(states: seq<State>, events: seq<Event>, k: nat, i: nat)
    requires Run(states, events) && k <= |events| && states[k].main == Returned && i < |states[k].workers|
    ensures exists j ::
              && 0 < j < k && At(states[j], i, Working) && events[j] == EndWork(i)
              && forall w :: 0 <= w < |states[j].workers| ==> !Unannounced(states[j].workers[w])
  {
    InvAlways(states, events, k);
    assert WorkerOk(states[k], i);
    FinishedHasWorked(states, events, k, i);
    var j :| 0 < j < k && At(states[j], i, Working) && events[j] == EndWork(i);
    NobodyStartsEarly(states, events, j, i);
  }

  // ---------------------------------------------------------------- it ends: every step brings the end nearer, but for a
  // spurious wakeup, which puts it off by one

  function WorkerWeight(w: Worker): nat {
    match w
    case NotSpawned => 7
    case Starting => 6
    case MustNotify => 5
    case AtFlag => 3
    case BlockedOnFlag => 2
    case Working => 1
    case Finished => 0
  }

  function MainWeight(m: MainThread, n: nat): int {
    match m
    case Spawning(next) => 3 * n + 7 - next
    case AtCountdown => 2 * n + 6
    case BlockedOnCountdown => 2 * n + 5
    case SettingFlag => 2 * n + 4
    case NotifyingAll => 2 * n + 3
    case Joining(next) => n + 1 - next
    case Returned => 0
  }

  function Weights(workers: seq<Worker>): nat {
    if workers == [] then 0 else Weights(workers[..|workers| - 1]) + WorkerWeight(workers[|workers| - 1])
  }

  function Measure(s: State): int {
    Weights(s.workers) + MainWeight(s.main, |s.workers|)
  }

  lemma {:induction false} WeightsUpdate(workers: seq<Worker>, i: nat, w: Worker)
    requires i < |workers|
    ensures Weights(workers[i := w]) == Weights(workers) - WorkerWeight(workers[i]) + WorkerWeight(w)
    decreases |workers|
  {
    var n := |workers| - 1;
    if i < n {
      WeightsUpdate(workers[..n], i, w);
      assert workers[i := w][..n] == workers[..n][i := w];
    } else {
      assert workers[i := w][..n] == workers[..n];
    }
  }

  lemma {:induction false} WeightsWoken(workers: seq<Worker>)
    ensures Weights(Woken(workers)) <= Weights(workers) + |workers|
    decreases |workers|
  {
    if workers != [] {
      var n := |workers| - 1;
      WeightsWoken(workers[..n]);
      assert Woken(workers)[..n] == Woken(workers[..n]);
    }
  }

  lemma {:induction false} WeightsInitially(workers: seq<Worker>)
    requires forall i :: 0 <= i < |workers| ==> workers[i] == NotSpawned
    ensures Weights(workers) == 7 * |workers|
    decreases |workers|
  {
    if workers != [] {
      WeightsInitially(workers[..|workers| - 1]);
    }
  }

  lemma WorkerStepDecreases(s: State, e: Event)
    requires Enabled(s, e) && ByWorker(e)
    ensures Measure(Apply(s, e)) <= Measure(s) + if Spurious(e) then 1 else -1
  {
    hide Weights;
    var s' := Apply(s, e);
    WeightsUpdate(s.workers, e.i, s'.workers[e.i]);
    assert s'.workers == s.workers[e.i := s'.workers[e.i]];
  }

  lemma MainStepDecreases(s: State, e: Event)
    requires Inv(s) && Enabled(s, e) && !ByWorker(e)
    ensures Measure(Apply(s, e)) <= Measure(s) + if Spurious(e) then 1 else -1
  {
    hide Weights, CountUnannounced, Woken;
    if e.NotifyAll? {
      WeightsWoken(s.workers);
    } else if e.Spawn? && s.main.next < |s.workers| {
      assert WorkerOk(s, s.main.next);
      WeightsUpdate(s.workers, s.main.next, Starting);
    }
  }

  lemma MeasureNotNegative(s: State)
    requires Inv(s)
    ensures Measure(s) >= 0
  {
    hide Weights, CountUnannounced, WorkerOk;
  }

  function CountSpurious(events: seq<Event>): nat {
    if events == [] then 0
    else CountSpurious(events[..|events| - 1]) + if Spurious(events[|events| - 1]) then 1 else 0
  }

  lemma InitialMeasure(s: State)
    requires Initial(s)
    ensures Measure(s) == 10 * |s.workers| + 7
  {
    WeightsInitially(s.workers);
  }

  lemma {:induction false} MeasureAfter(states: seq<State>, events: seq<Event>, k: nat)
    requires Run(states, events) && k <= |events|
    ensures 0 <= Measure(states[k]) <= Measure(states[0]) + 2 * CountSpurious(events[..k]) - k
    decreases k
  {
    hide Inv, Apply, Enabled, Measure;
    InitialMeasure(states[0]);
    if k > 0 {
      MeasureAfter(states, events, k - 1);
      InvAlways(states, events, k - 1);
      if ByWorker(events[k - 1]) {
        WorkerStepDecreases(states[k - 1], events[k - 1]);
      } else {
        MainStepDecreases(states[k - 1], events[k - 1]);
      }
      InvAlways(states, events, k);
      MeasureNotNegative(states[k]);
      assert events[..k][..k - 1] == events[..k - 1];
    }
  }

  /** With n workers a run has at most 10 n + 7 steps, and two more for each spurious wakeup. */
  lemma RunsEnd(states: seq<State>, events: seq<Event>)
    requires Run(states, events)
    ensures |events| <= 10 * |states[0].workers| + 7 + 2 * CountSpurious(events)
  {
    MeasureAfter(states, events, |events|);
    assert events[..|events|] == events;
    InitialMeasure(states[0]);
  }
}
