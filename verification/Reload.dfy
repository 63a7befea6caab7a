/**
 Hot reload of the database (src/mmdb/mmdb_reload.cpp) as a protocol between a writer that
 publishes new versions by renaming, the kernel's event queue, and the watcher thread. Every
 interleaving of the steps below is a run.
 */
module Reload {
  import opened Bytes

  /** An inotify event, with the parts of its mask the watcher looks at. */
  datatype Event = Event(gone: bool, overflow: bool, database: bool, name: string)

  /** The event may stand for a new database: ours by name, or a queue overflow. */
  predicate Relevant(base: string, e: Event) {
    e.overflow || (e.name != "" && e.database && e.name == base)
  }

  predicate AnyRelevant(base: string, es: seq<Event>) {
    exists k :: 0 <= k < |es| && Relevant(base, es[k])
  }

  predicate AnyGone(es: seq<Event>) {
    exists k :: 0 <= k < |es| && es[k].gone
  }

  /** The inner loop of `watch`, over one buffer of events. */
  method Scan(base: string, batch: seq<Event>, before: bool) returns (stop: bool, changed: bool)
    ensures stop <==> exists k :: 0 <= k < |batch| && batch[k].gone
    ensures !stop ==>
      (changed <==> || before
                    || (exists k :: 0 <= k < |batch| && batch[k].overflow)
                    || (exists k :: 0 <= k < |batch| && batch[k].database && batch[k].name == base != ""))
    ensures stop == AnyGone(batch) && (!stop ==> changed == (before || AnyRelevant(base, batch)))
  {
    changed := before;
    for k := 0 to |batch|
      invariant !AnyGone(batch[..k])
      invariant changed == (before || AnyRelevant(base, batch[..k]))
    {
      var event := batch[k];
      Shorter(base, batch, k);
      if event.gone {
        return true, changed;
      }
      if event.overflow {
        changed := true;
      }
      if event.name != "" && event.database && event.name == base {
        changed := true;
      }
    }
    assert batch[..|batch|] == batch;
    stop := false;
  }

  lemma Shorter(base: string, es: seq<Event>, k: nat)
    requires k < |es|
    ensures AnyRelevant(base, es[..k + 1]) <==> AnyRelevant(base, es[..k]) || Relevant(base, es[k])
    ensures AnyGone(es[..k + 1]) <==> AnyGone(es[..k]) || es[k].gone
    ensures es[k].gone ==> AnyGone(es)
  {
    AnyJoined(base, es[..k], [es[k]]);
    assert es[..k + 1] == es[..k] + [es[k]];
  }

  lemma AnyJoined(base: string, a: seq<Event>, b: seq<Event>)
    ensures AnyRelevant(base, a + b) <==> AnyRelevant(base, a) || AnyRelevant(base, b)
    ensures AnyGone(a + b) <==> AnyGone(a) || AnyGone(b)
    ensures |b| == 1 ==> (AnyRelevant(base, b) <==> Relevant(base, b[0])) && (AnyGone(b) <==> b[0].gone)
  {
    var c := a + b;
    assert forall k | 0 <= k < |a| :: c[k] == a[k];
    assert forall k | 0 <= k < |b| :: c[|a| + k] == b[k];
    if AnyRelevant(base, a) { var k :| 0 <= k < |a| && Relevant(base, a[k]); assert Relevant(base, c[k]); }
    if AnyRelevant(base, b) { var k :| 0 <= k < |b| && Relevant(base, b[k]); assert Relevant(base, c[|a| + k]); }
    if AnyGone(a) { var k :| 0 <= k < |a| && a[k].gone; assert c[k].gone; }
    if AnyGone(b) { var k :| 0 <= k < |b| && b[k].gone; assert c[|a| + k].gone; }
  }

  // ---------- the protocol ----------

  /** Where `open`, and later the watcher thread, stands. */
  datatype Phase =
    | NotOpen
    | InitialOpen
    | InitialCopy(v: nat)
    | Idle
    | Draining(changed: bool)
    | Opening
    | Copying(v: nat)
    | Counting
    | Stopped

  /**
   `version` is the version at the database path, `queue` the events not yet read, `current` the
   published snapshot, `reloads` the reload counter, `stored` how many reloads have published, and
   `failed` the versions some load of which failed.
   */
  datatype State = State(version: nat, queue: seq<Event>, current: Option<nat>, reloads: nat,
                         phase: Phase, stored: nat, failed: set<nat>)

  datatype Step =
    | Publish(e: Event)
    | Noise(e: Event)
    | Install
    | InitialOpens
    | InitialFails
    | Started
    | Wake
    | Read(k: nat)
    | Drained
    | Opens
    | OpenFails
    | LoadFails
    | Store
    | Count
    | Stop

  predicate Init(s: State) {
    s.phase == NotOpen && s.queue == [] && s.current == None && s.reloads == 0 && s.stored == 0 && s.failed == {}
  }

  /**
   The writer and the kernel, in their own terms. A rename queues a database event with our name, or
   an overflow event when the queue is full. The kernel may drop the event if an overflow is queued
   already, and merge it with an equal one.
   */
  predicate Outside(base: string, s: State, step: Step, s': State) {
    match step
    case Publish(e) =>
      if s.phase.NotOpen? then s' == s.(version := s.version + 1)
      else
        || ((e.overflow || (e.database && e.name == base != "")) && s' == s.(version := s.version + 1, queue := s.queue + [e]))
        || ((exists k :: 0 <= k < |s.queue| && (s.queue[k].overflow || (s.queue[k].database && s.queue[k].name == base != "")))
            && s' == s.(version := s.version + 1))
    case Noise(e) => !s.phase.NotOpen? && s' == s.(queue := s.queue + [e])
    case _ => false
  }

  /** `open`: the watch is installed before the first load. */
  predicate Opener(s: State, step: Step, s': State) {
    match step
    case Install => s.phase.NotOpen? && s' == s.(phase := InitialOpen)
    case InitialOpens => s.phase.InitialOpen? && s' == s.(phase := InitialCopy(s.version))
    case InitialFails =>
      (s.phase.InitialOpen? || s.phase.InitialCopy?) && s' == s.(phase := Stopped)
    case Started => s.phase.InitialCopy? && s' == s.(phase := Idle, current := Some(s.phase.v))
    case _ => false
  }

  predicate Live(s: State) {
    s.phase.Idle? || s.phase.Draining? || s.phase.Opening? || s.phase.Copying? || s.phase.Counting?
  }

  /** `watch` and `reload`. */
  predicate Watcher(base: string, s: State, step: Step, s': State) {
    match step
    case Wake => s.phase.Idle? && s.queue != [] && s' == s.(phase := Draining(false))
    case Read(k) =>
      && s.phase.Draining? && 0 < k <= |s.queue|
      && s' == s.(queue := s.queue[k..],
                  phase := if AnyGone(s.queue[..k]) then Stopped
                           else Draining(s.phase.changed || AnyRelevant(base, s.queue[..k])))
    case Drained =>
      s.phase.Draining? && s.queue == [] && s' == s.(phase := if s.phase.changed then Opening else Idle)
    case Opens => s.phase.Opening? && s' == s.(phase := Copying(s.version))
    case OpenFails => s.phase.Opening? && s' == s.(phase := Idle, failed := s.failed + {s.version})
    case LoadFails => s.phase.Copying? && s' == s.(phase := Idle, failed := s.failed + {s.phase.v})
    case Store =>
      s.phase.Copying? && s' == s.(phase := Counting, current := Some(s.phase.v), stored := s.stored + 1)
    case Count => s.phase.Counting? && s' == s.(phase := Idle, reloads := s.reloads + 1)
    case Stop => Live(s) && s' == s.(phase := Stopped)
    case _ => false
  }

  predicate Next(base: string, s: State, step: Step, s': State) {
    Outside(base, s, step, s') || Opener(s, step, s') || Watcher(base, s, step, s')
  }

  // ---------- what every step keeps ----------

  predicate UpToDate(s: State) {
    s.current == Some(s.version) || s.version in s.failed
  }

  /** The newest version is published, failed, being loaded, or announced by something unread. */
  predicate Announced(base: string, s: State) {
    var queued := AnyRelevant(base, s.queue);
    match s.phase
    case Idle => UpToDate(s) || queued
    case Draining(changed) => UpToDate(s) || changed || queued
    case Copying(v) => v == s.version || queued
    case InitialCopy(v) => v == s.version || queued
    case Counting => UpToDate(s) || queued
    case _ => true
  }

  predicate Ordered(s: State) {
    && (s.current.Some? ==> s.current.value <= s.version)
    && (Live(s) ==> s.current.Some?)
    && (s.phase.NotOpen? ==> s.queue == [] && s.current.None?)
    && (s.phase.InitialOpen? || s.phase.InitialCopy? ==> s.current.None?)
    && (s.phase.InitialCopy? ==> s.phase.v <= s.version)
    && (s.phase.Copying? ==> s.current.value <= s.phase.v <= s.version)
  }

  predicate Counted(s: State) {
    if s.phase.Counting? then s.stored == s.reloads + 1
    else if s.phase.Stopped? then s.reloads <= s.stored <= s.reloads + 1
    else s.stored == s.reloads
  }

  predicate Inv(base: string, s: State) {
    Announced(base, s) && Ordered(s) && Counted(s)
  }

  /** What the watcher's test sees in a queue. */
  lemma RelevantIff(base: string, es: seq<Event>)
    ensures AnyRelevant(base, es)
         <==> exists k :: 0 <= k < |es| && (es[k].overflow || (es[k].database && es[k].name == base != ""))
  {
    if AnyRelevant(base, es) {
      var k :| 0 <= k < |es| && Relevant(base, es[k]);
      assert es[k].overflow || (es[k].database && es[k].name == base != "");
    }
    if k :| 0 <= k < |es| && (es[k].overflow || (es[k].database && es[k].name == base != "")) {
      assert Relevant(base, es[k]);
    }
  }

  lemma OutsideKeeps(base: string, s: State, step: Step, s': State)
    requires Inv(base, s) && Outside(base, s, step, s')
    ensures Inv(base, s')
  {
    RelevantIff(base, s.queue);
    if s'.queue != s.queue {
      AnyJoined(base, s.queue, [step.e]);
    }
  }

  lemma WatcherKeeps(base: string, s: State, step: Step, s': State)
    requires Inv(base, s) && Watcher(base, s, step, s')
    ensures Inv(base, s')
  {
    if step.Read? {
      AnyJoined(base, s.queue[..step.k], s.queue[step.k..]);
      assert s.queue[..step.k] + s.queue[step.k..] == s.queue;
    }
  }

  lemma StepKeeps(base: string, s: State, step: Step, s': State)
    requires Inv(base, s) && Next(base, s, step, s')
    ensures Inv(base, s')
    ensures s.current.Some? ==> s'.current.Some? && s.current.value <= s'.current.value
    ensures s'.current != s.current ==> step.Started? || step.Store?
  {
    if Outside(base, s, step, s') {
      OutsideKeeps(base, s, step, s');
    } else if Watcher(base, s, step, s') {
      WatcherKeeps(base, s, step, s');
    }
  }

  // ---------- over whole runs ----------

  predicate Run(base: string, states: seq<State>, steps: seq<Step>) {
    && |states| == |steps| + 1 && Init(states[0])
    && forall i | 0 <= i < |steps| :: Next(base, states[i], steps[i], states[i + 1])
  }

  lemma {:induction false} RunKeeps(base: string, states: seq<State>, steps: seq<Step>, i: nat)
    requires Run(base, states, steps) && i < |states|
    ensures Inv(base, states[i])
  {
    if i > 0 {
      RunKeeps(base, states, steps, i - 1);
      StepKeeps(base, states[i - 1], steps[i - 1], states[i]);
    }
  }

  /**
   No update is lost: in every run, whenever the watcher waits and neither an overflow nor an event
   of our database is queued, the published snapshot is the version at the path, unless loading
   that version failed.
   */
  lemma NoLostUpdate(base: string, states: seq<State>, steps: seq<Step>, i: nat)
    requires Run(base, states, steps) && i < |states|
    requires states[i].phase.Idle?
    requires forall k | 0 <= k < |states[i].queue| ::
      !states[i].queue[k].overflow && !(states[i].queue[k].database && states[i].queue[k].name == base)
    ensures states[i].current == Some(states[i].version) || states[i].version in states[i].failed
  {
    RunKeeps(base, states, steps, i);
    RelevantIff(base, states[i].queue);
  }

  /** Published versions never go backwards, and a snapshot once published is never withdrawn. */
  lemma {:induction false} NeverBackwards(base: string, states: seq<State>, steps: seq<Step>, i: nat, j: nat)
    requires Run(base, states, steps) && i <= j < |states| && states[i].current.Some?
    ensures states[j].current.Some? && states[i].current.value <= states[j].current.value <= states[j].version
    decreases j
  {
    RunKeeps(base, states, steps, j);
    if i < j {
      NeverBackwards(base, states, steps, i, j - 1);
      RunKeeps(base, states, steps, j - 1);
      StepKeeps(base, states[j - 1], steps[j - 1], states[j]);
    }
  }

  /** The reload counter trails the published reloads by at most the one in progress. */
  lemma CounterTrails(base: string, states: seq<State>, steps: seq<Step>, i: nat)
    requires Run(base, states, steps) && i < |states|
    ensures states[i].reloads <= states[i].stored <= states[i].reloads + 1
    ensures !states[i].phase.Counting? && !states[i].phase.Stopped? ==> states[i].stored == states[i].reloads
  {
    RunKeeps(base, states, steps, i);
  }

  /** A load that fails leaves the published snapshot as it is. */
  lemma FailureKeepsSnapshot(base: string, states: seq<State>, steps: seq<Step>, i: nat)
    requires Run(base, states, steps) && i < |steps| && states[i + 1].current != states[i].current
    ensures steps[i].Started? || steps[i].Store?
    ensures steps[i].Store? ==> states[i].phase.Copying? && states[i + 1].current == Some(states[i].phase.v)
  {
    RunKeeps(base, states, steps, i);
    StepKeeps(base, states[i], steps[i], states[i + 1]);
  }

  // ---------- the watcher settles ----------

  /** An upper bound on the watcher's steps if nobody else moves. */
  function Work(s: State): nat {
    10 * |s.queue| +
    (match s.phase
     case Draining(_) => if s.queue == [] then 4 else 5
     case Idle => if s.queue == [] then 0 else 6
     case Counting => if s.queue == [] then 1 else 7
     case Copying(_) => if s.queue == [] then 2 else 8
     case Opening => if s.queue == [] then 3 else 9
     case _ => 0)
  }

  lemma WatcherWorks(base: string, s: State, step: Step, s': State)
    requires Watcher(base, s, step, s') && !step.Stop?
    ensures s'.phase.Stopped? || Work(s') < Work(s)
  {
  }

  /** A live watcher can move unless it waits on an empty queue. */
  lemma WatcherCanMove(base: string, s: State) returns (step: Step, s': State)
    requires Live(s) && !(s.phase.Idle? && s.queue == [])
    ensures Watcher(base, s, step, s') && !step.Stop?
  {
    match s.phase
    case Idle => step, s' := Wake, s.(phase := Draining(false));
    case Draining(changed) =>
      if s.queue == [] {
        step, s' := Drained, s.(phase := if changed then Opening else Idle);
      } else {
        var k := |s.queue|;
        step := Read(k);
        s' := s.(queue := s.queue[k..],
                 phase := if AnyGone(s.queue[..k]) then Stopped
                          else Draining(changed || AnyRelevant(base, s.queue[..k])));
      }
    case Opening => step, s' := Opens, s.(phase := Copying(s.version));
    case Copying(v) => step, s' := Store, s.(phase := Counting, current := Some(v), stored := s.stored + 1);
    case Counting => step, s' := Count, s.(phase := Idle, reloads := s.reloads + 1);
  }

  /** `states` is what the watcher alone does. */
  predicate Alone(base: string, states: seq<State>, steps: seq<Step>) {
    && |states| == |steps| + 1
    && forall i | 0 <= i < |steps| :: Watcher(base, states[i], steps[i], states[i + 1]) && !steps[i].Stop?
  }

  lemma {:induction false} AloneKeeps(base: string, states: seq<State>, steps: seq<Step>, i: nat)
    requires Alone(base, states, steps) && Inv(base, states[0]) && Live(states[0]) && i < |states|
    ensures Inv(base, states[i]) && states[i].version == states[0].version
    ensures Live(states[i]) || states[i].phase.Stopped?
    ensures states[i].phase.Stopped? || Work(states[i]) + i <= Work(states[0])
  {
    if i > 0 {
      AloneKeeps(base, states, steps, i - 1);
      WatcherKeeps(base, states[i - 1], steps[i - 1], states[i]);
      WatcherWorks(base, states[i - 1], steps[i - 1], states[i]);
    }
  }

  ghost predicate CanMove(base: string, s: State) {
    exists step: Step, s': State :: Watcher(base, s, step, s') && !step.Stop?
  }

  /**
   Left alone at any point of any run, the watcher makes at most `Work` steps, and where it can move
   no more it waits with the newest version published or found unloadable, unless its directory is gone.
   */
  lemma WatcherSettles(base: string, run: seq<State>, moves: seq<Step>, states: seq<State>, steps: seq<Step>)
    requires Run(base, run, moves) && Alone(base, states, steps) && states[0] == run[|moves|] && Live(states[0])
    ensures
      var last := states[|steps|];
      || last.phase.Stopped?
      || (|steps| <= Work(states[0])
          && (!CanMove(base, last) ==>
                last.phase.Idle? && last.queue == [] && (last.current == Some(last.version) || last.version in last.failed)))
  {
    RunKeeps(base, run, moves, |moves|);
    AloneKeeps(base, states, steps, |steps|);
    var last := states[|steps|];
    if Live(last) && !(last.phase.Idle? && last.queue == []) {
      var step, s' := WatcherCanMove(base, last);
    }
  }
}
