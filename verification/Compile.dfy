/**
 Compiling all blocklists (`compile_to_mmdb` in src/firehol_blocklist_ipsets/compiler.cpp): workers
 claim files from a shared counter and insert batches into one builder. Every interleaving of the
 steps below is a run; inserting a batch is one step because it holds the builder's lock.
 */
module Compile {
  import opened Bytes
  import opened ContentOrder
  import opened Trie
  import opened TrieShape
  import opened Database

  /** What reading one file inserts, batch by batch, and whether the whole file can be read. */
  datatype File = File(batches: seq<seq<Network>>, parses: bool)

  function Flatten(bs: seq<seq<Network>>): seq<Network> {
    if bs == [] then [] else Flatten(bs[..|bs| - 1]) + bs[|bs| - 1]
  }

  function NetworksOf(f: File): seq<Network> {
    Flatten(f.batches)
  }

  /** All networks, file after file. */
  function AllNetworks(files: seq<File>): seq<Network> {
    if files == [] then [] else AllNetworks(files[..|files| - 1]) + NetworksOf(files[|files| - 1])
  }

  datatype Worker =
    | Ready(parsed: nat)
    | Working(file: nat, flushed: nat, parsed: nat)
    | Leaving(parsed: nat)
    | Done

  datatype Outcome = Running | Published(total: nat, stats: seq<Option<nat>>, bytes: seq<byte>) | Aborted

  /**
   `next` is the shared file counter, `stats` has a slot per file, `errors` are the workers that
   failed, `history` the networks inserted so far and `started` the files claimed, in order.
   */
  datatype State = State(next: nat, workers: seq<Worker>, stats: seq<Option<nat>>, errors: set<nat>,
                         total: nat, history: seq<Network>, started: seq<nat>, outcome: Outcome)

  datatype Step = Claim | Flush | Complete | Fail | AddTotal | Finish

  predicate Init(files: seq<File>, s: State) {
    && s.next == 0 && s.total == 0 && s.errors == {} && s.history == [] && s.started == [] && s.outcome == Running
    && |s.stats| == |files| && (forall f | 0 <= f < |files| :: s.stats[f] == None)
    && (forall w | 0 <= w < |s.workers| :: s.workers[w] == Ready(0))
    && (files != [] ==> s.workers != [])
  }

  predicate AllDone(s: State) {
    forall w | 0 <= w < |s.workers| :: s.workers[w].Done?
  }

  /** A step of worker `w`. */
  predicate WorkerStep(files: seq<File>, s: State, step: Step, w: nat, s': State) {
    && w < |s.workers| && s.outcome == Running
    && match step
       case Claim =>
         && s.workers[w].Ready?
         && if s.next < |files|
            then s' == s.(next := s.next + 1, started := s.started + [s.next],
                          workers := s.workers[w := Working(s.next, 0, s.workers[w].parsed)])
            else s' == s.(next := s.next + 1, workers := s.workers[w := Leaving(s.workers[w].parsed)])
       case Flush =>
         && s.workers[w].Working? && s.workers[w].file < |files|
         && s.workers[w].flushed < |files[s.workers[w].file].batches|
         && s' == s.(history := s.history + files[s.workers[w].file].batches[s.workers[w].flushed],
                     workers := s.workers[w := s.workers[w].(flushed := s.workers[w].flushed + 1)])
       case Complete =>
         && s.workers[w].Working? && s.workers[w].file < |files| && |s.stats| == |files|
         && s.workers[w].flushed == |files[s.workers[w].file].batches| && files[s.workers[w].file].parses
         && var count := |NetworksOf(files[s.workers[w].file])|;
            s' == s.(stats := s.stats[s.workers[w].file := Some(count)],
                     workers := s.workers[w := Ready(s.workers[w].parsed + count)])
       case Fail =>
         && s.workers[w].Working?
         && s' == s.(errors := s.errors + {w}, workers := s.workers[w := Leaving(s.workers[w].parsed)])
       case AddTotal =>
         && s.workers[w].Leaving?
         && s' == s.(total := s.total + s.workers[w].parsed, workers := s.workers[w := Done])
       case Finish => false
  }

  /** After all workers have ended: publish, or give up if one failed. */
  predicate Finishes(sortKey: Key, s: State, s': State) {
    && s.outcome == Running && AllDone(s)
    && s' == s.(outcome := if s.errors == {}
                           then Published(s.total, s.stats, Image(BuiltTree(sortKey, s.history)))
                           else Aborted)
  }

  predicate Next(sortKey: Key, files: seq<File>, s: State, step: Step, w: nat, s': State) {
    if step.Finish? then Finishes(sortKey, s, s') else WorkerStep(files, s, step, w, s')
  }

  // ---------- sums ----------

  function Parsed(w: Worker): nat {
    if w.Done? then 0 else w.parsed
  }

  function ParsedSum(ws: seq<Worker>): nat {
    if ws == [] then 0 else ParsedSum(ws[..|ws| - 1]) + Parsed(ws[|ws| - 1])
  }

  function Counted(c: Option<nat>): nat {
    if c.None? then 0 else c.value
  }

  function StatsSum(stats: seq<Option<nat>>): nat {
    if stats == [] then 0 else StatsSum(stats[..|stats| - 1]) + Counted(stats[|stats| - 1])
  }

  lemma {:induction false} ParsedSumUpdate(ws: seq<Worker>, k: nat, w: Worker)
    requires k < |ws|
    ensures ParsedSum(ws[k := w]) + Parsed(ws[k]) == ParsedSum(ws) + Parsed(w)
  {
    var ws' := ws[k := w];
    if k == |ws| - 1 {
      assert ws'[..|ws| - 1] == ws[..|ws| - 1];
    } else {
      ParsedSumUpdate(ws[..|ws| - 1], k, w);
      assert ws'[..|ws| - 1] == ws[..|ws| - 1][k := w];
    }
  }

  lemma {:induction false} StatsSumUpdate(stats: seq<Option<nat>>, k: nat, c: Option<nat>)
    requires k < |stats|
    ensures StatsSum(stats[k := c]) + Counted(stats[k]) == StatsSum(stats) + Counted(c)
  {
    var stats' := stats[k := c];
    if k == |stats| - 1 {
      assert stats'[..|stats| - 1] == stats[..|stats| - 1];
    } else {
      StatsSumUpdate(stats[..|stats| - 1], k, c);
      assert stats'[..|stats| - 1] == stats[..|stats| - 1][k := c];
    }
  }

  lemma {:induction false} NothingParsed(ws: seq<Worker>)
    requires forall w | 0 <= w < |ws| :: Parsed(ws[w]) == 0
    ensures ParsedSum(ws) == 0
  {
    if ws != [] {
      NothingParsed(ws[..|ws| - 1]);
    }
  }

  lemma {:induction false} NothingCounted(stats: seq<Option<nat>>)
    requires forall f | 0 <= f < |stats| :: stats[f] == None
    ensures StatsSum(stats) == 0
  {
    if stats != [] {
      NothingCounted(stats[..|stats| - 1]);
    }
  }

  // ---------- what every step keeps ----------

  /** Which files are taken: each below the counter by one worker, completed, or lost to a failure. */
  predicate Claims(files: seq<File>, s: State) {
    && |s.stats| == |files|
    && |s.started| == (if s.next < |files| then s.next else |files|)
    && (forall i | 0 <= i < |s.started| :: s.started[i] == i)
    && (forall w | 0 <= w < |s.workers| && s.workers[w].Working? ::
          s.workers[w].file < |s.started| && s.stats[s.workers[w].file].None?)
    && (forall v, w | 0 <= v < w < |s.workers| && s.workers[v].Working? && s.workers[w].Working? ::
          s.workers[v].file != s.workers[w].file)
    && (forall f | 0 <= f < |files| && s.stats[f].Some? ::
          f < |s.started| && files[f].parses && s.stats[f].value == |NetworksOf(files[f])|)
  }

  predicate Held(ws: seq<Worker>, f: nat) {
    exists w :: 0 <= w < |ws| && ws[w].Working? && ws[w].file == f
  }

  /** A worker that left without failing has seen the counter pass the last file. */
  predicate Left(files: seq<File>, s: State, w: nat)
    requires w < |s.workers|
  {
    s.workers[w].Leaving? || s.workers[w].Done? ==> s.next > |files|
  }

  /** Without a failure no claimed file is lost. */
  predicate NothingLost(files: seq<File>, s: State)
    requires |s.stats| == |files|
  {
    s.errors == {} ==>
      && (forall f | 0 <= f < |s.started| && f < |files| :: s.stats[f].Some? || Held(s.workers, f))
      && (forall w | 0 <= w < |s.workers| :: Left(files, s, w))
  }

  predicate Sums(s: State) {
    s.total + ParsedSum(s.workers) == StatsSum(s.stats)
  }

  predicate Contains(history: seq<Network>, ns: seq<Network>) {
    forall n | n in ns :: n in history
  }

  /** The part of a file a worker has inserted so far. */
  predicate Partly(files: seq<File>, s: State, w: nat)
    requires w < |s.workers|
  {
    s.workers[w].Working? ==>
      && s.workers[w].file < |files| && s.workers[w].flushed <= |files[s.workers[w].file].batches|
      && Contains(s.history, Flatten(files[s.workers[w].file].batches[..s.workers[w].flushed]))
  }

  /** Only networks of the files are inserted, and those of completed files all are. */
  predicate Inserted(files: seq<File>, s: State)
    requires |s.stats| == |files|
  {
    && Contains(AllNetworks(files), s.history)
    && (forall f | 0 <= f < |files| && s.stats[f].Some? :: Contains(s.history, NetworksOf(files[f])))
    && (forall w | 0 <= w < |s.workers| :: Partly(files, s, w))
  }

  predicate Ended(sortKey: Key, s: State) {
    && (s.outcome.Published? ==>
          s.errors == {} && AllDone(s) && s.outcome == Published(s.total, s.stats, Image(BuiltTree(sortKey, s.history))))
    && (s.outcome.Aborted? ==> s.errors != {})
  }

  predicate Inv(sortKey: Key, files: seq<File>, s: State) {
    && Claims(files, s) && NothingLost(files, s) && Sums(s) && Inserted(files, s) && Ended(sortKey, s)
    && (files != [] ==> s.workers != [])
  }

  lemma InitInv(sortKey: Key, files: seq<File>, s: State)
    requires Init(files, s)
    ensures Inv(sortKey, files, s)
  {
    NothingParsed(s.workers);
    NothingCounted(s.stats);
  }

  lemma StepClaims(files: seq<File>, s: State, step: Step, w: nat, s': State)
    requires Claims(files, s) && WorkerStep(files, s, step, w, s')
    ensures Claims(files, s')
  {
    match step
    case Claim =>
    case Flush =>
    case Complete =>
    case Fail =>
    case AddTotal =>
  }

  lemma HeldStays(ws: seq<Worker>, w: nat, x: Worker, f: nat)
    requires w < |ws| && Held(ws, f)
    requires ws[w].Working? && ws[w].file == f ==> x.Working? && x.file == f
    ensures Held(ws[w := x], f)
  {
    var v :| 0 <= v < |ws| && ws[v].Working? && ws[v].file == f;
    assert ws[w := x][v].Working? && ws[w := x][v].file == f;
  }

  lemma StepLosesNothing(files: seq<File>, s: State, step: Step, w: nat, s': State)
    requires Claims(files, s) && NothingLost(files, s) && WorkerStep(files, s, step, w, s')
    ensures |s'.stats| == |files| && NothingLost(files, s')
  {
    if s'.errors == {} {
      forall f | 0 <= f < |s'.started| && f < |files| ensures s'.stats[f].Some? || Held(s'.workers, f) {
        if step.Claim? && f == s.next {
          assert s'.workers[w].Working? && s'.workers[w].file == f;
        } else if s.stats[f].None? && s'.stats[f].None? {
          assert Held(s.workers, f);
          HeldStays(s.workers, w, s'.workers[w], f);
          assert s'.workers == s.workers[w := s'.workers[w]];
        }
      }
      forall v | 0 <= v < |s'.workers| ensures Left(files, s', v) {
        assert Left(files, s, v);
      }
    }
  }

  lemma StepSums(files: seq<File>, s: State, step: Step, w: nat, s': State)
    requires Claims(files, s) && Sums(s) && WorkerStep(files, s, step, w, s')
    ensures Sums(s')
  {
    ParsedSumUpdate(s.workers, w, s'.workers[w]);
    assert s'.workers == s.workers[w := s'.workers[w]];
    if step.Complete? {
      StatsSumUpdate(s.stats, s.workers[w].file, s'.stats[s.workers[w].file]);
    }
  }

  // ---------- the networks inserted ----------

  lemma {:induction false} FlattenHolds(bs: seq<seq<Network>>, k: nat)
    requires k < |bs|
    ensures Contains(Flatten(bs), bs[k])
  {
    if k < |bs| - 1 {
      FlattenHolds(bs[..|bs| - 1], k);
    }
  }

  lemma {:induction false} AllHolds(files: seq<File>, f: nat)
    requires f < |files|
    ensures Contains(AllNetworks(files), NetworksOf(files[f]))
  {
    if f < |files| - 1 {
      AllHolds(files[..|files| - 1], f);
    }
  }

  /** Conversely every network of the whole comes from one of the files. */
  lemma {:induction false} AllComesFrom(files: seq<File>, n: Network)
    requires n in AllNetworks(files)
    ensures exists f :: 0 <= f < |files| && n in NetworksOf(files[f])
  {
    if n in NetworksOf(files[|files| - 1]) {
    } else {
      AllComesFrom(files[..|files| - 1], n);
      var f :| 0 <= f < |files| - 1 && n in NetworksOf(files[..|files| - 1][f]);
      assert n in NetworksOf(files[f]);
    }
  }

  lemma FlushInserts(files: seq<File>, s: State, w: nat, s': State)
    requires InsertedOk(files, s) && WorkerStep(files, s, Flush, w, s')
    ensures InsertedOk(files, s')
  {
    var f, k := s.workers[w].file, s.workers[w].flushed;
    var bs := files[f].batches;
    FlattenHolds(bs, k);
    AllHolds(files, f);
    assert bs[..k + 1][..k] == bs[..k];
    forall v | 0 <= v < |s'.workers| ensures Partly(files, s', v) {
      assert Partly(files, s, v) && Partly(files, s, w);
    }
  }

  predicate InsertedOk(files: seq<File>, s: State) {
    |s.stats| == |files| && Inserted(files, s)
  }

  lemma StepInserts(files: seq<File>, s: State, step: Step, w: nat, s': State)
    requires InsertedOk(files, s) && WorkerStep(files, s, step, w, s')
    ensures InsertedOk(files, s')
  {
    if step.Flush? {
      FlushInserts(files, s, w, s');
    } else {
      assert Partly(files, s, w);
      if step.Complete? {
        var bs := files[s.workers[w].file].batches;
        assert bs[..|bs|] == bs;
      }
      forall v | 0 <= v < |s'.workers| ensures Partly(files, s', v) {
        assert Partly(files, s, v);
      }
    }
  }

  lemma StepKeeps(sortKey: Key, files: seq<File>, s: State, step: Step, w: nat, s': State)
    requires Inv(sortKey, files, s) && Next(sortKey, files, s, step, w, s')
    ensures Inv(sortKey, files, s')
  {
    if !step.Finish? {
      StepClaims(files, s, step, w, s');
      StepLosesNothing(files, s, step, w, s');
      StepSums(files, s, step, w, s');
      StepInserts(files, s, step, w, s');
    } else {
      FinishKeeps(sortKey, files, s, s');
    }
  }

  lemma FinishKeeps(sortKey: Key, files: seq<File>, s: State, s': State)
    requires Inv(sortKey, files, s) && Finishes(sortKey, s, s')
    ensures Inv(sortKey, files, s')
  {
    forall w | 0 <= w < |s'.workers| ensures Partly(files, s', w) && (s'.errors == {} ==> Left(files, s', w)) {
      assert Partly(files, s, w) && (s.errors == {} ==> Left(files, s, w));
    }
  }

  // ---------- over whole runs ----------

  datatype Move = Move(step: Step, worker: nat)

  predicate Run(sortKey: Key, files: seq<File>, states: seq<State>, moves: seq<Move>) {
    && |states| == |moves| + 1 && Init(files, states[0])
    && forall i | 0 <= i < |moves| :: Next(sortKey, files, states[i], moves[i].step, moves[i].worker, states[i + 1])
  }

  lemma {:induction false} RunKeeps(sortKey: Key, files: seq<File>, states: seq<State>, moves: seq<Move>, i: nat)
    requires Run(sortKey, files, states, moves) && i < |states|
    ensures Inv(sortKey, files, states[i])
  {
    if i == 0 {
      InitInv(sortKey, files, states[0]);
    } else {
      RunKeeps(sortKey, files, states, moves, i - 1);
      StepKeeps(sortKey, files, states[i - 1], moves[i - 1].step, moves[i - 1].worker, states[i]);
    }
  }

  /** In every interleaving files are claimed in order, each at most once, and by one worker at a time. */
  lemma NoFileTwice(sortKey: Key, files: seq<File>, states: seq<State>, moves: seq<Move>, i: nat)
    requires Run(sortKey, files, states, moves) && i < |states|
    ensures |states[i].started| <= |files|
    ensures forall k | 0 <= k < |states[i].started| :: states[i].started[k] == k
    ensures forall v, w | 0 <= v < w < |states[i].workers| && states[i].workers[v].Working? && states[i].workers[w].Working? ::
      states[i].workers[v].file != states[i].workers[w].file
  {
    RunKeeps(sortKey, files, states, moves, i);
  }

  lemma {:induction false} FullSum(files: seq<File>, stats: seq<Option<nat>>)
    requires |stats| == |files| && forall f | 0 <= f < |files| :: stats[f] == Some(|NetworksOf(files[f])|)
    ensures StatsSum(stats) == |AllNetworks(files)|
  {
    if files != [] {
      FullSum(files[..|files| - 1], stats[..|stats| - 1]);
    }
  }

  lemma AllFilesDone(sortKey: Key, files: seq<File>, s: State, f: nat)
    requires Inv(sortKey, files, s) && s.outcome.Published? && f < |files|
    ensures |s.started| == |files| && files[f].parses && s.stats[f] == Some(|NetworksOf(files[f])|)
  {
    assert s.workers[0].Done? && Left(files, s, 0);
    assert s.stats[f].Some? || Held(s.workers, f);
  }

  lemma SameSet(sortKey: Key, files: seq<File>, s: State)
    requires Inv(sortKey, files, s) && s.outcome.Published?
    ensures Elems(s.history) == Elems(AllNetworks(files))
  {
    forall n | n in AllNetworks(files) ensures n in s.history {
      AllComesFrom(files, n);
      var f :| 0 <= f < |files| && n in NetworksOf(files[f]);
      AllFilesDone(sortKey, files, s, f);
    }
  }

  /**
   A published database is the same in every interleaving: each file was read exactly once and
   to its end, the total is the sum of the per-file counts, and the bytes are those of inserting the files in order.
   */
  lemma PublishedIsComplete(sortKey: Key, files: seq<File>, states: seq<State>, moves: seq<Move>, i: nat, keys: seq<Key>)
    requires Run(sortKey, files, states, moves) && i < |states| && states[i].outcome.Published?
    requires ColumnarNetworks(keys, AllNetworks(files))
    ensures |states[i].started| == |files|
    ensures states[i].outcome.total == StatsSum(states[i].outcome.stats) == |AllNetworks(files)|
    ensures |states[i].outcome.stats| == |files|
    ensures forall f | 0 <= f < |files| :: files[f].parses && states[i].outcome.stats[f] == Some(|NetworksOf(files[f])|)
    ensures states[i].outcome.bytes == Image(BuiltTree(sortKey, AllNetworks(files)))
  {
    var s := states[i];
    RunKeeps(sortKey, files, states, moves, i);
    forall f | 0 <= f < |files| ensures files[f].parses && s.stats[f] == Some(|NetworksOf(files[f])|) {
      AllFilesDone(sortKey, files, s, f);
    }
    if files != [] {
      AllFilesDone(sortKey, files, s, 0);
    }
    FullSum(files, s.stats);
    NothingParsed(s.workers);
    SameSet(sortKey, files, s);
    ReproducibleOutput(sortKey, keys, AllNetworks(files), s.history);
  }

  /** If a worker has failed, nothing is ever published. */
  lemma {:induction false} FailureNeverPublishes(sortKey: Key, files: seq<File>, states: seq<State>, moves: seq<Move>, i: nat, j: nat)
    requires Run(sortKey, files, states, moves) && i <= j < |states| && states[i].errors != {}
    ensures states[j].errors != {} && !states[j].outcome.Published?
    decreases j
  {
    RunKeeps(sortKey, files, states, moves, j);
    if i < j {
      FailureNeverPublishes(sortKey, files, states, moves, i, j - 1);
      assert Next(sortKey, files, states[j - 1], moves[j - 1].step, moves[j - 1].worker, states[j]);
      assert states[j - 1].errors <= states[j].errors;
    }
  }
}
