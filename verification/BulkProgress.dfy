/** The bulk import neither deadlocks nor runs forever. */
module BulkProgress {
  import opened Indexing
  import opened BulkIndex
  import opened BulkPipeline

  /** Steps still owed for the files not yet handed out: one per block, and one each to take, send and write. */
  function FilesOwed(files: seq<seq<Block>>): nat {
    if files == [] then 0 else |files[0]| + 3 + FilesOwed(files[1..])
  }

  function WorkerOwes(w: Worker): nat {
    if w.Busy? then |w.todo| + 2 else 0
  }

  function WorkersOwe(ws: seq<Worker>): nat {
    if ws == [] then 0 else WorkersOwe(ws[..|ws| - 1]) + WorkerOwes(ws[|ws| - 1])
  }

  /** The number of steps left. */
  function Owed(u: Setup, p: Pipeline): nat
    requires p.next <= |u.files|
  {
    FilesOwed(u.files[p.next..]) + WorkersOwe(p.workers) + (if p.pending.Some? then 1 else 0)
  }

  lemma {:induction false} WorkerChanged(ws: seq<Worker>, i: nat, w: Worker)
    requires i < |ws|
    ensures WorkersOwe(ws[i := w]) + WorkerOwes(ws[i]) == WorkersOwe(ws) + WorkerOwes(w)
  {
    var n := |ws| - 1;
    if i < n {
      WorkerChanged(ws[..n], i, w);
      assert ws[i := w][..n] == ws[..n][i := w];
    } else {
      assert ws[i := w][..n] == ws[..n];
    }
  }

  lemma {:induction false} IdleOweNothing(ws: seq<Worker>)
    ensures WorkersOwe(ws) == 0 <==> forall i :: 0 <= i < |ws| ==> ws[i].Idle?
  {
    if ws != [] {
      var n := |ws| - 1;
      IdleOweNothing(ws[..n]);
      assert forall i :: 0 <= i < n ==> ws[..n][i] == ws[i];
    }
  }

  /** The event does something in this state. */
  ghost predicate Enabled(u: Setup, p: Pipeline, e: Event) {
    match e
    case Take(w) => w < |p.workers| && p.workers[w].Idle? && p.next < |u.files|
    case Index(w) => w < |p.workers| && p.workers[w].Busy? && p.workers[w].todo != []
    case Send(w, sorted) =>
      w < |p.workers| && p.workers[w].Busy? && p.workers[w].todo == [] && p.pending.None? && IsSortOf(sorted, p.workers[w].batch.rows)
    case Write => p.pending.Some?
  }

  /** Every enabled step, of whichever thread, pays off exactly one of the steps owed. */
  lemma StepPaysOne(u: Setup, p: Pipeline, e: Event)
    requires p.next <= |u.files|
    ensures Step(u, p, e).next <= |u.files|
    ensures Owed(u, Step(u, p, e)) == Owed(u, p) - (if Enabled(u, p, e) then 1 else 0)
  {
    if Enabled(u, p, e) {
      match e
      case Take(w) =>
        WorkerChanged(p.workers, w, Busy(u.files[p.next], NO_BATCH));
        assert u.files[p.next..][1..] == u.files[p.next + 1..];
      case Index(w) =>
        WorkerChanged(p.workers, w, IndexNext(u, p, w).workers[w]);
      case Send(w, sorted) =>
        WorkerChanged(p.workers, w, Idle);
      case Write =>
    }
  }

  /** With at least one indexer thread, some step is enabled until the import has finished. */
  lemma NeverStuck(u: Setup, p: Pipeline) returns (e: Event)
    requires p.next <= |u.files| && |p.workers| > 0 && !Finished(u, p)
    ensures Enabled(u, p, e)
  {
    if p.pending.Some? {
      e := Write;
    } else if w :| 0 <= w < |p.workers| && p.workers[w].Busy? {
      e := if p.workers[w].todo != [] then Index(w) else Send(w, Sorted(p.workers[w].batch.rows));
    } else {
      assert p.workers[0].Idle?;
      e := Take(0);
    }
  }

  /** An import owes nothing exactly when it has finished. */
  lemma FinishedOwesNothing(u: Setup, p: Pipeline)
    requires p.next <= |u.files|
    ensures Finished(u, p) <==> Owed(u, p) == 0
  {
    IdleOweNothing(p.workers);
    if p.next < |u.files| {
      assert u.files[p.next..] != [];
    }
  }

  /** How many events of a run were enabled when they occurred. */
  ghost function EnabledCount(u: Setup, p: Pipeline, events: seq<Event>): nat {
    if events == [] then 0
    else
      var n := |events| - 1;
      EnabledCount(u, p, events[..n]) + (if Enabled(u, Run(u, p, events[..n]), events[n]) then 1 else 0)
  }

  /** Every interleaving finishes after the same number of enabled steps: one per block and three per file. */
  lemma {:induction false} RunLength(u: Setup, threads: nat, events: seq<Event>)
    ensures Run(u, Initial(u, threads), events).next <= |u.files|
    ensures EnabledCount(u, Initial(u, threads), events) + Owed(u, Run(u, Initial(u, threads), events)) == FilesOwed(u.files)
    ensures Finished(u, Run(u, Initial(u, threads), events)) <==> EnabledCount(u, Initial(u, threads), events) == FilesOwed(u.files)
  {
    if events == [] {
      IdleOweNothing(Initial(u, threads).workers);
      assert u.files[0..] == u.files;
    } else {
      var n := |events| - 1;
      RunLength(u, threads, events[..n]);
      StepPaysOne(u, Run(u, Initial(u, threads), events[..n]), events[n]);
    }
    FinishedOwesNothing(u, Run(u, Initial(u, threads), events));
  }

  lemma {:induction false} SameThreads(u: Setup, p: Pipeline, events: seq<Event>)
    ensures |Run(u, p, events).workers| == |p.workers|
  {
    if events != [] {
      SameThreads(u, p, events[..|events| - 1]);
    }
  }

  /** With at least one indexer thread every started import can be run to its end. */
  lemma CanFinish(u: Setup, threads: nat, started: seq<Event>) returns (events: seq<Event>)
    requires threads > 0
    ensures started <= events && Finished(u, Run(u, Initial(u, threads), events))
    decreases FilesOwed(u.files) - EnabledCount(u, Initial(u, threads), started)
  {
    RunLength(u, threads, started);
    var p := Run(u, Initial(u, threads), started);
    if Finished(u, p) {
      events := started;
    } else {
      SameThreads(u, Initial(u, threads), started);
      var e := NeverStuck(u, p);
      var next := started + [e];
      assert next[..|next| - 1] == started;
      RunLength(u, threads, next);
      events := CanFinish(u, threads, next);
    }
  }
}
