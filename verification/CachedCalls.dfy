/** Concurrent `get_or_else` calls: the lock is released between the lookup and the insertion. */
module CachedCalls {
  import opened ByteKeys
  import opened Cache

  type Txids = seq<Hash>

  datatype Phase = Started | Missed | Loaded(txids: Txids) | Returned(result: Outcome<Txids>)

  datatype Call = Call(blockhash: Hash, phase: Phase)

  datatype State = State(cache: seq<Entry<Hash, Txids>>, calls: seq<Call>)

  /** A new call arrives, or one call takes its next atomic step. A load may fail. */
  datatype Event = Arrive(blockhash: Hash) | LookUp(call: nat) | Load(call: nat, fails: bool) | Insert(call: nat)

  /** 32 bytes for the key and for each value. */
  function ByteSize(txids: Txids): nat {
    32 * (1 + |txids|)
  }

  function WithPhase(s: State, i: nat, phase: Phase): State
    requires i < |s.calls|
  {
    s.(calls := s.calls[i := s.calls[i].(phase := phase)])
  }

  /** Steps that a call cannot take in its present phase leave the state alone. */
  function Step(loader: Hash -> Txids, capacity: nat, s: State, e: Event): State {
    match e
    case Arrive(h) => s.(calls := s.calls + [Call(h, Started)])
    case LookUp(i) =>
      if i >= |s.calls| || !s.calls[i].phase.Started? then s
      else
        var h := s.calls[i].blockhash;
        var at := IndexOf(s.cache, h);
        if at < |s.cache|
        then WithPhase(s.(cache := Touched(s.cache, h)), i, Returned(Ok(s.cache[at].value)))
        else WithPhase(s, i, Missed)
    case Load(i, fails) =>
      if i >= |s.calls| || !s.calls[i].phase.Missed? then s
      else WithPhase(s, i, if fails then Returned(Err) else Loaded(loader(s.calls[i].blockhash)))
    case Insert(i) =>
      if i >= |s.calls| || !s.calls[i].phase.Loaded? then s
      else
        var h, txids := s.calls[i].blockhash, s.calls[i].phase.txids;
        WithPhase(s.(cache := AfterPut(s.cache, Entry(h, txids, ByteSize(txids)), capacity)), i, Returned(Ok(txids)))
  }

  function Run(loader: Hash -> Txids, capacity: nat, s: State, events: seq<Event>): State {
    if events == [] then s else Step(loader, capacity, Run(loader, capacity, s, events[..|events| - 1]), events[|events| - 1])
  }

  ghost predicate TrueEntry(loader: Hash -> Txids, e: Entry<Hash, Txids>) {
    e.value == loader(e.key) && e.size == ByteSize(e.value)
  }

  ghost predicate TrueCall(loader: Hash -> Txids, c: Call) {
    match c.phase
    case Loaded(txids) => txids == loader(c.blockhash)
    case Returned(Ok(txids)) => txids == loader(c.blockhash)
    case _ => true
  }

  ghost predicate Coherent(loader: Hash -> Txids, capacity: nat, s: State) {
    && (forall e :: e in s.cache ==> TrueEntry(loader, e))
    && (forall i :: 0 <= i < |s.calls| ==> TrueCall(loader, s.calls[i]))
    && DistinctKeys(s.cache) && Total(s.cache) <= capacity
  }

  lemma LookUpCoherent(loader: Hash -> Txids, capacity: nat, s: State, i: nat)
    requires Coherent(loader, capacity, s) && i < |s.calls|
    ensures Coherent(loader, capacity, Step(loader, capacity, s, LookUp(i)))
  {
    var h := s.calls[i].blockhash;
    TouchedKeys(s.cache, h);
    TotalWithout(s.cache, h);
    hide Touched;
    var at := IndexOf(s.cache, h);
    if at < |s.cache| {
      assert s.cache[at] in s.cache;
    }
  }

  lemma InsertCoherent(loader: Hash -> Txids, capacity: nat, s: State, i: nat)
    requires Coherent(loader, capacity, s) && i < |s.calls| && s.calls[i].phase.Loaded?
    ensures Coherent(loader, capacity, Step(loader, capacity, s, Insert(i)))
  {
    var h, txids := s.calls[i].blockhash, s.calls[i].phase.txids;
    assert TrueCall(loader, s.calls[i]);
    if ByteSize(txids) <= capacity {
      PutKeeps(s.cache, Entry(h, txids, ByteSize(txids)), capacity);
      hide AfterPut;
    }
  }

  lemma StepCoherent(loader: Hash -> Txids, capacity: nat, s: State, e: Event)
    requires Coherent(loader, capacity, s)
    ensures Coherent(loader, capacity, Step(loader, capacity, s, e))
  {
    match e
    case Arrive(h) =>
    case LookUp(i) =>
      if i < |s.calls| {
        LookUpCoherent(loader, capacity, s, i);
      }
    case Load(i, fails) =>
    case Insert(i) =>
      if i < |s.calls| && s.calls[i].phase.Loaded? {
        InsertCoherent(loader, capacity, s, i);
      }
  }

  /** In every interleaving each successful call returns what the loader gives for its block; evictions and oversized values never show. */
  lemma {:induction false} CallsAreTransparent(loader: Hash -> Txids, capacity: nat, events: seq<Event>)
    ensures Coherent(loader, capacity, Run(loader, capacity, State([], []), events))
    ensures var s := Run(loader, capacity, State([], []), events);
            forall i :: 0 <= i < |s.calls| && s.calls[i].phase.Returned? && s.calls[i].phase.result.Ok? ==>
              s.calls[i].phase.result.value == loader(s.calls[i].blockhash)
  {
    if events != [] {
      var n := |events| - 1;
      CallsAreTransparent(loader, capacity, events[..n]);
      StepCoherent(loader, capacity, Run(loader, capacity, State([], []), events[..n]), events[n]);
    }
    var s := Run(loader, capacity, State([], []), events);
    assert forall i :: 0 <= i < |s.calls| ==> TrueCall(loader, s.calls[i]);
  }

  // ---------------------------------------------------------------- what becomes of a call

  const EMPTY := State([], [])

  /** The state after the first `n` events. */
  function At(loader: Hash -> Txids, capacity: nat, events: seq<Event>, n: nat): State
    requires n <= |events|
  {
    Run(loader, capacity, EMPTY, events[..n])
  }

  lemma AtStep(loader: Hash -> Txids, capacity: nat, events: seq<Event>, n: nat)
    requires n < |events|
    ensures At(loader, capacity, events, n + 1) == Step(loader, capacity, At(loader, capacity, events, n), events[n])
  {
    assert events[..n + 1][..n] == events[..n];
  }

  /** The blocks asked for, in the order of arrival. */
  ghost function Arrivals(events: seq<Event>): seq<Hash> {
    if events == [] then []
    else
      var n := |events| - 1;
      Arrivals(events[..n]) + (if events[n].Arrive? then [events[n].blockhash] else [])
  }

  /** Every call that arrived is there, asking for its block. */
  lemma {:induction false} CallsArrive(loader: Hash -> Txids, capacity: nat, events: seq<Event>)
    ensures |Run(loader, capacity, EMPTY, events).calls| == |Arrivals(events)|
    ensures forall i :: 0 <= i < |Arrivals(events)| ==> Run(loader, capacity, EMPTY, events).calls[i].blockhash == Arrivals(events)[i]
  {
    hide Step;
    if events != [] {
      var n := |events| - 1;
      CallsArrive(loader, capacity, events[..n]);
      CallsStep(loader, capacity, Run(loader, capacity, EMPTY, events[..n]), events[n]);
    }
  }

  /** A step adds the arriving call, if any, and leaves the others asking for their blocks. */
  lemma CallsStep(loader: Hash -> Txids, capacity: nat, s: State, e: Event)
    ensures var s' := Step(loader, capacity, s, e);
            && |s'.calls| == |s.calls| + (if e.Arrive? then 1 else 0)
            && (e.Arrive? ==> s'.calls[|s.calls|].blockhash == e.blockhash)
            && forall i :: 0 <= i < |s.calls| ==> s'.calls[i].blockhash == s.calls[i].blockhash
  {
    hide AfterPut;
    hide Touched;
    hide IndexOf;
  }

  lemma {:induction false} ArrivalsGrow(events: seq<Event>, m: nat)
    requires m <= |events|
    ensures Arrivals(events[..m]) <= Arrivals(events)
  {
    if m < |events| {
      var n := |events| - 1;
      ArrivalsGrow(events[..n], m);
      assert events[..n][..m] == events[..m];
    } else {
      assert events[..m] == events;
    }
  }

  /** How far a call has come. */
  function Rank(p: Phase): nat {
    match p
    case Started => 0
    case Missed => 1
    case Loaded(_) => 2
    case Returned(_) => 3
  }

  /** One step, seen from one call: it keeps its block, never goes back, and once it has returned nothing changes it. */
  lemma StepForward(loader: Hash -> Txids, capacity: nat, s: State, e: Event, i: nat)
    requires i < |s.calls|
    ensures var s' := Step(loader, capacity, s, e);
            && |s.calls| <= |s'.calls| && s'.calls[i].blockhash == s.calls[i].blockhash
            && Rank(s.calls[i].phase) <= Rank(s'.calls[i].phase)
            && (s.calls[i].phase.Returned? ==> s'.calls[i] == s.calls[i])
  {
    hide AfterPut;
    hide Touched;
  }

  lemma {:induction false} Forward(loader: Hash -> Txids, capacity: nat, events: seq<Event>, i: nat, m: nat, n: nat)
    requires m <= n <= |events| && i < |At(loader, capacity, events, m).calls|
    ensures var s, s' := At(loader, capacity, events, m), At(loader, capacity, events, n);
            && i < |s'.calls| && s'.calls[i].blockhash == s.calls[i].blockhash
            && Rank(s.calls[i].phase) <= Rank(s'.calls[i].phase)
            && (s.calls[i].phase.Returned? ==> s'.calls[i] == s.calls[i])
    decreases n
  {
    hide Step;
    hide At;
    if m < n {
      Forward(loader, capacity, events, i, m, n - 1);
      AtStep(loader, capacity, events, n - 1);
      StepForward(loader, capacity, At(loader, capacity, events, n - 1), events[n - 1], i);
    }
  }

  /** Event `n` is a failing load of call `i` while the call waits for one. */
  ghost predicate FailsAt(loader: Hash -> Txids, capacity: nat, events: seq<Event>, i: nat, n: nat) {
    && n < |events| && events[n] == Load(i, true)
    && i < |At(loader, capacity, events, n).calls| && At(loader, capacity, events, n).calls[i].phase.Missed?
  }

  /** A call that failed before the last event, or fails in it. */
  lemma FailedStep(loader: Hash -> Txids, capacity: nat, s: State, e: Event, i: nat)
    requires i < |Step(loader, capacity, s, e).calls|
    ensures Step(loader, capacity, s, e).calls[i].phase == Returned(Err) <==>
            i < |s.calls| && (s.calls[i].phase == Returned(Err) || (s.calls[i].phase.Missed? && e == Load(i, true)))
  {
    hide AfterPut;
    hide Touched;
  }

  lemma {:induction false} FailureHasCause(loader: Hash -> Txids, capacity: nat, events: seq<Event>, i: nat, n: nat)
    requires n <= |events| && i < |At(loader, capacity, events, n).calls|
    ensures At(loader, capacity, events, n).calls[i].phase == Returned(Err) <==>
            exists m: nat :: m < n && FailsAt(loader, capacity, events, i, m)
    decreases n
  {
    if n > 0 {
      AtStep(loader, capacity, events, n - 1);
      FailedStep(loader, capacity, At(loader, capacity, events, n - 1), events[n - 1], i);
      hide Step;
      if i < |At(loader, capacity, events, n - 1).calls| {
        FailureHasCause(loader, capacity, events, i, n - 1);
        CauseSplit(loader, capacity, events, i, n);
      } else {
        forall m: nat | m < n
          ensures !FailsAt(loader, capacity, events, i, m)
        {
          if i < |At(loader, capacity, events, m).calls| {
            Forward(loader, capacity, events, i, m, n - 1);
          }
        }
      }
    }
  }

  lemma CauseSplit(loader: Hash -> Txids, capacity: nat, events: seq<Event>, i: nat, n: nat)
    requires 0 < n <= |events|
    ensures (exists m: nat :: m < n && FailsAt(loader, capacity, events, i, m)) <==>
            (exists m: nat :: m < n - 1 && FailsAt(loader, capacity, events, i, m)) || FailsAt(loader, capacity, events, i, n - 1)
  {
    hide FailsAt;
    if m: nat :| m < n && FailsAt(loader, capacity, events, i, m) {
      assert m < n - 1 || m == n - 1;
    }
  }

  /**
   * In every interleaving: a call has returned an error if and only if its own load failed while it waited for one,
   * and a call that has returned anything else has returned what the loader gives for its block.
   */
  lemma CallOutcome(loader: Hash -> Txids, capacity: nat, events: seq<Event>, i: nat)
    requires i < |Run(loader, capacity, EMPTY, events).calls|
    ensures var c := Run(loader, capacity, EMPTY, events).calls[i];
            && (c.phase == Returned(Err) <==> exists n: nat :: FailsAt(loader, capacity, events, i, n))
            && (c.phase.Returned? && c.phase != Returned(Err) ==> c.phase == Returned(Ok(loader(c.blockhash))))
  {
    hide FailsAt;
    hide Coherent;
    hide Run;
    assert events[..|events|] == events;
    FailureHasCause(loader, capacity, events, i, |events|);
    NeverPanics(loader, capacity, events, i);
    CallsAreTransparent(loader, capacity, events);
    var c := Run(loader, capacity, State([], []), events).calls[i];
    assert c.phase.Returned? && c.phase.result.Ok? ==> c.phase.result.value == loader(c.blockhash);
    if n: nat :| FailsAt(loader, capacity, events, i, n) {
      FailsInside(loader, capacity, events, i, n);
    }
  }

  lemma FailsInside(loader: Hash -> Txids, capacity: nat, events: seq<Event>, i: nat, n: nat)
    requires FailsAt(loader, capacity, events, i, n)
    ensures n < |events|
  {
  }

  lemma {:induction false} NeverPanics(loader: Hash -> Txids, capacity: nat, events: seq<Event>, i: nat)
    requires i < |Run(loader, capacity, EMPTY, events).calls|
    ensures Run(loader, capacity, EMPTY, events).calls[i].phase != Returned(Panic)
  {
    var n := |events| - 1;
    if n >= 0 && i < |Run(loader, capacity, EMPTY, events[..n]).calls| {
      NeverPanics(loader, capacity, events[..n], i);
      hide AfterPut;
      hide Touched;
    }
  }

  /** After its lookup a call has missed at least, after a load it has loaded at least, after the insertion it has returned. */
  lemma OwnStep(loader: Hash -> Txids, capacity: nat, s: State, e: Event, i: nat)
    requires i < |s.calls|
    ensures e == LookUp(i) ==> Rank(Step(loader, capacity, s, e).calls[i].phase) >= 1
    ensures (exists fails :: e == Load(i, fails)) && Rank(s.calls[i].phase) >= 1 ==> Rank(Step(loader, capacity, s, e).calls[i].phase) >= 2
    ensures e == Insert(i) && Rank(s.calls[i].phase) >= 2 ==> Rank(Step(loader, capacity, s, e).calls[i].phase) >= 3
  {
    hide AfterPut;
    hide Touched;
  }

  /**
   * A call that has arrived and is then looked up, loaded without failure and inserted, in this order and with any
   * steps of any other calls in between, has returned what the loader gives for the block it asked for.
   */
  lemma CallCompletes(loader: Hash -> Txids, capacity: nat, events: seq<Event>, i: nat, a: nat, b: nat, c: nat)
    requires a < b < c < |events| && events[a] == LookUp(i) && events[b] == Load(i, false) && events[c] == Insert(i)
    requires i < |Arrivals(events[..a])|
    requires forall n :: 0 <= n < b ==> events[n] != Load(i, true)
    ensures i < |Run(loader, capacity, EMPTY, events).calls| && i < |Arrivals(events)|
    ensures Run(loader, capacity, EMPTY, events).calls[i] == Call(Arrivals(events)[i], Returned(Ok(loader(Arrivals(events)[i]))))
  {
    hide Step;
    hide Run;
    hide Arrivals;
    ArrivalsGrow(events, a);
    CallsArrive(loader, capacity, events[..a]);
    CallsArrive(loader, capacity, events);
    assert events[..|events|] == events;
    Passes(loader, capacity, events, i, a);
    Forward(loader, capacity, events, i, a + 1, b);
    Passes(loader, capacity, events, i, b);
    Forward(loader, capacity, events, i, b + 1, c);
    Passes(loader, capacity, events, i, c);
    Forward(loader, capacity, events, i, c + 1, |events|);
    Forward(loader, capacity, events, i, a, |events|);
    CallOutcome(loader, capacity, events, i);
    forall n: nat
      ensures !FailsAt(loader, capacity, events, i, n)
    {
      if b < n < |events| {
        Forward(loader, capacity, events, i, b + 1, n);
      }
    }
  }

  /** A step of the call's own, somewhere in the run. */
  lemma Passes(loader: Hash -> Txids, capacity: nat, events: seq<Event>, i: nat, n: nat)
    requires n < |events| && i < |At(loader, capacity, events, n).calls|
    ensures var s, s' := At(loader, capacity, events, n), At(loader, capacity, events, n + 1);
            && i < |s'.calls|
            && (events[n] == LookUp(i) ==> Rank(s'.calls[i].phase) >= 1)
            && (events[n] == Load(i, false) && Rank(s.calls[i].phase) >= 1 ==> Rank(s'.calls[i].phase) >= 2)
            && (events[n] == Insert(i) && Rank(s.calls[i].phase) >= 2 ==> Rank(s'.calls[i].phase) >= 3)
  {
    AtStep(loader, capacity, events, n);
    StepForward(loader, capacity, At(loader, capacity, events, n), events[n], i);
    OwnStep(loader, capacity, At(loader, capacity, events, n), events[n], i);
    hide Step;
  }

  // ---------------------------------------------------------------- hits

  /** A block is held by the cache. */
  ghost predicate Cached(s: State, h: Hash) {
    HasKey(s.cache, h)
  }

  /** Inserting a value that fits leaves its block cached. */
  lemma InsertCaches(loader: Hash -> Txids, capacity: nat, s: State, i: nat)
    requires Coherent(loader, capacity, s) && i < |s.calls| && s.calls[i].phase.Loaded?
    requires 32 + 32 * |loader(s.calls[i].blockhash)| <= capacity
    ensures Cached(Step(loader, capacity, s, Insert(i)), s.calls[i].blockhash)
  {
    var h, txids := s.calls[i].blockhash, s.calls[i].phase.txids;
    assert TrueCall(loader, s.calls[i]);
    var e := Entry(h, txids, ByteSize(txids));
    PutKeeps(s.cache, e, capacity);
    hide AfterPut;
    assert Step(loader, capacity, s, Insert(i)).cache[0].key == h;
  }

  /** Only an insertion can drop a block. */
  lemma OthersKeepCached(loader: Hash -> Txids, capacity: nat, s: State, e: Event, h: Hash)
    requires Coherent(loader, capacity, s) && Cached(s, h) && !e.Insert?
    ensures Cached(Step(loader, capacity, s, e), h)
  {
    if e.LookUp? && e.call < |s.calls| {
      TouchedKeys(s.cache, s.calls[e.call].blockhash);
      hide Touched;
      var j :| 0 <= j < |s.cache| && s.cache[j].key == h;
      assert s.cache[j] in s.cache;
      var s' := Step(loader, capacity, s, e);
      assert s.cache[j] in s'.cache;
    }
  }

  lemma {:induction false} StaysCached(loader: Hash -> Txids, capacity: nat, events: seq<Event>, h: Hash, m: nat, n: nat)
    requires m <= n <= |events| && Cached(At(loader, capacity, events, m), h)
    requires forall k :: m <= k < n ==> !events[k].Insert?
    ensures Cached(At(loader, capacity, events, n), h)
    decreases n
  {
    if m < n {
      StaysCached(loader, capacity, events, h, m, n - 1);
      AtStep(loader, capacity, events, n - 1);
      CallsAreTransparent(loader, capacity, events[..n - 1]);
      OthersKeepCached(loader, capacity, At(loader, capacity, events, n - 1), events[n - 1], h);
    }
  }

  /** A lookup returns at once exactly when the block is cached, and otherwise goes on to load. */
  lemma LookUpHits(loader: Hash -> Txids, capacity: nat, s: State, i: nat)
    requires i < |s.calls| && s.calls[i].phase.Started?
    ensures Step(loader, capacity, s, LookUp(i)).calls[i].phase.Returned? <==> Cached(s, s.calls[i].blockhash)
    ensures Step(loader, capacity, s, LookUp(i)).calls[i].phase.Missed? <==> !Cached(s, s.calls[i].blockhash)
  {
    hide Touched;
    var at := IndexOf(s.cache, s.calls[i].blockhash);
    hide IndexOf;
  }

  /** A hit makes the block the most recently used one and keeps the order of the others; a miss changes nothing. */
  lemma LookUpTouches(loader: Hash -> Txids, capacity: nat, s: State, i: nat)
    requires Coherent(loader, capacity, s) && i < |s.calls| && s.calls[i].phase.Started?
    ensures !Cached(s, s.calls[i].blockhash) ==> Step(loader, capacity, s, LookUp(i)).cache == s.cache
    ensures Cached(s, s.calls[i].blockhash) ==>
              exists e :: e in s.cache && e.key == s.calls[i].blockhash &&
                          Step(loader, capacity, s, LookUp(i)).cache == [e] + Others(s.cache, s.calls[i].blockhash)
  {
    TouchExact(s.cache, s.calls[i].blockhash);
    hide Touched;
    var at := IndexOf(s.cache, s.calls[i].blockhash);
    hide IndexOf;
  }

  /**
   * Once a call has inserted a value that fits, a later call for the same block returns it at its lookup, without
   * loading, as long as no call has inserted anything else in between.
   */
  lemma SecondCallHits(loader: Hash -> Txids, capacity: nat, events: seq<Event>, i: nat, j: nat, m: nat, n: nat)
    requires m < n < |events| && events[m] == Insert(i) && events[n] == LookUp(j)
    requires forall k :: m < k < n ==> !events[k].Insert?
    requires var s := At(loader, capacity, events, m); i < |s.calls| && s.calls[i].phase.Loaded?
    requires var s := At(loader, capacity, events, n); j < |s.calls| && s.calls[j].phase.Started?
    requires At(loader, capacity, events, n).calls[j].blockhash == At(loader, capacity, events, m).calls[i].blockhash
    requires 32 + 32 * |loader(At(loader, capacity, events, m).calls[i].blockhash)| <= capacity
    ensures j < |At(loader, capacity, events, n + 1).calls|
    ensures At(loader, capacity, events, n + 1).calls[j].phase == Returned(Ok(loader(At(loader, capacity, events, m).calls[i].blockhash)))
  {
    hide Step;
    hide Run;
    hide Cached;
    hide Coherent;
    var h := At(loader, capacity, events, m).calls[i].blockhash;
    CallsAreTransparent(loader, capacity, events[..m]);
    InsertCaches(loader, capacity, At(loader, capacity, events, m), i);
    AtStep(loader, capacity, events, m);
    StaysCached(loader, capacity, events, h, m + 1, n);
    CachedReturns(loader, capacity, events, j, n);
  }

  lemma CachedReturns(loader: Hash -> Txids, capacity: nat, events: seq<Event>, j: nat, n: nat)
    requires n < |events| && events[n] == LookUp(j)
    requires var s := At(loader, capacity, events, n);
             j < |s.calls| && s.calls[j].phase.Started? && Cached(s, s.calls[j].blockhash)
    ensures j < |At(loader, capacity, events, n + 1).calls|
    ensures At(loader, capacity, events, n + 1).calls[j].phase == Returned(Ok(loader(At(loader, capacity, events, n).calls[j].blockhash)))
  {
    hide Step;
    hide Run;
    hide Cached;
    LookUpHits(loader, capacity, At(loader, capacity, events, n), j);
    AtStep(loader, capacity, events, n);
    StepForward(loader, capacity, At(loader, capacity, events, n), events[n], j);
    assert events[..n + 1][..n] == events[..n];
    HitIsTrue(loader, capacity, events[..n + 1], j);
  }

  /** A lookup that returns at once is no failure. */
  lemma HitIsTrue(loader: Hash -> Txids, capacity: nat, events: seq<Event>, j: nat)
    requires events != [] && events[|events| - 1] == LookUp(j) && j < |Run(loader, capacity, EMPTY, events[..|events| - 1]).calls|
    requires Run(loader, capacity, EMPTY, events[..|events| - 1]).calls[j].phase.Started?
    requires j < |Run(loader, capacity, EMPTY, events).calls| && Run(loader, capacity, EMPTY, events).calls[j].phase.Returned?
    ensures Run(loader, capacity, EMPTY, events).calls[j].phase == Returned(Ok(loader(Run(loader, capacity, EMPTY, events).calls[j].blockhash)))
  {
    var s := Run(loader, capacity, EMPTY, events[..|events| - 1]);
    FailedStep(loader, capacity, s, events[|events| - 1], j);
    CallOutcome(loader, capacity, events, j);
  }

  // ---------------------------------------------------------------- memory

  /** What the cache holds, at 32 bytes for each block hash and each txid. */
  ghost function BytesHeld(es: seq<Entry<Hash, Txids>>): nat {
    if es == [] then 0 else BytesHeld(es[..|es| - 1]) + 32 + 32 * |es[|es| - 1].value|
  }

  lemma {:induction false} BytesAreTotal(loader: Hash -> Txids, es: seq<Entry<Hash, Txids>>)
    requires forall e :: e in es ==> TrueEntry(loader, e)
    ensures BytesHeld(es) == Total(es)
  {
    if es != [] {
      var n := |es| - 1;
      assert es[n] in es;
      BytesAreTotal(loader, es[..n]);
    }
  }

  /** In every interleaving the cached hashes stay within the capacity. */
  lemma MemoryBounded(loader: Hash -> Txids, capacity: nat, events: seq<Event>)
    ensures BytesHeld(Run(loader, capacity, EMPTY, events).cache) <= capacity
  {
    CallsAreTransparent(loader, capacity, events);
    BytesAreTotal(loader, Run(loader, capacity, EMPTY, events).cache);
  }
}
