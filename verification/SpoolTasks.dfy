/**
 Receive tasks racing over the spool.  A task writes its shard in one atomic step and, if told
 to assemble, removes the bucket in another; any other task may run in between.  The length test
 of the prune and its pass over the buckets are not one step either, so any bucket that cannot be
 rebuilt may be dropped at any time.
 */
module SpoolTasks {
  import opened Common
  import opened ErasureCode
  import opened Spool

  datatype Phase = Ready | Claimed | Done(result: Option<Bytes>)

  datatype Task = Task(key: SpoolKey, idx: nat, data: Bytes, phase: Phase)

  datatype World = World(pool: Pool, tasks: seq<Task>)

  datatype Event = Write(i: nat) | Take(i: nat) | Prune(key: SpoolKey)

  ghost predicate Enabled(w: World, e: Event) {
    match e
    case Write(i) =>
      && i < |w.tasks| && w.tasks[i].phase.Ready? && w.tasks[i].idx < 3
      && |BucketOf(w.pool, w.tasks[i].key)| >= 3
    case Take(i) => i < |w.tasks| && w.tasks[i].phase.Claimed?
    case Prune(k) => k in w.pool && Filled(w.pool[k]) < 2
  }

  ghost function Next(c: Code, w: World, e: Event): (v: World)
    ensures |v.tasks| == |w.tasks|
  {
    if !Enabled(w, e) then w else
    match e
    case Write(i) =>
      var t := w.tasks[i];
      var b := Deposit(BucketOf(w.pool, t.key), t.idx, t.data);
      World(w.pool[t.key := b], w.tasks[i := t.(phase := if |b| > 3 then Claimed else Done(None))])
    case Take(i) =>
      var t := w.tasks[i];
      var b := if t.key in w.pool then w.pool[t.key] else [];
      World(w.pool - {t.key}, w.tasks[i := t.(phase := Done(Assembled(c, b)))])
    case Prune(k) => w.(pool := w.pool - {k})
  }

  ghost function Run(c: Code, w: World, events: seq<Event>): (v: World)
    ensures |v.tasks| == |w.tasks|
    decreases |events|
  {
    if events == [] then w else Run(c, Next(c, w, events[0]), events[1..])
  }

  // ---- The spool's two operations are these steps ----

  /** Pruning a set of buckets that cannot be rebuilt, one after the other. */
  lemma {:induction false} PrunesAll(c: Code, w: World, dead: set<SpoolKey>) returns (events: seq<Event>)
    requires forall k :: k in dead ==> k in w.pool && Filled(w.pool[k]) < 2
    ensures forall e :: e in events ==> e.Prune?
    ensures Run(c, w, events) == w.(pool := w.pool - dead)
    decreases |dead|
  {
    if dead == {} {
      events := [];
      assert w.pool - dead == w.pool;
    } else {
      var k :| k in dead;
      var v := Next(c, w, Prune(k));
      var rest := PrunesAll(c, v, dead - {k});
      events := [Prune(k)] + rest;
      assert events[1..] == rest;
      assert (w.pool - {k}) - (dead - {k}) == w.pool - dead;
    }
  }

  lemma PrunedIsRemoval(pool: Pool) returns (dead: set<SpoolKey>)
    ensures forall k :: k in dead ==> k in pool && Filled(pool[k]) < 2
    ensures Pruned(pool) == pool - dead
  {
    dead := set k | k in pool && k !in Pruned(pool);
    forall k ensures k in Pruned(pool) <==> k in pool && (|pool| <= 8192 || Filled(pool[k]) >= 2) {
      PrunedIff(pool, k);
    }
    assert Pruned(pool).Keys == (pool - dead).Keys;
    assert Pruned(pool) == pool - dead;
  }

  /** Writing a shard into the spool is some prunes and one write, and claims exactly when it reports so. */
  lemma WriteIsEvents(c: Code, w: World, i: nat) returns (prunes: seq<Event>)
    requires i < |w.tasks| && w.tasks[i].phase.Ready? && w.tasks[i].idx < 3 && Sized(w.pool)
    ensures forall e :: e in prunes ==> e.Prune?
    ensures var t, v := w.tasks[i], Next(c, Run(c, w, prunes), Write(i));
      && v.pool == Written(w.pool, t.key, t.idx, t.data)
      && v.tasks == w.tasks[i := t.(phase := if |v.pool[t.key]| > 3 then Claimed else Done(None))]
  {
    var dead := PrunedIsRemoval(w.pool);
    prunes := PrunesAll(c, w, dead);
  }

  /** Removing and joining is one take. */
  lemma TakeIsRemoval(c: Code, w: World, i: nat)
    requires i < |w.tasks| && w.tasks[i].phase.Claimed?
    ensures var t, v := w.tasks[i], Next(c, w, Take(i));
      && v.pool == w.pool - {t.key}
      && v.tasks[i].phase == Done(Assembled(c, if t.key in w.pool then w.pool[t.key] else []))
      && forall j :: 0 <= j < |w.tasks| && j != i ==> v.tasks[j] == w.tasks[j]
  {
  }

  // ---- Counting tasks ----

  ghost function Count(ts: seq<Task>, f: Task -> bool): (n: nat) {
    if ts == [] then 0 else (if f(ts[0]) then 1 else 0) + Count(ts[1..], f)
  }

  lemma {:induction false} CountUpdate(ts: seq<Task>, f: Task -> bool, i: nat, t: Task)
    requires i < |ts|
    ensures Count(ts[i := t], f) + (if f(ts[i]) then 1 else 0) == Count(ts, f) + (if f(t) then 1 else 0)
  {
    if i > 0 {
      assert ts[i := t][1..] == ts[1..][i - 1 := t];
      CountUpdate(ts[1..], f, i - 1, t);
    }
  }

  lemma {:induction false} CountBelow(ts: seq<Task>, f: Task -> bool, g: Task -> bool)
    requires forall t :: f(t) ==> g(t)
    ensures Count(ts, f) <= Count(ts, g)
  {
    if ts != [] { CountBelow(ts[1..], f, g); }
  }

  ghost function Of(k: SpoolKey): Task -> bool { (t: Task) => t.key == k }
  ghost function Started(k: SpoolKey): Task -> bool { (t: Task) => t.key == k && !t.phase.Ready? }
  ghost function Returned(k: SpoolKey): Task -> bool {
    (t: Task) => t.key == k && t.phase.Done? && t.phase.result.Some?
  }

  ghost function Held(w: World, k: SpoolKey): nat {
    if k in w.pool then Filled(w.pool[k]) else 0
  }

  // ---- Never more than one message per two shards, and never a wrong one ----

  ghost predicate Carries(c: Code, m: Bytes, t: Task) {
    && t.idx < 3 && t.data == Encode(c, m)[t.idx]
    && (t.phase.Done? && t.phase.result.Some? ==> t.phase.result.value == Even(m))
  }

  ghost predicate Conserves(c: Code, m: Bytes, k: SpoolKey, w: World) {
    && (k in w.pool ==> GoodBucket(c, m, w.pool[k]))
    && (forall i :: 0 <= i < |w.tasks| && w.tasks[i].key == k ==> Carries(c, m, w.tasks[i]))
    && 2 * Count(w.tasks, Returned(k)) + Held(w, k) <= Count(w.tasks, Started(k))
  }

  lemma WriteConserves(c: Code, m: Bytes, k: SpoolKey, w: World, i: nat)
    requires Conserves(c, m, k, w) && Enabled(w, Write(i)) && w.tasks[i].key == k
    ensures Conserves(c, m, k, Next(c, w, Write(i)))
  {
    var v := Next(c, w, Write(i));
    CountUpdate(w.tasks, Returned(k), i, v.tasks[i]);
    CountUpdate(w.tasks, Started(k), i, v.tasks[i]);
    var b := BucketOf(w.pool, k);
    DepositKeeps(c, m, b, w.tasks[i].idx);
    if k !in w.pool { FilledThree(b); }
    assert Held(v, k) <= Held(w, k) + 1;
  }

  lemma TakeConserves(c: Code, m: Bytes, k: SpoolKey, w: World, i: nat)
    requires Cancels(c) && m != [] && Conserves(c, m, k, w) && Enabled(w, Take(i)) && w.tasks[i].key == k
    ensures Conserves(c, m, k, Next(c, w, Take(i)))
  {
    var v := Next(c, w, Take(i));
    CountUpdate(w.tasks, Returned(k), i, v.tasks[i]);
    CountUpdate(w.tasks, Started(k), i, v.tasks[i]);
    if k in w.pool { AssembledIsMessage(c, m, w.pool[k]); }
    assert v.tasks[i].phase.result.Some? ==> Held(w, k) >= 2;
  }

  /** A task of another message changes nothing that key `k` sees. */
  lemma OtherConserves(c: Code, m: Bytes, k: SpoolKey, w: World, e: Event)
    requires Conserves(c, m, k, w) && Enabled(w, e) && !e.Prune? && w.tasks[e.i].key != k
    ensures Conserves(c, m, k, Next(c, w, e))
  {
    var v := Next(c, w, e);
    CountUpdate(w.tasks, Returned(k), e.i, v.tasks[e.i]);
    CountUpdate(w.tasks, Started(k), e.i, v.tasks[e.i]);
  }

  lemma NextConserves(c: Code, m: Bytes, k: SpoolKey, w: World, e: Event)
    requires Cancels(c) && m != [] && Conserves(c, m, k, w)
    ensures Conserves(c, m, k, Next(c, w, e))
  {
    if !Enabled(w, e) { return; }
    match e {
      case Prune(_) =>
      case Write(i) => if w.tasks[i].key == k { WriteConserves(c, m, k, w, i); } else { OtherConserves(c, m, k, w, e); }
      case Take(i) => if w.tasks[i].key == k { TakeConserves(c, m, k, w, i); } else { OtherConserves(c, m, k, w, e); }
    }
  }

  lemma {:induction false} RunConserves(c: Code, m: Bytes, k: SpoolKey, w: World, events: seq<Event>)
    requires Cancels(c) && m != [] && Conserves(c, m, k, w)
    ensures Conserves(c, m, k, Run(c, w, events))
    decreases |events|
  {
    if events != [] {
      NextConserves(c, m, k, w, events[0]);
      RunConserves(c, m, k, Next(c, w, events[0]), events[1..]);
    }
  }

  lemma {:induction false} RunKeepsTasks(c: Code, w: World, events: seq<Event>)
    ensures var v := Run(c, w, events);
      forall i :: 0 <= i < |w.tasks| ==>
           v.tasks[i].key == w.tasks[i].key && v.tasks[i].idx == w.tasks[i].idx && v.tasks[i].data == w.tasks[i].data
    decreases |events|
  {
    if events != [] { RunKeepsTasks(c, Next(c, w, events[0]), events[1..]); }
  }

  /** Before anything of message `m` arrived: its tasks carry its shards, possibly repeated. */
  ghost predicate Arriving(c: Code, m: Bytes, k: SpoolKey, w: World) {
    k !in w.pool && forall i :: 0 <= i < |w.tasks| && w.tasks[i].key == k ==>
      w.tasks[i].idx < 3 && w.tasks[i].data == Encode(c, m)[w.tasks[i].idx] && w.tasks[i].phase.Ready?
  }

  lemma {:induction false} NoneCounted(ts: seq<Task>, f: Task -> bool)
    requires forall i :: 0 <= i < |ts| ==> !f(ts[i])
    ensures Count(ts, f) == 0
  {
    if ts != [] { NoneCounted(ts[1..], f); }
  }

  lemma {:induction false} SameCount(ts: seq<Task>, us: seq<Task>, f: Task -> bool)
    requires |ts| == |us| && forall i :: 0 <= i < |ts| ==> f(ts[i]) == f(us[i])
    ensures Count(ts, f) == Count(us, f)
  {
    if ts != [] { SameCount(ts[1..], us[1..], f); }
  }

  /**
   In every interleaving, with any number of repeated shards, other messages in flight and
   pruning at any time: at most one message comes out per two shards that went in, and every
   one that comes out is the original.
   */
  lemma AtMostOnePerTwoShards(c: Code, m: Bytes, k: SpoolKey, w: World, events: seq<Event>)
    requires Cancels(c) && m != [] && Arriving(c, m, k, w)
    ensures var v := Run(c, w, events);
      && 2 * Count(v.tasks, Returned(k)) <= Count(w.tasks, Of(k))
      && (forall i :: 0 <= i < |v.tasks| && Returned(k)(v.tasks[i]) ==> v.tasks[i].phase.result.value == Even(m))
  {
    NoneCounted(w.tasks, Returned(k));
    NoneCounted(w.tasks, Started(k));
    RunConserves(c, m, k, w, events);
    var v := Run(c, w, events);
    RunKeepsTasks(c, w, events);
    CountBelow(v.tasks, Started(k), Of(k));
    SameCount(w.tasks, v.tasks, Of(k));
  }

  // ---- Three distinct shards and no pruning: exactly one message ----

  /** Exactly the tasks `at[0..3]` carry shards of key `k`, one each. */
  ghost predicate Trio(k: SpoolKey, w: World, at: seq<nat>) {
    && |at| == 3
    && (forall j :: 0 <= j < 3 ==> at[j] < |w.tasks| && w.tasks[at[j]].key == k && w.tasks[at[j]].idx == j)
    && (forall i :: 0 <= i < |w.tasks| && w.tasks[i].key == k ==> i in at)
  }

  ghost predicate Wrote(w: World, i: nat)
    requires i < |w.tasks|
  {
    !w.tasks[i].phase.Ready?
  }

  ghost predicate Waiting(k: SpoolKey, w: World, at: seq<nat>)
    requires Trio(k, w, at)
  {
    forall j :: 0 <= j < 3 ==> !Returned(k)(w.tasks[at[j]])
  }

  /** Slot `j` is filled exactly when task `j` wrote; a claimed task means a claimed bucket. */
  ghost predicate SlotTells(k: SpoolKey, w: World, at: seq<nat>, j: nat)
    requires Trio(k, w, at) && j < 3
  {
    && (Wrote(w, at[j]) <==> (k in w.pool && |w.pool[k]| >= 3 && w.pool[k][j].Some?))
    && (w.tasks[at[j]].phase.Claimed? ==> k in w.pool && |w.pool[k]| == 4)
  }

  ghost predicate SomeClaim(k: SpoolKey, w: World, at: seq<nat>)
    requires Trio(k, w, at)
  {
    w.tasks[at[0]].phase.Claimed? || w.tasks[at[1]].phase.Claimed? || w.tasks[at[2]].phase.Claimed?
  }

  /** Until a message came out, the bucket holds what was written and somebody is about to take it. */
  ghost predicate Pending(k: SpoolKey, w: World, at: seq<nat>)
    requires Trio(k, w, at)
  {
    Waiting(k, w, at) ==>
      && SlotTells(k, w, at, 0) && SlotTells(k, w, at, 1) && SlotTells(k, w, at, 2)
      && (k in w.pool && |w.pool[k]| == 4 ==> SomeClaim(k, w, at))
  }

  lemma NextTrio(c: Code, k: SpoolKey, w: World, at: seq<nat>, e: Event)
    requires Trio(k, w, at)
    ensures Trio(k, Next(c, w, e), at)
  {
  }

  lemma WritePending(c: Code, m: Bytes, k: SpoolKey, w: World, at: seq<nat>, j: nat)
    requires Conserves(c, m, k, w) && Trio(k, w, at) && Pending(k, w, at)
    requires j < 3 && Enabled(w, Write(at[j]))
    ensures var v := Next(c, w, Write(at[j])); Trio(k, v, at) && Pending(k, v, at)
  {
    NextTrio(c, k, w, at, Write(at[j]));
    var v := Next(c, w, Write(at[j]));
    if Waiting(k, v, at) {
      forall n | 0 <= n < 3 ensures !Returned(k)(w.tasks[at[n]]) && (n != j ==> v.tasks[at[n]] == w.tasks[at[n]]) {
        assert !Returned(k)(v.tasks[at[n]]);
      }
      assert Waiting(k, w, at);
      DepositKeeps(c, m, BucketOf(w.pool, k), j);
    }
  }

  lemma TakePending(c: Code, m: Bytes, k: SpoolKey, w: World, at: seq<nat>, j: nat)
    requires Cancels(c) && m != [] && Conserves(c, m, k, w) && Trio(k, w, at) && Pending(k, w, at)
    requires j < 3 && Enabled(w, Take(at[j]))
    ensures var v := Next(c, w, Take(at[j])); Trio(k, v, at) && Pending(k, v, at)
  {
    NextTrio(c, k, w, at, Take(at[j]));
    var v := Next(c, w, Take(at[j]));
    if Waiting(k, w, at) {
      AssembledIsMessage(c, m, w.pool[k]);
      assert Returned(k)(v.tasks[at[j]]);
    } else {
      var n :| 0 <= n < 3 && Returned(k)(w.tasks[at[n]]);
      assert v.tasks[at[n]] == w.tasks[at[n]];
    }
  }

  lemma OtherPending(c: Code, k: SpoolKey, w: World, at: seq<nat>, e: Event)
    requires Trio(k, w, at) && Pending(k, w, at) && Enabled(w, e) && !e.Prune? && w.tasks[e.i].key != k
    ensures Trio(k, Next(c, w, e), at) && Pending(k, Next(c, w, e), at)
  {
    NextTrio(c, k, w, at, e);
    var v := Next(c, w, e);
    assert v.tasks[at[0]] == w.tasks[at[0]] && v.tasks[at[1]] == w.tasks[at[1]] && v.tasks[at[2]] == w.tasks[at[2]];
  }

  lemma NextPending(c: Code, m: Bytes, k: SpoolKey, w: World, at: seq<nat>, e: Event)
    requires Cancels(c) && m != [] && Conserves(c, m, k, w) && Trio(k, w, at) && Pending(k, w, at) && e != Prune(k)
    ensures Trio(k, Next(c, w, e), at) && Pending(k, Next(c, w, e), at)
  {
    if Enabled(w, e) {
      if e.Prune? {
        NextTrio(c, k, w, at, e);
      } else if w.tasks[e.i].key != k {
        OtherPending(c, k, w, at, e);
      } else {
        var j :| 0 <= j < 3 && at[j] == e.i;
        if e.Write? { WritePending(c, m, k, w, at, j); } else { TakePending(c, m, k, w, at, j); }
      }
    }
  }

  lemma {:induction false} RunPending(c: Code, m: Bytes, k: SpoolKey, w: World, at: seq<nat>, events: seq<Event>)
    requires Cancels(c) && m != [] && Conserves(c, m, k, w) && Trio(k, w, at) && Pending(k, w, at)
    requires Prune(k) !in events
    ensures var v := Run(c, w, events); Trio(k, v, at) && Pending(k, v, at)
    decreases |events|
  {
    if events != [] {
      assert events[0] in events;
      NextConserves(c, m, k, w, events[0]);
      NextPending(c, m, k, w, at, events[0]);
      RunPending(c, m, k, Next(c, w, events[0]), at, events[1..]);
    }
  }

  lemma {:induction false} CountWitness(ts: seq<Task>, f: Task -> bool, i: nat)
    requires i < |ts| && f(ts[i])
    ensures Count(ts, f) >= 1
  {
    if i > 0 { CountWitness(ts[1..], f, i - 1); }
  }

  lemma {:induction false} CountWithin(ts: seq<Task>, f: Task -> bool, at: set<nat>)
    requires forall i :: 0 <= i < |ts| && f(ts[i]) ==> i in at
    ensures Count(ts, f) <= |at|
    decreases |ts|
  {
    if ts != [] {
      var last := |ts| - 1;
      CountSplit(ts[..last], ts[last..], f);
      assert ts == ts[..last] + ts[last..];
      if f(ts[last]) {
        CountWithin(ts[..last], f, at - {last});
      } else {
        CountWithin(ts[..last], f, at);
      }
    }
  }

  lemma {:induction false} CountSplit(a: seq<Task>, b: seq<Task>, f: Task -> bool)
    ensures Count(a + b, f) == Count(a, f) + Count(b, f)
  {
    if a == [] {
      assert a + b == b;
    } else {
      assert (a + b)[1..] == a[1..] + b;
      CountSplit(a[1..], b, f);
    }
  }

  /** Task `n` returned the message and no other task of key `k` returned anything. */
  ghost predicate OnlyMessage(k: SpoolKey, m: Bytes, v: World, n: nat) {
    && n < |v.tasks| && v.tasks[n].phase == Done(Some(Even(m)))
    && forall i :: 0 <= i < |v.tasks| && i != n ==> !Returned(k)(v.tasks[i])
  }

  /**
   Whatever else is in flight, once the three tasks of a message have finished in a run without
   pruning, exactly one of them returned something and it is the message.
   */
  lemma ExactlyOneMessage(c: Code, m: Bytes, k: SpoolKey, w: World, at: seq<nat>, events: seq<Event>)
    requires Cancels(c) && m != [] && Arriving(c, m, k, w) && Trio(k, w, at) && Prune(k) !in events
    requires forall j :: 0 <= j < 3 ==> Run(c, w, events).tasks[at[j]].phase.Done?
    ensures exists j :: 0 <= j < 3 && OnlyMessage(k, m, Run(c, w, events), at[j])
  {
    NoneCounted(w.tasks, Returned(k));
    NoneCounted(w.tasks, Started(k));
    RunConserves(c, m, k, w, events);
    RunPending(c, m, k, w, at, events);
    var v := Run(c, w, events);
    SomeReturned(c, m, k, v, at);
    var j :| 0 <= j < 3 && Returned(k)(v.tasks[at[j]]);
    AtMostOnePerTwoShards(c, m, k, w, events);
    TrioCount(k, w, at);
    forall i | 0 <= i < |v.tasks| && i != at[j] ensures !Returned(k)(v.tasks[i]) {
      if Returned(k)(v.tasks[i]) { CountTwo(v.tasks, Returned(k), i, at[j]); }
    }
    assert OnlyMessage(k, m, v, at[j]);
  }

  /** Once all three are done, somebody returned the message: a full bucket has a claimant. */
  lemma SomeReturned(c: Code, m: Bytes, k: SpoolKey, v: World, at: seq<nat>)
    requires Conserves(c, m, k, v) && Trio(k, v, at) && Pending(k, v, at)
    requires forall j :: 0 <= j < 3 ==> v.tasks[at[j]].phase.Done?
    ensures !Waiting(k, v, at)
  {
    assert !SomeClaim(k, v, at);
    if Waiting(k, v, at) {
      assert SlotTells(k, v, at, 0) && SlotTells(k, v, at, 1);
      FilledBucket(v.pool[k]);
      FilledThree(v.pool[k][..3]);
      assert false;
    }
  }

  lemma TrioCount(k: SpoolKey, w: World, at: seq<nat>)
    requires Trio(k, w, at)
    ensures Count(w.tasks, Of(k)) <= 3
  {
    var s := {at[0], at[1], at[2]};
    forall i | 0 <= i < |w.tasks| && Of(k)(w.tasks[i]) ensures i in s {
      assert i in at;
    }
    CountWithin(w.tasks, Of(k), s);
  }

  lemma CountTwo(ts: seq<Task>, f: Task -> bool, i: nat, j: nat)
    requires i < |ts| && j < |ts| && i != j && f(ts[i]) && f(ts[j])
    ensures Count(ts, f) >= 2
  {
    var lo, hi := if i < j then i else j, if i < j then j else i;
    CountSplit(ts[..hi], ts[hi..], f);
    assert ts == ts[..hi] + ts[hi..];
    CountWitness(ts[..hi], f, lo);
    CountWitness(ts[hi..], f, 0);
  }

  // ---- Different generations do not see each other ----

  /** Two worlds that cannot be told apart by looking at key `k`. */
  ghost predicate AgreeOn(k: SpoolKey, v: World, w: World) {
    && |v.tasks| == |w.tasks|
    && (k in v.pool <==> k in w.pool) && (k in v.pool ==> v.pool[k] == w.pool[k])
    && (forall i :: 0 <= i < |v.tasks| ==> (v.tasks[i].key == k <==> w.tasks[i].key == k))
    && (forall i :: 0 <= i < |v.tasks| && v.tasks[i].key == k ==> v.tasks[i] == w.tasks[i])
  }

  /** The events of the tasks that work on key `k`, and the pruning of its bucket. */
  ghost predicate Concerns(k: SpoolKey, tasks: seq<Task>, e: Event) {
    if e.Prune? then e.key == k else e.i < |tasks| && tasks[e.i].key == k
  }

  ghost function Only(k: SpoolKey, tasks: seq<Task>, events: seq<Event>): seq<Event>
    decreases |events|
  {
    if events == [] then []
    else
      var rest := Only(k, tasks, events[1..]);
      if Concerns(k, tasks, events[0]) then [events[0]] + rest else rest
  }

  lemma {:induction false} OnlyDependsOnKeys(k: SpoolKey, ts: seq<Task>, us: seq<Task>, events: seq<Event>)
    requires |ts| == |us| && forall i :: 0 <= i < |ts| ==> ts[i].key == us[i].key
    ensures Only(k, ts, events) == Only(k, us, events)
    decreases |events|
  {
    if events != [] { OnlyDependsOnKeys(k, ts, us, events[1..]); }
  }

  /** In worlds that `k` cannot tell apart, an event that concerns it does the same, and others do nothing to it. */
  lemma StepAgrees(c: Code, k: SpoolKey, v: World, w: World, e: Event)
    requires AgreeOn(k, v, w)
    ensures AgreeOn(k, Next(c, v, e), if Concerns(k, v.tasks, e) then Next(c, w, e) else w)
  {
  }

  /**
   What key `k` sees of any interleaving with any other messages, and of any pruning, is exactly
   what its own events alone produce.
   */
  lemma {:induction false} KeysAreIndependent(c: Code, k: SpoolKey, v: World, w: World, events: seq<Event>)
    requires AgreeOn(k, v, w)
    ensures AgreeOn(k, Run(c, v, events), Run(c, w, Only(k, v.tasks, events)))
    decreases |events|
  {
    if events != [] {
      var e, rest := events[0], events[1..];
      var v' := Next(c, v, e);
      OnlyDependsOnKeys(k, v.tasks, v'.tasks, rest);
      StepAgrees(c, k, v, w, e);
      if Concerns(k, v.tasks, e) {
        var own := Only(k, v.tasks, events);
        assert own == [e] + Only(k, v.tasks, rest);
        assert own[1..] == Only(k, v.tasks, rest);
        KeysAreIndependent(c, k, v', Next(c, w, e), rest);
      } else {
        KeysAreIndependent(c, k, v', w, rest);
      }
    }
  }
}
