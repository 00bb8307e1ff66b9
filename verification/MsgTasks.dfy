/**
 Receive tasks opening frames on one chain.  A task plans a key under the lock, decrypts without it,
 and commits under the lock again, so any number of other tasks may plan and commit in between.
 A frame that does not authenticate is a plan that is never committed.
 */
module MsgTasks {
  import opened Common
  import opened MsgChain

  datatype Task = Task(counter: nat, plan: Plan, live: bool)

  /** The chain, the tasks so far, and the counters whose frames were opened, in order. */
  datatype World = World(m: Chain, tasks: seq<Task>, opens: seq<nat>)

  datatype Event =
    | Begin(counter: nat)   // a frame claiming this counter arrives and its key is planned
    | Finish(i: nat)        // task i has decrypted its frame and commits

  ghost predicate Commits(w: World, e: Event) {
    e.Finish? && e.i < |w.tasks| && w.tasks[e.i].live && !w.tasks[e.i].plan.Refused?
  }

  ghost function Next(k: Kdf, w: World, e: Event): World {
    match e
    case Begin(c) => w.(tasks := w.tasks + [Task(c, PlanFor(k, w.m, c), true)])
    case Finish(i) =>
      if !Commits(w, e) then w else
      var t := w.tasks[i];
      World(Commit(w.m, t.plan), w.tasks[i := t.(live := false)], w.opens + [t.counter])
  }

  ghost function Run(k: Kdf, w: World, events: seq<Event>): World {
    if events == [] then w else Next(k, Run(k, w, events[..|events| - 1]), events[|events| - 1])
  }

  ghost function Fresh(seed: Bytes): World { World(Seed(seed), [], []) }

  // ---- Whatever the interleaving, every key is right ----

  ghost predicate GoodTask(k: Kdf, seed: Bytes, m: Chain, t: Task) {
    && Sound(k, seed, t.plan, t.counter)
    && (t.plan.Forward? ==> t.counter - |t.plan.cache| <= m.pos) && (t.plan.Cached? ==> t.counter < m.pos)
  }

  ghost predicate Steady(k: Kdf, seed: Bytes, w: World) {
    && Right(k, seed, w.m)
    && (forall t :: t in w.tasks ==> GoodTask(k, seed, w.m, t))
    && (forall c :: c in w.opens ==> c < w.m.pos)
    && (w.m.pos > 0 ==> w.m.pos - 1 in w.opens)
  }

  lemma NextKeepsSteady(k: Kdf, seed: Bytes, w: World, e: Event)
    requires Steady(k, seed, w)
    ensures Steady(k, seed, Next(k, w, e)) && Next(k, w, e).m.pos >= w.m.pos
  {
    match e {
      case Begin(c) =>
        PlannedKeyIsRight(k, seed, w.m, c);
        assert forall u :: u in Next(k, w, e).tasks ==> u in w.tasks || u == Task(c, PlanFor(k, w.m, c), true);
      case Finish(i) =>
        if Commits(w, e) {
          var t := w.tasks[i];
          assert t in w.tasks;
          CommitKeepsRight(k, seed, w.m, t.plan, t.counter);
          CommitKeepsSteady(k, seed, w, i, Commit(w.m, t.plan));
        }
    }
  }

  lemma CommitKeepsSteady(k: Kdf, seed: Bytes, w: World, i: nat, m: Chain)
    requires Steady(k, seed, w) && i < |w.tasks| && !w.tasks[i].plan.Refused? && Right(k, seed, m)
    requires var t := w.tasks[i];
      m.pos == if t.plan.Forward? && t.counter >= w.m.pos then t.counter + 1 else w.m.pos
    ensures Steady(k, seed, World(m, w.tasks[i := w.tasks[i].(live := false)], w.opens + [w.tasks[i].counter]))
  {
    var t := w.tasks[i];
    assert t in w.tasks;
    var after := w.tasks[i := t.(live := false)];
    assert forall u :: u in after ==> u in w.tasks || u == t.(live := false);
  }

  lemma {:induction false} RunKeepsSteady(k: Kdf, seed: Bytes, w: World, events: seq<Event>)
    requires Steady(k, seed, w)
    ensures Steady(k, seed, Run(k, w, events))
  {
    if events != [] {
      RunKeepsSteady(k, seed, w, events[..|events| - 1]);
      NextKeepsSteady(k, seed, Run(k, w, events[..|events| - 1]), events[|events| - 1]);
    }
  }

  /** In every interleaving, every planned key is the one its frame was sealed under. */
  lemma RightKey(k: Kdf, seed: Bytes, events: seq<Event>, t: Task)
    requires t in Run(k, Fresh(seed), events).tasks && !t.plan.Refused?
    ensures t.plan.key == KeyAt(k, seed, t.counter)
  {
    RunKeepsSteady(k, seed, Fresh(seed), events);
  }

  // ---- Opening a counter once ----

  /** No counter was opened twice, and none that was opened is offered a key any more. */
  ghost predicate Once(w: World) {
    && (forall i, j :: 0 <= i < j < |w.opens| ==> w.opens[i] != w.opens[j])
    && (forall c :: c in w.opens ==> c !in w.m.skipped)
  }

  ghost predicate Repeats(w: World) {
    exists i, j :: 0 <= i < j < |w.opens| && w.opens[i] == w.opens[j]
  }

  /** The plan is what would be planned now, or its counter was evicted in between and never opened. */
  ghost predicate Clean(k: Kdf, w: World, t: Task) {
    || t.plan == PlanFor(k, w.m, t.counter)
    || (t.counter < w.m.pos && t.counter !in w.m.skipped && t.counter !in w.opens)
  }

  ghost predicate CleanEvent(k: Kdf, w: World, e: Event) {
    Commits(w, e) ==> Clean(k, w, w.tasks[e.i])
  }

  ghost predicate CleanRun(k: Kdf, w: World, events: seq<Event>) {
    forall n :: 0 <= n < |events| ==> CleanEvent(k, Run(k, w, events[..n]), events[n])
  }

  /** What a chain keeps after a forward plan is committed to it. */
  lemma ForwardHolds(k: Kdf, seed: Bytes, m: Chain, t: Task, d: nat)
    requires Right(k, seed, m) && GoodTask(k, seed, m, t) && t.plan.Forward? && t.counter >= m.pos
    ensures var lo := t.counter - |t.plan.cache|;
      var all := InsertAll(m.skipped, t.plan.cache);
      && (d in Commit(m, t.plan).skipped <==> d in all && |Above(all.Keys, d)| < MAX_SKIP)
      && (forall c :: c in all <==> c in m.skipped || lo <= c < t.counter)
  {
    JumpStores(k, seed, m.skipped, t.plan.cache, t.counter - |t.plan.cache|);
    EvictKeepsIff(InsertAll(m.skipped, t.plan.cache), d);
    CommitForward(m, t.plan);
  }

  lemma {:induction false} FewBetween(lo: nat, hi: nat, s: set<nat>)
    requires lo <= hi && forall c :: c in s ==> lo <= c < hi
    ensures |s| <= hi - lo
    decreases hi - lo
  {
    if lo == hi {
      assert s == {};
    } else {
      FewBetween(lo, hi - 1, s - {hi - 1});
      assert |s - {hi - 1}| >= |s| - 1;
    }
  }

  /** A forward plan from an earlier position brings back the counter that moved the chain since. */
  lemma StaleJumpRevives(k: Kdf, seed: Bytes, w: World, t: Task)
    requires Steady(k, seed, w) && GoodTask(k, seed, w.m, t) && t.plan.Forward?
    requires t.counter - |t.plan.cache| < w.m.pos <= t.counter
    ensures var d := w.m.pos - 1; d in w.opens && d in Commit(w.m, t.plan).skipped
  {
    var d := w.m.pos - 1;
    ForwardHolds(k, seed, w.m, t, d);
    var all := InsertAll(w.m.skipped, t.plan.cache);
    FewBetween(d + 1, t.counter, Above(all.Keys, d));
  }

  /** A plan made at the chain's own position is the plan that would be made now. */
  lemma SamePlan(k: Kdf, seed: Bytes, m: Chain, t: Task)
    requires Right(k, seed, m) && GoodTask(k, seed, m, t) && t.plan.Forward? && t.counter - |t.plan.cache| == m.pos
    ensures t.plan == PlanFor(k, m, t.counter)
  {
    var p := PlanFor(k, m, t.counter);
    PlannedKeyIsRight(k, seed, m, t.counter);
    PlansIff(k, m, t.counter);
    SameSkips(k, seed, p.cache, t.plan.cache, m.pos);
  }

  lemma SameSkips(k: Kdf, seed: Bytes, a: seq<Skip>, b: seq<Skip>, lo: nat)
    requires Skips(k, seed, a, lo) && Skips(k, seed, b, lo) && |a| == |b|
    ensures a == b
  {
    assert forall i :: 0 <= i < |a| ==> a[i] == b[i];
  }

  /** A clean commit opens a new counter and leaves no opened one behind. */
  lemma CleanKeepsOnce(k: Kdf, seed: Bytes, w: World, e: Event)
    requires Steady(k, seed, w) && Once(w) && CleanEvent(k, w, e)
    ensures Once(Next(k, w, e))
  {
    if Commits(w, e) {
      var t := w.tasks[e.i];
      assert t in w.tasks;
      CleanCommit(k, seed, w, t);
    }
  }

  lemma CleanCommit(k: Kdf, seed: Bytes, w: World, t: Task)
    requires Steady(k, seed, w) && Once(w) && GoodTask(k, seed, w.m, t) && !t.plan.Refused? && Clean(k, w, t)
    ensures t.counter !in w.opens
    ensures forall c :: c in w.opens || c == t.counter ==> c !in Commit(w.m, t.plan).skipped
  {
    PlannedKeyIsRight(k, seed, w.m, t.counter);
    if t.plan.Forward? {
      CommitForward(w.m, t.plan);
      if t.counter >= w.m.pos {
        forall c | c in w.opens || c == t.counter ensures c !in Commit(w.m, t.plan).skipped {
          ForwardHolds(k, seed, w.m, t, c);
        }
      }
    }
  }

  /** A commit that is not clean opens a counter again, or leaves one that can be. */
  lemma UncleanRevives(k: Kdf, seed: Bytes, w: World, t: Task)
    requires Steady(k, seed, w) && GoodTask(k, seed, w.m, t) && !t.plan.Refused? && !Clean(k, w, t)
    ensures t.counter in w.opens || exists d :: (d in w.opens || d == t.counter) && d in Commit(w.m, t.plan).skipped
  {
    if t.counter !in w.opens {
      if t.plan.Forward? {
        CommitForward(w.m, t.plan);
        if t.counter >= w.m.pos {
          if t.counter - |t.plan.cache| == w.m.pos { SamePlan(k, seed, w.m, t); }
          StaleJumpRevives(k, seed, w, t);
        }
      }
    }
  }

  lemma {:induction false} CleanRunKeepsOnce(k: Kdf, seed: Bytes, w: World, events: seq<Event>)
    requires Steady(k, seed, w) && Once(w) && CleanRun(k, w, events)
    ensures Once(Run(k, w, events)) && Steady(k, seed, Run(k, w, events))
  {
    if events != [] {
      var n := |events| - 1;
      CleanPrefix(k, w, events, n);
      CleanRunKeepsOnce(k, seed, w, events[..n]);
      CleanKeepsOnce(k, seed, Run(k, w, events[..n]), events[n]);
      NextKeepsSteady(k, seed, Run(k, w, events[..n]), events[n]);
    }
  }

  lemma CleanPrefix(k: Kdf, w: World, events: seq<Event>, n: nat)
    requires CleanRun(k, w, events) && n <= |events|
    ensures CleanRun(k, w, events[..n])
  {
    forall i | 0 <= i < n ensures CleanEvent(k, Run(k, w, events[..n][..i]), events[..n][i]) {
      assert events[..n][..i] == events[..i];
    }
  }

  /** In every run of clean commits, no counter is opened twice. */
  lemma OpensOnce(k: Kdf, seed: Bytes, events: seq<Event>)
    requires CleanRun(k, Fresh(seed), events)
    ensures !Repeats(Run(k, Fresh(seed), events))
  {
    CleanRunKeepsOnce(k, seed, Fresh(seed), events);
  }

  /** Some continuation of clean commits opens a counter twice. */
  ghost predicate CanRepeat(k: Kdf, w: World) {
    exists events :: CleanRun(k, w, events) && Repeats(Run(k, w, events))
  }

  /** A kept key of an opened counter opens it again. */
  lemma HeldRepeats(k: Kdf, w: World, d: nat)
    requires d in w.opens && d in w.m.skipped && d < w.m.pos
    ensures CanRepeat(k, w)
  {
    var a, b := Begin(d), Finish(|w.tasks|);
    var v := Next(k, w, a);
    var events := [a, b];
    assert events[..0] == [] && events[..1] == [a] && [a][..0] == [];
    assert Run(k, w, [a]) == v;
    assert v.tasks[|w.tasks|] == Task(d, PlanFor(k, w.m, d), true) && v.m == w.m;
    assert Commits(v, b) && Clean(k, v, v.tasks[|w.tasks|]);
    assert CleanRun(k, w, events);
    var u := Run(k, w, events);
    assert u == Next(k, v, b) && u.opens == w.opens + [d];
    var i :| 0 <= i < |w.opens| && w.opens[i] == d;
    assert u.opens[i] == u.opens[|w.opens|];
  }

  lemma NowRepeats(k: Kdf, w: World)
    requires Repeats(w)
    ensures CanRepeat(k, w)
  {
    assert CleanRun(k, w, []) && Run(k, w, []) == w;
  }

  /** A commit is safe exactly when it is clean: otherwise clean commits alone open some counter twice. */
  lemma CommitSafeIff(k: Kdf, seed: Bytes, w: World, i: nat)
    requires Steady(k, seed, w) && Once(w) && Commits(w, Finish(i))
    ensures CanRepeat(k, Next(k, w, Finish(i))) <==> !Clean(k, w, w.tasks[i])
  {
    var t, v := w.tasks[i], Next(k, w, Finish(i));
    assert t in w.tasks;
    NextKeepsSteady(k, seed, w, Finish(i));
    if Clean(k, w, t) {
      CleanKeepsOnce(k, seed, w, Finish(i));
      forall events | CleanRun(k, v, events) ensures !Repeats(Run(k, v, events)) {
        CleanRunKeepsOnce(k, seed, v, events);
      }
    } else {
      UncleanRevives(k, seed, w, t);
      if t.counter in w.opens {
        var j :| 0 <= j < |w.opens| && w.opens[j] == t.counter;
        assert v.opens[j] == v.opens[|w.opens|];
        NowRepeats(k, v);
      } else {
        var d :| (d in w.opens || d == t.counter) && d in v.m.skipped;
        assert d in v.opens;
        HeldRepeats(k, v, d);
      }
    }
  }

  /** Both tasks have planned, and the second one has committed. */
  ghost function Overlapped(k: Kdf, w: World, a: nat, b: nat): World {
    Next(k, Next(k, Next(k, w, Begin(a)), Begin(b)), Finish(|w.tasks| + 1))
  }

  lemma OverlappedIs(k: Kdf, w: World, a: nat, b: nat)
    requires w.m.pos <= b <= w.m.pos + MAX_SKIP
    ensures var v, n := Overlapped(k, w, a, b), |w.tasks|;
      && v.m == Commit(w.m, PlanFor(k, w.m, b)) && v.opens == w.opens + [b]
      && |v.tasks| == n + 2 && v.tasks[n] == Task(a, PlanFor(k, w.m, a), true)
  {
    PlansIff(k, w.m, b);
    var v1 := Next(k, w, Begin(a));
    var v2 := Next(k, v1, Begin(b));
    assert v2.tasks[|w.tasks| + 1] == Task(b, PlanFor(k, w.m, b), true) && Commits(v2, Finish(|w.tasks| + 1));
  }

  /**
   Two frames ahead of the chain, opened by tasks that overlap, always leave a counter that opens
   again: the later commit of the lower one does nothing, that of the higher one brings the other back,
   and one frame delivered twice is opened twice.
   */
  lemma OverlapRepeats(k: Kdf, seed: Bytes, w: World, a: nat, b: nat)
    requires Steady(k, seed, w) && Once(w)
    requires w.m.pos <= a <= w.m.pos + MAX_SKIP && w.m.pos <= b <= w.m.pos + MAX_SKIP
    ensures var v := Overlapped(k, w, a, b);
      Once(v) && Commits(v, Finish(|w.tasks|)) && CanRepeat(k, Next(k, v, Finish(|w.tasks|)))
  {
    var v1 := Next(k, w, Begin(a));
    var v2 := Next(k, v1, Begin(b));
    var v, n := Overlapped(k, w, a, b), |w.tasks|;
    NextKeepsSteady(k, seed, w, Begin(a));
    NextKeepsSteady(k, seed, v1, Begin(b));
    NextKeepsSteady(k, seed, v2, Finish(n + 1));
    assert CleanEvent(k, v2, Finish(n + 1));
    CleanKeepsOnce(k, seed, v2, Finish(n + 1));
    OverlappedIs(k, w, a, b);
    PlansIff(k, w.m, a);
    OverlapIsUnclean(k, seed, w, a, b, v);
    CommitSafeIff(k, seed, v, n);
  }

  lemma OverlapIsUnclean(k: Kdf, seed: Bytes, w: World, a: nat, b: nat, v: World)
    requires Steady(k, seed, w) && v.m == Commit(w.m, PlanFor(k, w.m, b)) && v.opens == w.opens + [b]
    requires w.m.pos <= a <= w.m.pos + MAX_SKIP && w.m.pos <= b <= w.m.pos + MAX_SKIP
    ensures !Clean(k, v, Task(a, PlanFor(k, w.m, a), true))
  {
    var t := Task(b, PlanFor(k, w.m, b), true);
    PlannedKeyIsRight(k, seed, w.m, b);
    CommitKeepsRight(k, seed, w.m, t.plan, b);
    if a < b { JumpKeeps(k, seed, w.m, t, a); }
    MovedIsUnclean(k, w.m, v, a, b);
  }

  lemma MovedIsUnclean(k: Kdf, m: Chain, v: World, a: nat, b: nat)
    requires m.pos <= a <= m.pos + MAX_SKIP && m.pos <= b && v.m.pos == b + 1
    requires b in v.opens && (a < b ==> a in v.m.skipped)
    ensures !Clean(k, v, Task(a, PlanFor(k, m, a), true))
  {
    PlanMoved(k, m, v.m, a, b);
  }

  /** A jump keeps every counter it jumps over. */
  lemma JumpKeeps(k: Kdf, seed: Bytes, m: Chain, t: Task, a: nat)
    requires Right(k, seed, m) && t.plan == PlanFor(k, m, t.counter) && t.plan.Forward? && m.pos <= a < t.counter
    ensures a in Commit(m, t.plan).skipped
  {
    PlannedKeyIsRight(k, seed, m, t.counter);
    ForwardHolds(k, seed, m, t, a);
    FewBetween(a + 1, t.counter, Above(InsertAll(m.skipped, t.plan.cache).Keys, a));
  }

  /** Once the position has moved, a forward plan is no longer the plan for its counter. */
  lemma PlanMoved(k: Kdf, m: Chain, n: Chain, a: nat, b: nat)
    requires m.pos <= a <= m.pos + MAX_SKIP && m.pos <= b && n.pos == b + 1
    ensures PlanFor(k, m, a) != PlanFor(k, n, a)
  {
    assert |PlanFor(k, m, a).cache| == a - m.pos;
    assert a >= n.pos && PlanFor(k, n, a).Forward? ==> |PlanFor(k, n, a).cache| == a - n.pos;
  }

  // ---- Which counters are still offered a key ----

  /** Counters below the position that have not been opened. */
  ghost function Missing(w: World): set<nat> {
    set c | 0 <= c < w.m.pos && c !in w.opens
  }

  /** Never since it was jumped over were there `MAX_SKIP` missing counters above `d`. */
  ghost predicate NeverBuried(k: Kdf, w: World, events: seq<Event>, d: nat) {
    AtEveryPoint((es: seq<Event>) => !Buried(Run(k, w, es), d), events)
  }

  ghost predicate AtEveryPoint(holds: seq<Event> -> bool, events: seq<Event>) {
    forall n :: 0 <= n <= |events| ==> holds(events[..n])
  }

  lemma AtTheLastPoint(holds: seq<Event> -> bool, events: seq<Event>)
    requires events != []
    ensures AtEveryPoint(holds, events) <==> AtEveryPoint(holds, events[..|events| - 1]) && holds(events)
  {
    var n := |events| - 1;
    var init := events[..n];
    assert events[..n + 1] == events;
    assert forall i :: 0 <= i <= n ==> init[..i] == events[..i];
  }

  ghost predicate Buried(w: World, d: nat) {
    d < w.m.pos && |Above(Missing(w), d)| >= 1024
  }

  /** What is kept are the topmost of the missing counters. */
  ghost predicate Topmost(w: World) {
    && w.m.skipped.Keys <= Missing(w)
    && (forall d, e :: d in w.m.skipped && e in Missing(w) && d < e ==> e in w.m.skipped)
    && (forall d :: d in w.m.skipped ==> !Buried(w, d))
  }

  /** How one clean event changes what is kept. */
  lemma KeptStep(k: Kdf, seed: Bytes, w: World, e: Event, d: nat)
    requires Steady(k, seed, w) && Once(w) && Topmost(w) && CleanEvent(k, w, e)
    ensures var v := Next(k, w, e);
      d in v.m.skipped <==> d in Missing(v) && (d < w.m.pos ==> d in w.m.skipped) && !Buried(v, d)
  {
    var v := Next(k, w, e);
    NextKeepsSteady(k, seed, w, e);
    if !Commits(w, e) {
      assert Missing(v) == Missing(w);
    } else {
      var t := w.tasks[e.i];
      assert t in w.tasks;
      CleanCommit(k, seed, w, t);
      CommitKeepsRight(k, seed, w.m, t.plan, t.counter);
      if t.plan.Forward? && t.counter >= w.m.pos {
        KeptJump(k, seed, w, t, v, d);
      } else {
        if t.plan.Forward? { CommitForward(w.m, t.plan); }
        assert Missing(v) == Missing(w) - {t.counter};
        Fewer(Above(Missing(v), d), Above(Missing(w), d));
      }
    }
  }

  lemma KeptJump(k: Kdf, seed: Bytes, w: World, t: Task, v: World, d: nat)
    requires Steady(k, seed, w) && Topmost(w) && GoodTask(k, seed, w.m, t) && t.plan.Forward?
    requires t.counter >= w.m.pos && t.plan == PlanFor(k, w.m, t.counter)
    requires v.m == Commit(w.m, t.plan) && v.m.pos == t.counter + 1 && v.opens == w.opens + [t.counter]
    ensures d in v.m.skipped <==> d in Missing(v) && (d < w.m.pos ==> d in w.m.skipped) && !Buried(v, d)
  {
    PlannedKeyIsRight(k, seed, w.m, t.counter);
    ForwardHolds(k, seed, w.m, t, d);
    JumpedMissing(w, v, t.counter);
    var all := InsertAll(w.m.skipped, t.plan.cache).Keys;
    JumpedSets(w.m.skipped.Keys, Missing(w), all, Missing(v), w.m.pos, t.counter, d);
  }

  lemma JumpedMissing(w: World, v: World, c: nat)
    requires c >= w.m.pos && v.m.pos == c + 1 && v.opens == w.opens + [c] && forall d :: d in w.opens ==> d < w.m.pos
    ensures forall d :: d in Missing(v) <==> d in Missing(w) || w.m.pos <= d < c
  {
  }

  /** If what is kept is topmost, then above any counter kept or just jumped over all missing ones are kept. */
  lemma JumpedSets(held: set<nat>, missing: set<nat>, all: set<nat>, after: set<nat>, lo: nat, hi: nat, d: nat)
    requires held <= missing && (forall c :: c in missing ==> c < lo)
    requires forall c, e :: c in held && e in missing && c < e ==> e in held
    requires forall c :: c in all <==> c in held || lo <= c < hi
    requires forall c :: c in after <==> c in missing || lo <= c < hi
    ensures all <= after && (d in all <==> d in after && (d < lo ==> d in held))
    ensures d in all ==> Above(all, d) == Above(after, d)
  {
  }

  lemma CleanKeepsTopmost(k: Kdf, seed: Bytes, w: World, e: Event)
    requires Steady(k, seed, w) && Once(w) && Topmost(w) && CleanEvent(k, w, e)
    ensures Topmost(Next(k, w, e))
  {
    var v := Next(k, w, e);
    NextKeepsSteady(k, seed, w, e);
    forall d: nat ensures d in v.m.skipped <==> d in Missing(v) && (d < w.m.pos ==> d in w.m.skipped) && !Buried(v, d) {
      KeptStep(k, seed, w, e, d);
    }
    forall d, c | d in v.m.skipped && c in Missing(v) && d < c ensures c in v.m.skipped {
      assert c < w.m.pos ==> c in Missing(w);
      Fewer(Above(Missing(v), c), Above(Missing(v), d));
    }
  }

  /** What was missing below the old position was missing before. */
  lemma MissingShrinks(k: Kdf, seed: Bytes, w: World, e: Event, d: nat)
    requires Steady(k, seed, w) && d < w.m.pos && d in Missing(Next(k, w, e))
    ensures d in Missing(w)
  {
  }

  /** In every run of clean commits, a missing counter is still kept exactly when it was never buried. */
  lemma {:induction false} KeptIff(k: Kdf, seed: Bytes, events: seq<Event>, d: nat)
    requires CleanRun(k, Fresh(seed), events)
    ensures var w := Run(k, Fresh(seed), events);
      && Topmost(w)
      && (d in w.m.skipped <==> d in Missing(w) && NeverBuried(k, Fresh(seed), events, d))
  {
    var f := Fresh(seed);
    if events == [] {
      assert events[..0] == [];
    } else {
      var n := |events| - 1;
      var init, e := events[..n], events[n];
      CleanPrefix(k, f, events, n);
      KeptIff(k, seed, init, d);
      CleanRunKeepsOnce(k, seed, f, init);
      KeptIffStep(k, seed, Run(k, f, init), e, d, NeverBuried(k, f, init, d));
      if d >= Run(k, f, init).m.pos { YoungNeverBuried(k, seed, init, d); }
      AtTheLastPoint((es: seq<Event>) => !Buried(Run(k, f, es), d), events);
    }
  }

  lemma KeptIffStep(k: Kdf, seed: Bytes, w: World, e: Event, d: nat, never: bool)
    requires Steady(k, seed, w) && Once(w) && Topmost(w) && CleanEvent(k, w, e)
    requires d in w.m.skipped <==> d in Missing(w) && never
    ensures var v := Next(k, w, e);
      && Topmost(v)
      && (d in v.m.skipped <==> d in Missing(v) && (d < w.m.pos ==> never) && !Buried(v, d))
  {
    CleanKeepsTopmost(k, seed, w, e);
    KeptStep(k, seed, w, e, d);
    if d < w.m.pos && d in Missing(Next(k, w, e)) { MissingShrinks(k, seed, w, e, d); }
  }

  /** A counter the chain has not reached was never buried. */
  lemma {:induction false} YoungNeverBuried(k: Kdf, seed: Bytes, events: seq<Event>, d: nat)
    requires d >= Run(k, Fresh(seed), events).m.pos
    ensures NeverBuried(k, Fresh(seed), events, d)
  {
    forall n | 0 <= n <= |events| ensures !Buried(Run(k, Fresh(seed), events[..n]), d) {
      PositionGrows(k, seed, events, n);
    }
  }

  lemma {:induction false} PositionGrows(k: Kdf, seed: Bytes, events: seq<Event>, n: nat)
    requires n <= |events|
    ensures Run(k, Fresh(seed), events[..n]).m.pos <= Run(k, Fresh(seed), events).m.pos
  {
    if n < |events| {
      var init := events[..|events| - 1];
      PositionGrows(k, seed, init, n);
      assert init[..n] == events[..n];
      RunKeepsSteady(k, seed, Fresh(seed), init);
      NextKeepsSteady(k, seed, Run(k, Fresh(seed), init), events[|events| - 1]);
    } else {
      assert events[..n] == events;
    }
  }

  /**
   In every run of clean commits, a counter is offered a key exactly when it is at most `MAX_SKIP`
   ahead, or it was jumped over, has not been opened and was never buried under `MAX_SKIP` missing ones.
   */
  lemma OpensIff(k: Kdf, seed: Bytes, events: seq<Event>, counter: nat)
    requires CleanRun(k, Fresh(seed), events)
    ensures var w := Run(k, Fresh(seed), events);
      !PlanFor(k, w.m, counter).Refused? <==>
        if counter < w.m.pos then counter !in w.opens && NeverBuried(k, Fresh(seed), events, counter)
        else counter <= w.m.pos + 1024
  {
    var w := Run(k, Fresh(seed), events);
    KeptIff(k, seed, events, counter);
    PlansIff(k, w.m, counter);
    assert counter < w.m.pos ==> (counter in Missing(w) <==> counter !in w.opens);
  }
}
