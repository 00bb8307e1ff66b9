/**
 The chain of a prepared epoch is found by the epoch's number, and answering another step seeds a
 new chain under the same number.  A task may plan on the one and commit to the other.
 */
module MsgReseed {
  import opened Common
  import opened MsgChain

  /** A task remembers nothing of the chain it planned on; `seed` is here to tell which one it was. */
  datatype Task = Task(seed: Bytes, counter: nat, plan: Plan, live: bool)

  /** The chain that is found under the number now, and the tasks so far. */
  datatype World = World(seed: Bytes, m: Chain, tasks: seq<Task>)

  datatype Event =
    | Begin(counter: nat)   // a frame claiming this counter arrives and its key is planned
    | Finish(i: nat)        // task i has decrypted its frame and commits
    | Reseed(seed: Bytes)   // a step is answered: a new chain stands under the number

  ghost predicate Commits(w: World, e: Event) {
    e.Finish? && e.i < |w.tasks| && w.tasks[e.i].live && !w.tasks[e.i].plan.Refused?
  }

  ghost function Next(k: Kdf, w: World, e: Event): World {
    match e
    case Begin(c) => w.(tasks := w.tasks + [Task(w.seed, c, PlanFor(k, w.m, c), true)])
    case Finish(i) =>
      if !Commits(w, e) then w else
      var t := w.tasks[i];
      w.(m := Commit(w.m, t.plan), tasks := w.tasks[i := t.(live := false)])
    case Reseed(seed) => World(seed, Seed(seed), w.tasks)
  }

  ghost function Run(k: Kdf, w: World, events: seq<Event>): World {
    if events == [] then w else Next(k, Run(k, w, events[..|events| - 1]), events[|events| - 1])
  }

  ghost function Fresh(seed: Bytes): World { World(seed, Seed(seed), []) }

  /** The chain holds right keys, and every plan was right for the chain it was made on. */
  ghost predicate Steady(k: Kdf, w: World) {
    Right(k, w.seed, w.m) && forall t :: t in w.tasks ==> Sound(k, t.seed, t.plan, t.counter)
  }

  /** The plan was made on this chain, or does not move it. */
  ghost predicate Harmless(w: World, t: Task) {
    t.seed == w.seed || t.plan.Cached? || t.counter < w.m.pos
  }

  ghost predicate HarmlessEvent(w: World, e: Event) {
    Commits(w, e) ==> Harmless(w, w.tasks[e.i])
  }

  ghost predicate HarmlessRun(k: Kdf, w: World, events: seq<Event>) {
    forall n :: 0 <= n < |events| ==> HarmlessEvent(Run(k, w, events[..n]), events[n])
  }

  /** A plan made on another chain leaves the chain right if it does not move it. */
  lemma ForeignCommitStays(k: Kdf, seed: Bytes, m: Chain, t: Task)
    requires Right(k, seed, m) && !t.plan.Refused? && Sound(k, t.seed, t.plan, t.counter)
    requires t.plan.Cached? || t.counter < m.pos
    ensures Right(k, seed, Commit(m, t.plan))
  {
    if t.plan.Cached? {
      var c := t.plan.counter;
      assert (m.skipped - {c}).Keys == m.skipped.Keys - {c};
      Fewer((m.skipped - {c}).Keys, m.skipped.Keys);
    } else {
      CommitForward(m, t.plan);
    }
  }

  lemma HarmlessKeepsSteady(k: Kdf, w: World, e: Event)
    requires Steady(k, w) && HarmlessEvent(w, e)
    ensures Steady(k, Next(k, w, e))
  {
    match e {
      case Begin(c) => PlannedKeyIsRight(k, w.seed, w.m, c);
      case Finish(i) =>
        if Commits(w, e) {
          var t := w.tasks[i];
          assert t in w.tasks;
          if t.seed == w.seed {
            CommitKeepsRight(k, w.seed, w.m, t.plan, t.counter);
          } else {
            ForeignCommitStays(k, w.seed, w.m, t);
          }
          assert forall u :: u in w.tasks[i := t.(live := false)] ==> u in w.tasks || u == t.(live := false);
        }
      case Reseed(_) =>
    }
  }

  lemma {:induction false} HarmlessRunKeepsSteady(k: Kdf, w: World, events: seq<Event>)
    requires Steady(k, w) && HarmlessRun(k, w, events)
    ensures Steady(k, Run(k, w, events))
  {
    if events != [] {
      var n := |events| - 1;
      var init := events[..n];
      forall i | 0 <= i < n ensures HarmlessEvent(Run(k, w, init[..i]), init[i]) {
        assert init[..i] == events[..i];
      }
      HarmlessRunKeepsSteady(k, w, init);
      HarmlessKeepsSteady(k, Run(k, w, init), events[n]);
    }
  }

  /** While no commit moves a chain it was not planned on, every planned key is right for its chain. */
  lemma RightKeyAcrossReseeds(k: Kdf, seed: Bytes, events: seq<Event>, t: Task)
    requires HarmlessRun(k, Fresh(seed), events) && t in Run(k, Fresh(seed), events).tasks && !t.plan.Refused?
    ensures t.plan.key == KeyAt(k, t.seed, t.counter)
  {
    HarmlessRunKeepsSteady(k, Fresh(seed), events);
  }

  /** Two chains that never come together. */
  ghost predicate Apart(k: Kdf, a: Bytes, b: Bytes) {
    forall n :: 0 <= n ==> ChainAt(k, a, n) != ChainAt(k, b, n)
  }

  /** A commit leaves the chain right exactly when it is harmless. */
  lemma FinishRightIff(k: Kdf, w: World, i: nat)
    requires Steady(k, w) && Commits(w, Finish(i))
    requires w.tasks[i].seed == w.seed || Apart(k, w.tasks[i].seed, w.seed)
    ensures Right(k, w.seed, Next(k, w, Finish(i)).m) <==> Harmless(w, w.tasks[i])
  {
    assert w.tasks[i] in w.tasks;
    CommitRightIff(k, w.seed, w.m, w.tasks[i]);
  }

  lemma CommitRightIff(k: Kdf, seed: Bytes, m: Chain, t: Task)
    requires Right(k, seed, m) && !t.plan.Refused? && Sound(k, t.seed, t.plan, t.counter)
    requires t.seed == seed || Apart(k, t.seed, seed)
    ensures Right(k, seed, Commit(m, t.plan)) <==> t.seed == seed || t.plan.Cached? || t.counter < m.pos
  {
    if t.seed == seed {
      CommitKeepsRight(k, seed, m, t.plan, t.counter);
    } else if t.plan.Cached? || t.counter < m.pos {
      ForeignCommitStays(k, seed, m, t);
    } else {
      ForeignCommitMoves(k, m, t);
      MovedIsWrong(k, seed, t.seed, Commit(m, t.plan), t.counter + 1);
    }
  }

  /** A plan that moves the chain puts it where the plan's own chain is. */
  lemma ForeignCommitMoves(k: Kdf, m: Chain, t: Task)
    requires t.plan.Forward? && Sound(k, t.seed, t.plan, t.counter) && t.counter >= m.pos
    ensures var r := Commit(m, t.plan); r.chain == ChainAt(k, t.seed, t.counter + 1) && r.pos == t.counter + 1
  {
    CommitForward(m, t.plan);
  }

  lemma MovedIsWrong(k: Kdf, seed: Bytes, other: Bytes, m: Chain, n: nat)
    requires Apart(k, other, seed) && m.pos == n && m.chain == ChainAt(k, other, n)
    ensures !Right(k, seed, m)
  {
  }

  /**
   If a step is answered between the plan and the commit of a frame ahead of the chain, the old chain
   takes the place of the new one: from then on the keys offered are those of the chain replaced.
   */
  lemma OldChainTakesOver(k: Kdf, w: World, c: nat, seed: Bytes, d: nat)
    requires Steady(k, w) && w.m.pos <= c <= w.m.pos + MAX_SKIP && c < d <= c + MAX_SKIP
    ensures var v := Next(k, Next(k, Next(k, w, Begin(c)), Reseed(seed)), Finish(|w.tasks|));
      v.seed == seed && PlanFor(k, v.m, d).Forward? && PlanFor(k, v.m, d).key == KeyAt(k, w.seed, d)
  {
    var t := Task(w.seed, c, PlanFor(k, w.m, c), true);
    PlansIff(k, w.m, c);
    PlannedKeyIsRight(k, w.seed, w.m, c);
    OldPlanCommits(k, w, c, seed, t);
    ForeignCommitMoves(k, Seed(seed), t);
    KeysFrom(k, w.seed, Commit(Seed(seed), t.plan), c + 1, d);
  }

  lemma OldPlanCommits(k: Kdf, w: World, c: nat, seed: Bytes, t: Task)
    requires t == Task(w.seed, c, PlanFor(k, w.m, c), true) && !t.plan.Refused?
    ensures var v := Next(k, Next(k, Next(k, w, Begin(c)), Reseed(seed)), Finish(|w.tasks|));
      v.seed == seed && v.m == Commit(Seed(seed), t.plan)
  {
    var v2 := Next(k, Next(k, w, Begin(c)), Reseed(seed));
    assert v2.tasks[|w.tasks|] == t && Commits(v2, Finish(|w.tasks|));
  }

  lemma KeysFrom(k: Kdf, seed: Bytes, m: Chain, n: nat, d: nat)
    requires m.pos == n && m.chain == ChainAt(k, seed, n) && n <= d <= n + MAX_SKIP
    ensures PlanFor(k, m, d).Forward? && PlanFor(k, m, d).key == KeyAt(k, seed, d)
  {
    ChainAdds(k, seed, n, d - n);
  }
}
