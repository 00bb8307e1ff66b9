/**
 What happens when an access is not guarded.  For each thing that could be looked at again, the two
 ends stay in agreement exactly when it still holds; each failure comes with a run that shows it.
 */
module RatchetSplit {
  import opened Common
  import opened Ratchet
  import opened RatchetLink

  /** `w` can get to `v` by guarded accesses alone. */
  ghost predicate Leads(w: Link, v: Link) {
    exists events :: GuardedRun(w, events) && Run(w, events) == v
  }

  lemma {:induction false} RunThen(w: Link, events: seq<Event>, e: Event)
    ensures Run(w, events + [e]) == Next(Run(w, events), e)
    ensures GuardedRun(w, events + [e]) <==> GuardedRun(w, events) && Guarded(Run(w, events), e)
    decreases |events|
  {
    var all := events + [e];
    if events == [] {
      assert all[1..] == [];
    } else {
      assert all[0] == events[0] && all[1..] == events[1..] + [e];
      RunThen(Next(w, events[0]), events[1..], e);
    }
  }

  lemma LeadsHere(w: Link)
    ensures Leads(w, w)
  {
    assert GuardedRun(w, []) && Run(w, []) == w;
  }

  lemma LeadsOn(w: Link, v: Link, e: Event)
    requires Leads(w, v) && Guarded(v, e)
    ensures Leads(w, Next(v, e))
  {
    var events :| GuardedRun(w, events) && Run(w, events) == v;
    RunThen(w, events, e);
    assert Run(w, events + [e]) == Next(v, e);
  }

  /** Some guarded continuation ends with two keys for one epoch. */
  ghost predicate CanSplit(w: Link) {
    exists v :: Leads(w, v) && Split(v)
  }

  ghost predicate Split(w: Link) {
    w.lo.peer.epoch == w.hi.peer.epoch && w.lo.peer.root != w.hi.peer.root
  }

  lemma LeadsKeeps(w: Link, v: Link)
    requires Inv(w) && Leads(w, v)
    ensures Inv(v) && !Split(v)
  {
    var events :| GuardedRun(w, events) && Run(w, events) == v;
    RunKeeps(w, events);
  }

  /** A link that has split never holds one key again, whatever either end does. */
  lemma SplitForever(w: Link, events: seq<Event>)
    requires Basic(w) && Split(w)
    ensures var v := Run(w, events); v.lo.peer.root != v.hi.peer.root
  {
    var v := Run(w, events);
    EpochsOnlyGrow(w, events, Lo);
    EpochsOnlyGrow(w, events, Hi);
    if v.lo.peer.root == v.hi.peer.root {
      SameHistoryByDepth(v.lo.peer.root, w.lo.peer.root, w.hi.peer.root);
    }
  }

  // ---- Applying a finish ----

  /** A finish leaves the ends in agreement exactly when the root is still the one its preview saw. */
  lemma ApplyAgreesIff(w: Link, s: Side, t: Task)
    requires Inv(w) && Enabled(w.At(s), w.At(s.Other()), Apply(t))
    ensures Agree(Next(w, Event(s, Apply(t)))) <==> Confirmed(w.At(s), t)
  {
    var me, you := w.At(s), w.At(s.Other());
    InvIsSymmetric(w.lo, w.hi, w.next);
    assert t.key in you.answers && t.x in me.steps;
    if Confirmed(me, t) {
      FinishIsLevel(me, you, w.next, t);
    } else {
      StaleKeyIsUnknown(me, you, w.next, t);
    }
  }

  /** The key a stale finish makes was never derived at the other end. */
  lemma StaleKeyIsUnknown(me: End, you: End, next: nat, t: Task)
    requires InvOf(me, you, next) && t in me.tasks && t.key.Step? && !Confirmed(me, t)
    ensures var k := Step(me.peer.root, t.x, t.key.xr); k !in you.answers && k != you.peer.root
  {
    var k := Step(me.peer.root, t.x, t.key.xr);
    assert t.key in you.answers && t.x in me.steps;
    assert k == you.peer.root ==> k in me.answers;
  }

  // ---- Activating an epoch number ----

  /** A late activation leaves the ends in agreement exactly when the key that opened is still prepared. */
  lemma InstallAgreesIff(w: Link, s: Side, k: Key)
    requires Inv(w) && k in w.At(s).frames
    ensures Agree(Next(w, Event(s, Install(k)))) <==> StillPrepared(w.At(s), k)
    ensures !StillPrepared(w.At(s), k) ==> Split(Next(w, Event(s, Install(k))))
  {
    var me, you := w.At(s), w.At(s.Other());
    InvIsSymmetric(w.lo, w.hi, w.next);
    if CanActivate(me.peer, Depth(k)) { InstallIsCatchUp(me, you, w.next, k); }
  }

  // ---- Admitting a step ----

  /** Two steps that can both still be confirmed: one being finished here, the other in flight and admitted here. */
  ghost predicate Torn(w: Link, s: Side, t: Task, xi: nat) {
    var me, you := w.At(s), w.At(s.Other());
    && Basic(w) && me.peer.root == you.peer.root
    && t in me.tasks && Fits(t) && t.key.prev == me.peer.root
    && me.peer.flight == None && xi in me.admitted && you.peer.flight == Some(xi)
  }

  /** A finish that fits the root is checked and applied. */
  lemma FinishRuns(w: Link, s: Side, t: Task) returns (v: Link)
    requires Basic(w) && t in w.At(s).tasks && Fits(t) && t.key.prev == w.At(s).peer.root && w.At(s).peer.flight == None
    ensures Leads(w, v) && v.At(s.Other()) == w.At(s.Other())
    ensures v.At(s).peer == ApplyStep(w.At(s).peer, t.x, t.key.xr) && v.At(s).peer.root == t.key
    ensures v.At(s).answers == w.At(s).answers && v.At(s).tasks == w.At(s).tasks - {t, t.(checked := true)}
  {
    var u := t.(checked := true);
    LeadsHere(w);
    var w1 := Next(w, Event(s, Check(t)));
    LeadsOn(w, w, Event(s, Check(t)));
    assert w1.At(s) == w.At(s).(tasks := w.At(s).tasks - {t} + {u}) && w1.At(s.Other()) == w.At(s.Other());
    LeadsOn(w, w1, Event(s, Apply(u)));
    v := Next(w1, Event(s, Apply(u)));
  }

  lemma LeadsKeepsBasic(w: Link, v: Link)
    requires Basic(w) && Leads(w, v)
    ensures Basic(v)
  {
    var events :| GuardedRun(w, events) && Run(w, events) == v;
    RunKeepsBasic(w, events);
  }

  /** The end that is finishing answers the other's step and finishes its own. */
  lemma TornHere(w: Link, s: Side, t: Task, xi: nat) returns (v: Link)
    requires Torn(w, s, t, xi)
    ensures
      var me, you, a := v.At(s), v.At(s.Other()), Step(w.At(s).peer.root, xi, w.next);
      && Leads(w, v) && Basic(v)
      && me.peer.root == t.key && a in me.answers && you == w.At(s.Other())
  {
    var me := w.At(s);
    LeadsHere(w);
    var w1 := Next(w, Event(s, Reply(xi)));
    LeadsOn(w, w, Event(s, Reply(xi)));
    NextKeepsBasic(w, Event(s, Reply(xi)));
    assert w1.At(s).peer == AnswerStep(me.peer, xi, w.next) && w1.At(s).tasks == me.tasks;
    assert w1.At(s.Other()) == w.At(s.Other());
    v := FinishRuns(w1, s, t);
    LeadsThrough(w, w1, v);
    LeadsKeepsBasic(w, v);
  }

  /** An answer to the step in flight, over the root of the end that waits for it, completes the step. */
  lemma StepCompletes(w: Link, o: Side, a: Key) returns (v: Link)
    requires Basic(w) && a in w.At(o.Other()).answers && Ahead(a, w.At(o).peer.root)
    requires w.At(o).peer.flight == Some(a.xi)
    ensures Leads(w, v) && Basic(v) && v.At(o.Other()) == w.At(o.Other())
    ensures v.At(o).peer == ApplyStep(DropStep(w.At(o).peer), a.xi, a.xr) && v.At(o).peer.root == a
    ensures w.At(o).tasks == {} ==> v.At(o).tasks == {}
  {
    var you, t := w.At(o), Task(a.xi, a, Depth(a), false);
    LeadsHere(w);
    var e := Event(o, Take(a, Depth(a), true));
    var w1 := Next(w, e);
    LeadsOn(w, w, e);
    NextKeepsBasic(w, e);
    assert w1.At(o) == you.(peer := DropStep(you.peer), tasks := you.tasks + {t});
    assert w1.At(o.Other()) == w.At(o.Other());
    v := FinishRuns(w1, o, t);
    LeadsThrough(w, w1, v);
    LeadsKeepsBasic(w, v);
  }

  lemma LeadsThrough(u: Link, v: Link, w: Link)
    requires Leads(u, v) && Leads(v, w)
    ensures Leads(u, w)
  {
    var a :| GuardedRun(u, a) && Run(u, a) == v;
    var b :| GuardedRun(v, b) && Run(v, b) == w;
    RunJoin(u, a, b);
    assert Run(u, a + b) == w;
  }

  lemma {:induction false} RunJoin(w: Link, a: seq<Event>, b: seq<Event>)
    ensures Run(w, a + b) == Run(Run(w, a), b)
    ensures GuardedRun(w, a + b) <==> GuardedRun(w, a) && GuardedRun(Run(w, a), b)
    decreases |a|
  {
    if a == [] {
      assert a + b == b;
    } else {
      assert (a + b)[0] == a[0] && (a + b)[1..] == a[1..] + b;
      RunJoin(Next(w, a[0]), a[1..], b);
    }
  }

  lemma TornSplits(w: Link, s: Side, t: Task, xi: nat)
    requires Torn(w, s, t, xi)
    ensures CanSplit(w)
  {
    var a := Step(w.At(s).peer.root, xi, w.next);
    assert t.key in w.At(s.Other()).answers;
    var v := TornHere(w, s, t, xi);
    var u := StepCompletes(v, s.Other(), a);
    LeadsThrough(w, v, u);
    assert Split(u);
  }

  /** An admission that crosses a finish leaves a torn link, or one that is torn as soon as it is level. */
  lemma CrossingTears(w: Link, s: Side, e: Event, xi: nat)
    requires Inv(w) && e.s == s && Crosses(w.At(s), w.At(s.Other()), xi) && Enabled(w.At(s), w.At(s.Other()), e.a)
    requires e.a == Yield(xi) || (e.a == Admit(xi) && !w.At(s).peer.busy)
    ensures CanSplit(Next(w, e))
  {
    var me, you := w.At(s), w.At(s.Other());
    InvIsSymmetric(w.lo, w.hi, w.next);
    var v := Next(w, e);
    NextKeepsBasic(w, e);
    var t :| Hot(me, t);
    assert t.key in you.answers;
    if t.key.prev == me.peer.root {
      FinishIsLevel(me, you, w.next, t);
      TornSplits(v, s, t, xi);
    } else {
      LevelFirst(v, s, t, xi);
    }
  }

  /** A frame sealed under the prepared key arrives and the key is installed. */
  lemma FrameInstalls(v: Link, s: Side, k: Key) returns (u: Link)
    requires Basic(v) && v.At(s).peer.prepared == Some(Prepared(Depth(k), k)) && k in History(v.At(s.Other()).peer.root)
    ensures Leads(v, u) && Basic(u) && u.At(s.Other()) == v.At(s.Other())
    ensures u.At(s) == v.At(s).(peer := Activate(v.At(s).peer, Depth(k)), frames := v.At(s).frames + {k})
  {
    LeadsHere(v);
    var v1 := Next(v, Event(s, Open(k)));
    LeadsOn(v, v, Event(s, Open(k)));
    LeadsOn(v, v1, Event(s, Install(k)));
    u := Next(v1, Event(s, Install(k)));
    LeadsKeepsBasic(v, u);
  }

  /** If the other end is one step on, the frame that levels the link comes first. */
  lemma LevelFirst(v: Link, s: Side, t: Task, xi: nat)
    requires Basic(v) && AgreeOf(v.At(s), v.At(s.Other()))
    requires Hot(v.At(s), t) && t.key.prev != v.At(s).peer.root
    requires v.At(s).peer.flight == None && xi in v.At(s).admitted && v.At(s.Other()).peer.flight == Some(xi)
    ensures CanSplit(v)
  {
    var me, you := v.At(s), v.At(s.Other());
    var k := t.key.prev;
    assert t.key in you.answers;
    HistoryDepth(you.peer.root, k);
    assert k == you.peer.root;
    var v2 := FrameInstalls(v, s, k);
    TornSplits(v2, s, t, xi);
    var u :| Leads(v2, u) && Split(u);
    LeadsThrough(v, v2, u);
  }

  /**
   An admission is safe exactly when it does not cross: the other end's step in flight is not
   admitted while a step of our own is being finished.  If it is, guarded accesses alone split the link.
   */
  lemma AdmissionSafeIff(w: Link, e: Event)
    requires Inv(w) && Enabled(w.At(e.s), w.At(e.s.Other()), e.a)
    requires e.a.Yield? || (e.a.Admit? && !w.At(e.s).peer.busy)
    ensures CanSplit(Next(w, e)) <==> Crosses(w.At(e.s), w.At(e.s.Other()), e.a.xi)
  {
    if Crosses(w.At(e.s), w.At(e.s.Other()), e.a.xi) {
      CrossingTears(w, e.s, e, e.a.xi);
    } else {
      NextKeeps(w, e);
      forall v | Leads(Next(w, e), v) ensures !Split(v) {
        LeadsKeeps(Next(w, e), v);
      }
    }
  }

  // ---- The busy flag ----

  /** No finish is under way and both ends hold one key. */
  ghost predicate Calm(w: Link) {
    Basic(w) && w.lo.peer.root == w.hi.peer.root && w.lo.tasks == {} && w.hi.tasks == {}
  }

  /** A step is started and stored. */
  lemma StepIsStarted(w: Link, s: Side) returns (v: Link)
    requires !w.At(s).peer.busy
    ensures Leads(w, v) && v.next == w.next + 1 && v.At(s.Other()) == w.At(s.Other())
    ensures v.At(s) == w.At(s).(peer := ArmStep(w.At(s).peer, w.next).(busy := true), steps := w.At(s).steps + {w.next})
  {
    LeadsHere(w);
    var w1 := Next(w, Event(s, Claim));
    LeadsOn(w, w, Event(s, Claim));
    LeadsOn(w, w1, Event(s, Arm));
    v := Next(w1, Event(s, Arm));
  }

  /** The other end gives up what it has, admits our step, and starts one of its own. */
  lemma OtherStarts(w: Link, s: Side, z: nat) returns (v: Link)
    requires Calm(w) && z in w.At(s).steps
    ensures Leads(w, v) && Calm(v) && v.At(s) == w.At(s) && v.next == w.next + 1
    ensures var you := v.At(s.Other()); z in you.admitted && you.peer.flight == Some(w.next) && w.next in you.steps
  {
    var o := s.Other();
    LeadsHere(w);
    LeadsOn(w, w, Event(o, Drop));
    var w1 := Next(w, Event(o, Drop));
    LeadsOn(w, w1, Event(o, Clear));
    var w2 := Next(w1, Event(o, Clear));
    assert w2.At(o) == w.At(o).(peer := AbandonStep(w.At(o).peer)) && w2.At(s) == w.At(s) && w2.next == w.next;
    LeadsOn(w, w2, Event(o, Admit(z)));
    var w3 := Next(w2, Event(o, Admit(z)));
    assert z in w3.At(o).admitted && !w3.At(o).peer.busy;
    LeadsOn(w, w3, Event(o, Claim));
    var w4 := Next(w3, Event(o, Claim));
    LeadsOn(w, w4, Event(o, Arm));
    v := Next(w4, Event(o, Arm));
    LeadsKeepsBasic(w, v);
  }

  /** A step in flight without the flag is not dropped by the tie-break, and two crossed steps complete. */
  lemma LooseStepSplits(w: Link, s: Side)
    requires Calm(w) && w.At(s).peer.flight.Some? && !w.At(s).peer.busy
    ensures CanSplit(w)
  {
    var o, z, x := s.Other(), w.At(s).peer.flight.value, w.next;
    var v := OtherStarts(w, s, z);
    LeadsOn(w, v, Event(s, Admit(x)));
    var v1 := Next(v, Event(s, Admit(x)));
    assert x in v1.At(s).admitted && v1.At(o) == v.At(o) && v1.At(s).peer == w.At(s).peer;
    LeadsOn(w, v1, Event(o, Reply(z)));
    var v2 := Next(v1, Event(o, Reply(z)));
    var a := Step(w.At(s).peer.root, z, v1.next);
    assert a in v2.At(o).answers && v2.At(o).peer.flight == Some(x) && v2.At(s) == v1.At(s);
    var take := Event(s, Take(a, Depth(a), true));
    LeadsOn(w, v2, take);
    var v3 := Next(v2, take);
    LeadsKeepsBasic(w, v3);
    TornSplits(v3, s, Task(z, a, Depth(a), false), x);
    var u :| Leads(v3, u) && Split(u);
    LeadsThrough(w, v3, u);
  }

  /** Storing a step or resetting the flag is safe exactly when the flag still stands for the step in flight. */
  lemma FlagSafeIff(w: Link, s: Side, a: Action)
    requires Inv(w) && Calm(w) && (a.Arm? || a.Clear?) && Enabled(w.At(s), w.At(s.Other()), a)
    ensures CanSplit(Next(w, Event(s, a))) <==> !GuardedAt(w.At(s), w.At(s.Other()), a)
  {
    var e := Event(s, a);
    NextKeepsBasic(w, e);
    if GuardedAt(w.At(s), w.At(s.Other()), a) {
      NextKeeps(w, e);
      forall v | Leads(Next(w, e), v) ensures !Split(v) {
        LeadsKeeps(Next(w, e), v);
      }
    } else {
      LooseStepSplits(Next(w, e), s);
    }
  }

  /**
   Applying a confirmed finish resets the flag as well: if the other end can follow, that is safe
   exactly when no newer step is in flight.
   */
  lemma ApplyFlagSafeIff(w: Link, s: Side, t: Task)
    requires Inv(w) && Enabled(w.At(s), w.At(s.Other()), Apply(t)) && Confirmed(w.At(s), t)
    requires w.At(s).tasks == {t} && w.At(s.Other()).tasks == {}
    requires w.At(s.Other()).peer.prepared == Some(Prepared(Depth(t.key), t.key))
    ensures CanSplit(Next(w, Event(s, Apply(t)))) <==> w.At(s).peer.flight.Some?
  {
    var e := Event(s, Apply(t));
    var v := Next(w, e);
    if w.At(s).peer.flight.None? {
      NextKeeps(w, e);
      forall u | Leads(v, u) ensures !Split(u) {
        LeadsKeeps(v, u);
      }
    } else {
      NextKeepsBasic(w, e);
      assert v.At(s).peer.root == t.key && t.key in History(t.key);
      var u := FrameInstalls(v, s.Other(), t.key);
      LooseStepSplits(u, s);
      var x :| Leads(u, x) && Split(x);
      LeadsThrough(v, u, x);
    }
  }

  // ---- Each of these happens ----

  lemma FreshIsGood()
    ensures Inv(FRESH_LINK) && Leads(FRESH_LINK, FRESH_LINK)
  {
    LeadsHere(FRESH_LINK);
  }

  const FIRST_KEY := Step(Root, 0, 1)

  /** One end of a fresh link has started a step and the other has answered it. */
  lemma FirstAnswered(s: Side) returns (v: Link)
    ensures Leads(FRESH_LINK, v) && v.next == 2
    ensures v.At(s) == FRESH_END.(peer := FRESH_PEER.(flight := Some(0), busy := true), steps := {0})
    ensures v.At(s.Other()) == FRESH_END.(peer := AnswerStep(FRESH_PEER, 0, 1), admitted := {0}, answers := {FIRST_KEY})
  {
    var o := s.Other();
    var w := StepIsStarted(FRESH_LINK, s);
    LeadsOn(FRESH_LINK, w, Event(o, Admit(0)));
    var w1 := Next(w, Event(o, Admit(0)));
    assert w1.At(o) == FRESH_END.(admitted := {0}) && w1.At(s) == w.At(s);
    LeadsOn(FRESH_LINK, w1, Event(o, Reply(0)));
    v := Next(w1, Event(o, Reply(0)));
  }

  /** The first task of the end that started: taken, and accepted by the preview. */
  const FIRST_TASK := Task(0, FIRST_KEY, 1, true)

  /** An end that still is in the first epoch takes its step and checks an answer to it. */
  lemma Checked(s: Side, w: Link, x: nat, k: Key) returns (v: Link)
    requires Leads(FRESH_LINK, w) && w.At(s).peer == FRESH_PEER.(flight := Some(x), busy := true) && w.At(s).tasks == {}
    requires k in w.At(s.Other()).answers && Ahead(k, Root) && k.xi == x
    ensures Leads(FRESH_LINK, v) && v.next == w.next && v.At(s.Other()) == w.At(s.Other())
    ensures v.At(s) == w.At(s).(peer := FRESH_PEER.(busy := true), tasks := {Task(x, k, 1, true)})
  {
    var t := Task(x, k, 1, false);
    LeadsOn(FRESH_LINK, w, Event(s, Take(k, 1, true)));
    var w1 := Next(w, Event(s, Take(k, 1, true)));
    assert w1.At(s) == w.At(s).(peer := FRESH_PEER.(busy := true), tasks := {t});
    LeadsOn(FRESH_LINK, w1, Event(s, Check(t)));
    v := Next(w1, Event(s, Check(t)));
  }

  /**
   The tie-break does not see a finish under way.  The higher end has taken its step and checked the
   answer when the lower end's step arrives; it yields, answers, and its first task applies all the same.
   */
  lemma CrossedFinishSplits() returns (w: Link)
    ensures Leads(FRESH_LINK, w) && Enabled(w.hi, w.lo, Yield(2)) && CanSplit(Next(w, Event(Hi, Yield(2))))
  {
    var v := FirstAnswered(Hi);
    var v2 := StepIsStarted(v, Lo);
    LeadsThrough(FRESH_LINK, v, v2);
    assert v2.lo.peer.flight == Some(2) && v2.lo.steps == {2} && v2.hi == v.hi && FIRST_KEY in v2.lo.answers;
    var v3 := Checked(Hi, v2, 0, FIRST_KEY);
    LeadsOn(FRESH_LINK, v3, Event(Hi, Admit(2)));
    w := Next(v3, Event(Hi, Admit(2)));
    assert w.hi == v3.hi.(yielding := {2}) && w.lo == v2.lo;
    assert Hot(w.hi, FIRST_TASK) by { assert Depth(FIRST_KEY) == 1 + Depth(Root) == 1; }
    FreshIsGood();
    LeadsKeeps(FRESH_LINK, w);
    CrossingTears(w, Hi, Event(Hi, Yield(2)), 2);
  }

  /** A stalled step is given up while it is being finished, a second one is finished too, and both are applied. */
  lemma DoubleFinishBreaks() returns (w: Link, t: Task)
    ensures Leads(FRESH_LINK, w) && Enabled(w.lo, w.hi, Apply(t)) && !Agree(Next(w, Event(Lo, Apply(t))))
  {
    var v := FirstAnswered(Lo);
    var v0 := Checked(Lo, v, 0, FIRST_KEY);
    var v4 := StartAgain(v0);
    var k := Step(Root, 2, 3);
    assert k in v4.hi.answers && v4.lo.peer.flight == Some(2);
    t := Task(2, k, 1, false);
    LeadsOn(FRESH_LINK, v4, Event(Lo, Take(k, 1, true)));
    var v5 := Next(v4, Event(Lo, Take(k, 1, true)));
    assert v5.lo == v4.lo.(peer := FRESH_PEER.(busy := true), tasks := {FIRST_TASK, t});
    LeadsOn(FRESH_LINK, v5, Event(Lo, Check(t)));
    var v6 := Next(v5, Event(Lo, Check(t)));
    assert Depth(k) == 1 + Depth(Root) == 1;
    t := t.(checked := true);
    assert v6.lo == v5.lo.(tasks := {FIRST_TASK, t});
    LeadsOn(FRESH_LINK, v6, Event(Lo, Apply(FIRST_TASK)));
    w := Next(v6, Event(Lo, Apply(FIRST_TASK)));
    assert w.lo.peer.root == FIRST_KEY && t in w.lo.tasks;
    FreshIsGood();
    LeadsKeeps(FRESH_LINK, w);
    ApplyAgreesIff(w, Lo, t);
  }

  /** The lower end's tick drops what is stored, starts again, and is answered. */
  lemma StartAgain(v: Link) returns (w: Link)
    requires Leads(FRESH_LINK, v) && v.next == 2
    requires v.lo == FRESH_END.(peer := FRESH_PEER.(busy := true), steps := {0}, tasks := {FIRST_TASK})
    requires v.hi == FRESH_END.(peer := AnswerStep(FRESH_PEER, 0, 1), admitted := {0}, answers := {FIRST_KEY})
    ensures Leads(FRESH_LINK, w)
    ensures w.lo == v.lo.(peer := FRESH_PEER.(busy := true, flight := Some(2)), steps := {0, 2})
    ensures Step(Root, 2, 3) in w.hi.answers
  {
    LeadsOn(FRESH_LINK, v, Event(Lo, Drop));
    var v1 := Next(v, Event(Lo, Drop));
    LeadsOn(FRESH_LINK, v1, Event(Lo, Clear));
    var v2 := Next(v1, Event(Lo, Clear));
    assert v2.lo == v.lo.(peer := FRESH_PEER);
    var v4 := StepIsStarted(v2, Lo);
    LeadsThrough(FRESH_LINK, v2, v4);
    assert v4.lo == v.lo.(peer := FRESH_PEER.(busy := true, flight := Some(2)), steps := {0, 2});
    assert v4.hi == v.hi && v4.next == 3;
    LeadsOn(FRESH_LINK, v4, Event(Hi, Admit(2)));
    var v5 := Next(v4, Event(Hi, Admit(2)));
    assert v5.hi.admitted == {0, 2} && v5.lo == v4.lo;
    LeadsOn(FRESH_LINK, v5, Event(Hi, Reply(2)));
    w := Next(v5, Event(Hi, Reply(2)));
  }

  /** Both ends of a fresh link have a step in flight. */
  lemma BothStarted() returns (w: Link)
    ensures Leads(FRESH_LINK, w) && w.next == 2
    ensures w.hi == FRESH_END.(peer := FRESH_PEER.(flight := Some(0), busy := true), steps := {0})
    ensures w.lo == FRESH_END.(peer := FRESH_PEER.(flight := Some(1), busy := true), steps := {1})
  {
    var v := StepIsStarted(FRESH_LINK, Hi);
    w := StepIsStarted(v, Lo);
    LeadsThrough(FRESH_LINK, v, w);
  }

  /** The higher end's tick and an arriving step both abandon its step. */
  lemma AbandonedTwice() returns (w: Link)
    ensures Leads(FRESH_LINK, w) && w.next == 2 && w.hi.clears == 2 && w.hi.peer == FRESH_PEER.(busy := true)
    ensures w.hi.tasks == {} && w.lo.tasks == {} && w.lo.peer.root == Root
  {
    var v := BothStarted();
    LeadsOn(FRESH_LINK, v, Event(Hi, Admit(1)));
    var v1 := Next(v, Event(Hi, Admit(1)));
    assert v1.hi == v.hi.(yielding := {1}) && v1.lo == v.lo && v1.next == 2;
    LeadsOn(FRESH_LINK, v1, Event(Hi, Drop));
    var v2 := Next(v1, Event(Hi, Drop));
    assert v2.hi == v1.hi.(peer := FRESH_PEER.(busy := true), clears := 1) && v2.lo == v.lo && v2.next == 2;
    LeadsOn(FRESH_LINK, v2, Event(Hi, Yield(1)));
    w := Next(v2, Event(Hi, Yield(1)));
  }

  /** Two tasks abandon one step; the slower one resets the flag of the step started after it. */
  lemma LateClearSplits() returns (w: Link)
    ensures Leads(FRESH_LINK, w) && Enabled(w.hi, w.lo, Clear) && CanSplit(Next(w, Event(Hi, Clear)))
  {
    var v := AbandonedTwice();
    LeadsOn(FRESH_LINK, v, Event(Hi, Clear));
    var v1 := Next(v, Event(Hi, Clear));
    assert v1.hi == v.hi.(peer := FRESH_PEER, clears := 1) && v1.lo == v.lo;
    w := StepIsStarted(v1, Hi);
    LeadsThrough(FRESH_LINK, v1, w);
    FreshIsGood();
    LeadsKeeps(FRESH_LINK, w);
    FlagSafeIff(w, Hi, Clear);
  }

  /** The link after an older step was given up and the newer one was answered, applied and heard of. */
  lemma FirstFrameHeard() returns (w: Link)
    ensures Leads(FRESH_LINK, w) && w.next == 3 && 0 in w.lo.steps && w.lo.peer.root == Step(Root, 1, 2)
    ensures w.lo.peer.flight == None
    ensures w.hi == FRESH_END.(peer := AnswerStep(FRESH_PEER, 1, 2), admitted := {1}, answers := {Step(Root, 1, 2)},
                               frames := {Step(Root, 1, 2)})
  {
    var k := Step(Root, 1, 2);
    var t := Task(1, k, 1, true);
    var v := SecondAnswered();
    var v1 := Checked(Lo, v, 1, k);
    LeadsOn(FRESH_LINK, v1, Event(Lo, Apply(t)));
    var v2 := Next(v1, Event(Lo, Apply(t)));
    assert v2.lo.peer.root == k && v2.hi == v.hi && k in History(k);
    LeadsOn(FRESH_LINK, v2, Event(Hi, Open(k)));
    w := Next(v2, Event(Hi, Open(k)));
  }

  lemma GivenUp() returns (w: Link)
    ensures Leads(FRESH_LINK, w) && w == Link(FRESH_END.(steps := {0}), FRESH_END, 1)
  {
    var v := StepIsStarted(FRESH_LINK, Lo);
    LeadsOn(FRESH_LINK, v, Event(Lo, Drop));
    var v1 := Next(v, Event(Lo, Drop));
    LeadsOn(FRESH_LINK, v1, Event(Lo, Clear));
    w := Next(v1, Event(Lo, Clear));
  }

  lemma SecondAnswered() returns (w: Link)
    ensures Leads(FRESH_LINK, w) && w.next == 3
    ensures w.lo == FRESH_END.(peer := FRESH_PEER.(flight := Some(1), busy := true), steps := {0, 1})
    ensures w.hi == FRESH_END.(peer := AnswerStep(FRESH_PEER, 1, 2), admitted := {1}, answers := {Step(Root, 1, 2)})
  {
    var v := GivenUp();
    var v2 := StepIsStarted(v, Lo);
    LeadsThrough(FRESH_LINK, v, v2);
    assert v2 == Link(FRESH_END.(peer := FRESH_PEER.(flight := Some(1), busy := true), steps := {0, 1}), FRESH_END, 2);
    LeadsOn(FRESH_LINK, v2, Event(Hi, Admit(1)));
    var v3 := Next(v2, Event(Hi, Admit(1)));
    assert v3.hi == FRESH_END.(admitted := {1}) && v3.lo == v2.lo;
    LeadsOn(FRESH_LINK, v3, Event(Hi, Reply(1)));
    w := Next(v3, Event(Hi, Reply(1)));
  }

  /** The older step is delivered and answered after the newer one was confirmed. */
  lemma OlderAnswered() returns (w: Link)
    ensures Leads(FRESH_LINK, w) && w.lo.peer.root == Step(Root, 1, 2) && w.hi.peer.root == Root
    ensures w.hi.peer.prepared == Some(Prepared(1, Step(Root, 0, 3))) && Step(Root, 1, 2) in w.hi.frames
  {
    var v := FirstFrameHeard();
    LeadsOn(FRESH_LINK, v, Event(Hi, Admit(0)));
    var v1 := Next(v, Event(Hi, Admit(0)));
    assert v1.hi == v.hi.(admitted := {0, 1}) && v1.lo == v.lo;
    LeadsOn(FRESH_LINK, v1, Event(Hi, Reply(0)));
    w := Next(v1, Event(Hi, Reply(0)));
  }

  /** A frame opened under one key, an older step was answered, and the number installs the other key. */
  lemma LateInstallSplits() returns (w: Link)
    ensures Leads(FRESH_LINK, w) && Step(Root, 1, 2) in w.hi.frames
    ensures Split(Next(w, Event(Hi, Install(Step(Root, 1, 2)))))
  {
    w := OlderAnswered();
    FreshIsGood();
    LeadsKeeps(FRESH_LINK, w);
    assert Depth(Step(Root, 1, 2)) == 1 + Depth(Root) == 1;
    InstallAgreesIff(w, Hi, Step(Root, 1, 2));
  }
}
