/**
 When the ratchet of a link moves on, and when it cannot any more.

 An undisturbed exchange and a crossed pair both end with the two peers on one new key.
 But preparing an epoch overwrites the one prepared before it, so a step that arrives after
 a later one was already confirmed leaves the two peers one epoch apart for good.
 */
module RatchetProgress {
  import opened Common
  import opened Ratchet
  import opened RatchetLink
  import opened RatchetSplit

  /** Both ends hold one key, and neither has a step in flight or being finished. */
  ghost predicate Quiet(w: Link) {
    && w.lo.peer.root == w.hi.peer.root && !w.lo.peer.busy && !w.hi.peer.busy
    && w.lo.tasks == {} && w.hi.tasks == {}
  }

  /** The first half of an exchange: a step is started, delivered and answered. */
  lemma StepIsAnswered(w: Link, s: Side) returns (v: Link)
    requires Inv(w) && Quiet(w)
    ensures Leads(w, v) && Inv(v)
    ensures
      var me, you, x := v.At(s), v.At(s.Other()), w.next;
      && me.peer == ArmStep(w.At(s).peer, x).(busy := true) && me.tasks == {}
      && you.peer == AnswerStep(w.At(s.Other()).peer, x, x + 1) && you.tasks == {}
      && Step(w.At(s).peer.root, x, x + 1) in you.answers
  {
    var o, x := s.Other(), w.next;
    var w2 := StepIsStarted(w, s);
    LeadsOn(w, w2, Event(o, Admit(x)));
    var w3 := Next(w2, Event(o, Admit(x)));
    assert w3.At(o) == w.At(o).(admitted := w.At(o).admitted + {x}) && w3.At(s) == w2.At(s) && w3.next == x + 1;
    LeadsOn(w, w3, Event(o, Reply(x)));
    v := Next(w3, Event(o, Reply(x)));
    LeadsKeeps(w, v);
  }

  /** The second half: the answer is confirmed and the first frame of the new epoch levels the link. */
  lemma AnswerIsConfirmed(v: Link, s: Side, k: Key) returns (u: Link)
    requires Inv(v) && k in v.At(s.Other()).answers && Ahead(k, v.At(s).peer.root) && v.At(s).peer.flight == Some(k.xi)
    requires v.At(s.Other()).peer.prepared == Some(Prepared(Depth(k), k)) && !v.At(s.Other()).peer.busy
    requires v.At(s).tasks == {} && v.At(s.Other()).tasks == {}
    ensures Leads(v, u) && Inv(u) && Quiet(u) && u.lo.peer.root == k
  {
    var u1 := StepCompletes(v, s, k);
    u := FrameInstalls(u1, s.Other(), k);
    LeadsThrough(v, u1, u);
    LeadsKeeps(v, u);
  }

  /** From any quiet state, either end's step moves both ends to the one key it agreed on. */
  lemma ExchangeCompletes(w: Link, s: Side) returns (v: Link)
    requires Inv(w) && Quiet(w)
    ensures Leads(w, v) && Inv(v) && Quiet(v)
    ensures v.lo.peer.root == Step(w.lo.peer.root, w.next, w.next + 1) && v.lo.peer.epoch == w.lo.peer.epoch + 1
  {
    var k := Step(w.lo.peer.root, w.next, w.next + 1);
    var u := StepIsAnswered(w, s);
    v := AnswerIsConfirmed(u, s, k);
    LeadsThrough(w, u, v);
  }

  /** Both ends have started a step; the lower one ignores the other's, the higher one yields and answers. */
  lemma CrossedIsAnswered(w: Link) returns (v: Link)
    requires Inv(w) && Quiet(w)
    ensures Leads(w, v) && Inv(v)
    ensures v.lo.peer == ArmStep(w.lo.peer, w.next).(busy := true) && v.lo.tasks == {}
    ensures v.hi.peer == AnswerStep(w.hi.peer, w.next, w.next + 2) && v.hi.tasks == {}
    ensures Step(w.lo.peer.root, w.next, w.next + 2) in v.hi.answers
  {
    var x, y := w.next, w.next + 1;
    var w1 := StepIsStarted(w, Lo);
    LeadsKeeps(w, w1);
    var w2 := StepIsStarted(w1, Hi);
    LeadsThrough(w, w1, w2);
    assert Next(w2, Event(Lo, Admit(y))) == w2;
    LeadsOn(w, w2, Event(Hi, Admit(x)));
    var w3 := Next(w2, Event(Hi, Admit(x)));
    assert w3.hi == w2.hi.(yielding := w2.hi.yielding + {x}) && w3.lo == w1.lo && w3.next == x + 2;
    v := CrossedYields(w, w3, x);
  }

  lemma CrossedYields(w: Link, w3: Link, x: nat) returns (v: Link)
    requires Inv(w) && Quiet(w) && Leads(w, w3) && x == w.next && w3.next == x + 2
    requires x in w3.hi.yielding && w3.hi.peer == ArmStep(w.hi.peer, x + 1).(busy := true) && w3.hi.tasks == {}
    ensures Leads(w, v) && Inv(v) && v.lo == w3.lo
    ensures v.hi.peer == AnswerStep(w.hi.peer, x, x + 2) && v.hi.tasks == {}
    ensures Step(w.hi.peer.root, x, x + 2) in v.hi.answers
  {
    LeadsOn(w, w3, Event(Hi, Yield(x)));
    var w4 := Next(w3, Event(Hi, Yield(x)));
    LeadsOn(w, w4, Event(Hi, Clear));
    var w5 := Next(w4, Event(Hi, Clear));
    assert w5.hi.peer == w.hi.peer && w5.lo == w3.lo && x in w5.hi.admitted;
    LeadsOn(w, w5, Event(Hi, Reply(x)));
    v := Next(w5, Event(Hi, Reply(x)));
    LeadsKeeps(w, v);
  }

  /** A crossed pair of steps ends with both ends on the lower end's key. */
  lemma CrossedExchangeCompletes(w: Link) returns (v: Link)
    requires Inv(w) && Quiet(w)
    ensures Leads(w, v) && Inv(v) && Quiet(v) && v.lo.peer.root == Step(w.lo.peer.root, w.next, w.next + 2)
  {
    var u := CrossedIsAnswered(w);
    v := AnswerIsConfirmed(u, Lo, Step(w.lo.peer.root, w.next, w.next + 2));
    LeadsThrough(w, u, v);
  }

  // ---- When it cannot move any more ----

  /** `s` is one step ahead, and the other end no longer holds the key it would need to follow. */
  ghost predicate Stranded(w: Link, s: Side) {
    var me, you := w.At(s).peer, w.At(s.Other()).peer;
    Ahead(me.root, you.root) && (you.prepared.Some? ==> you.prepared.value.key != me.root)
  }

  /** `you` never had `k`, cannot install it, and did not start the step it came from. */
  ghost predicate MissedBy(me: End, you: End, k: Key, next: nat) {
    && k.Step? && k.xi in me.steps && k.xr < next
    && k in History(me.peer.root) && k !in History(you.peer.root)
    && (you.peer.prepared.Some? ==> you.peer.prepared.value.key != k)
  }

  ghost predicate Missed(w: Link, s: Side, k: Key) {
    Basic(w) && MissedBy(w.At(s), w.At(s.Other()), k, w.next)
  }

  lemma FollowerStays(me: End, you: End, lower: bool, next: nat, k: Key, a: Action)
    requires BasicOf(you, me, next) && MissedBy(me, you, k, next) && Enabled(you, me, a)
    ensures MissedBy(me, Move(you, lower, next, a), k, next)
  {
    if a.Apply? { assert a.t.x in you.steps; }
  }

  lemma LeaderStays(me: End, you: End, lower: bool, next: nat, k: Key, a: Action)
    requires BasicOf(me, you, next) && MissedBy(me, you, k, next) && Enabled(me, you, a)
    ensures MissedBy(Move(me, lower, next, a), you, k, next)
  {
    RootAdvances(me, you, lower, next, a);
  }

  lemma MissedStays(w: Link, s: Side, k: Key, e: Event)
    requires Missed(w, s, k)
    ensures Missed(Next(w, e), s, k)
  {
    NextKeepsBasic(w, e);
    var me, you := w.At(s), w.At(s.Other());
    if Enabled(w.At(e.s), w.At(e.s.Other()), e.a) {
      if e.s == s {
        LeaderStays(me, you, e.s.Lo?, w.next, k, e.a);
      } else {
        FollowerStays(me, you, e.s.Lo?, w.next, k, e.a);
      }
    }
  }

  /** Once stranded, no continuation whatever puts both ends on one key again. */
  lemma {:induction false} MissedForever(w: Link, s: Side, k: Key, events: seq<Event>)
    requires Missed(w, s, k)
    ensures Missed(Run(w, events), s, k)
    decreases |events|
  {
    if events != [] {
      MissedStays(w, s, k, events[0]);
      MissedForever(Next(w, events[0]), s, k, events[1..]);
    }
  }

  lemma StrandedMisses(w: Link, s: Side)
    requires Inv(w) && Stranded(w, s)
    ensures Missed(w, s, w.At(s).peer.root)
  {
    var k := w.At(s).peer.root;
    assert k in w.At(s.Other()).answers;
    if k in History(w.At(s.Other()).peer.root) { HistoryDepth(w.At(s.Other()).peer.root, k); }
  }

  /**
   Once stranded, no continuation, guarded or not, puts both ends on one key again, and no guarded
   continuation moves either of them.
   */
  lemma StrandedForever(w: Link, s: Side, events: seq<Event>)
    requires Inv(w) && Stranded(w, s)
    ensures var v := Run(w, events);
      && v.lo.peer.root != v.hi.peer.root
      && (GuardedRun(w, events) ==> v.lo.peer.root == w.lo.peer.root && v.hi.peer.root == w.hi.peer.root)
  {
    var v := Run(w, events);
    StrandedMisses(w, s);
    MissedForever(w, s, w.At(s).peer.root, events);
    EpochsOnlyGrow(w, events, s);
    EpochsOnlyGrow(w, events, s.Other());
    if GuardedRun(w, events) {
      RunKeeps(w, events);
      Frozen(v.At(s).peer.root, v.At(s.Other()).peer.root, w.At(s).peer.root);
    }
  }

  /** A chain through `k` and one from `k`'s parent that avoids it are a step apart only at `k` itself. */
  lemma Frozen(a: Key, b: Key, k: Key)
    requires k.Step? && k in History(a) && k !in History(b) && k.prev in History(b) && Comparable(a, b)
    ensures a == k && b == k.prev
  {
    HistoryDepth(a, k);
    HistoryDepth(b, k.prev);
    assert Ahead(a, b) && a != k ==> k in History(b);
  }

  ghost predicate Level(w: Link) {
    w.lo.peer.root == w.hi.peer.root
  }

  ghost predicate CanLevel(w: Link) {
    exists events :: Level(Run(w, events))
  }

  /** An end that is ahead can be joined in some continuation exactly when its key is still prepared. */
  lemma CatchUpIffPrepared(w: Link, s: Side)
    requires Inv(w) && Ahead(w.At(s).peer.root, w.At(s.Other()).peer.root)
    ensures CanLevel(w)
            <==> w.At(s.Other()).peer.prepared == Some(Prepared(w.At(s).peer.epoch, w.At(s).peer.root))
  {
    var me, you := w.At(s).peer, w.At(s.Other()).peer;
    if you.prepared == Some(Prepared(me.epoch, me.root)) {
      var v := FrameInstalls(w, s.Other(), me.root);
      var events :| GuardedRun(w, events) && Run(w, events) == v;
      assert Level(Run(w, events));
    } else {
      assert Stranded(w, s);
      forall events ensures !Level(Run(w, events)) {
        StrandedForever(w, s, events);
      }
    }
  }

  /** Of a link that can still be levelled, an answer takes that away exactly when the other end is already ahead. */
  lemma ReplyStrandsIff(w: Link, s: Side, xi: nat)
    requires Inv(w) && CanLevel(w) && xi in w.At(s).admitted
    ensures !CanLevel(Next(w, Event(s, Reply(xi)))) <==> Ahead(w.At(s.Other()).peer.root, w.At(s).peer.root)
  {
    var e, o := Event(s, Reply(xi)), s.Other();
    var v := Next(w, e);
    NextKeeps(w, e);
    var me, you := w.At(s).peer, w.At(o).peer;
    assert v.At(o) == w.At(o) && v.At(s).peer == AnswerStep(me, xi, w.next);
    if Ahead(you.root, me.root) {
      assert Older(you.root, w.next);
      CatchUpIffPrepared(v, o);
    } else if Ahead(me.root, you.root) {
      CatchUpIffPrepared(w, s);
      CatchUpIffPrepared(v, s);
    } else {
      assert Level(Run(v, []));
    }
  }

  /** A step given up and delivered after a newer one was confirmed strands the link, by guarded accesses alone. */
  lemma LateStepStrands() returns (w: Link)
    ensures Leads(FRESH_LINK, w) && Inv(w) && Stranded(w, Lo)
  {
    w := OlderAnswered();
    FreshIsGood();
    LeadsKeeps(FRESH_LINK, w);
  }
}
