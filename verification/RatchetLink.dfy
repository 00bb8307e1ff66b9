/**
 Two peers running the ratchet over a network that loses, duplicates, delays and reorders.

 Every received frame is handled on its own task and a session is not locked as a whole, so the
 steps here are the single accesses to its shared state: the busy flag, the slot of the step in
 flight, and the ratchet itself, each behind its own lock.  Whatever a peer ever sent can be
 delivered at any later time, any number of times, or never.
 */
module RatchetLink {
  import opened Common
  import opened Ratchet

  /** The two ends, named by their fingerprint order. */
  datatype Side = Lo | Hi {
    function Other(): Side { if Lo? then Hi else Lo }
  }

  /** A finish under way: the step `x` it took, the answer's key and epoch, and whether the preview agreed. */
  datatype Task = Task(x: nat, key: Key, epoch: nat, checked: bool)

  /** One end with everything it ever put on the wire and what its tasks are in the middle of. */
  datatype End = End(
    peer: Peer,
    steps: set<nat>,      // step PDUs this end has sent
    admitted: set<nat>,   // steps of the other end that a task here was told to answer
    answers: set<Key>,    // the keys confirmed by the answers this end has sent
    claims: nat,          // tasks that set the busy flag and have not stored their step yet
    yielding: set<nat>,   // arriving steps whose task saw the flag set and is to drop our own step
    tasks: set<Task>,     // finishes between their accesses
    clears: nat,          // tasks that are about to reset the busy flag
    forgets: nat,         // tasks that are about to empty the slot after a finish
    frames: set<Key>      // keys under which a frame opened, whose epoch number a task installs later
  )

  /** What one end may do next. */
  datatype Action =
    | Claim                                     // starting: set the flag if it is not set
    | Arm                                       // starting: store fresh material and send it
    | Drop                                      // abandoning: empty the slot
    | Clear                                     // abandoning, or after a failed preview: reset the flag
    | Forget                                    // after a finish: empty the slot
    | Admit(xi: nat)                            // a step arrives and the flag is read
    | Yield(xi: nat)                            // it was set and the tie-break is lost: empty the slot
    | Reply(xi: nat)                            // an admitted step is answered
    | Take(k: Key, epoch: nat, readable: bool)  // an answer arrives: take the step out of the slot
    | Check(t: Task)                            // preview the key and compare
    | Apply(t: Task)                            // mix the step into the root
    | Open(k: Key)                              // a frame opens under the prepared key
    | Install(k: Key)                           // and the number of that epoch is activated

  ghost predicate Enabled(me: End, you: End, a: Action) {
    match a
    case Claim => !me.peer.busy
    case Arm => me.claims > 0
    case Drop => true
    case Clear => me.clears > 0
    case Forget => me.forgets > 0
    case Admit(xi) => xi in you.steps
    case Yield(xi) => xi in me.yielding
    case Reply(xi) => xi in me.admitted
    case Take(k, _, _) => k in you.answers
    case Check(t) => t in me.tasks && !t.checked && t.key.Step?
    case Apply(t) => t in me.tasks && t.checked && t.key.Step?
    // the sender has sealed under k
    case Open(k) => k in History(you.peer.root) && me.peer.prepared.Some? && me.peer.prepared.value.key == k
    case Install(k) => k in me.frames
  }

  function Less(n: nat): nat { if n > 0 then n - 1 else 0 }

  /** The acting end afterwards; `next` numbers freshly generated ephemeral material. */
  ghost function Move(me: End, lower: bool, next: nat, a: Action): End
    requires a.Check? || a.Apply? ==> a.t.key.Step?
  {
    var p := me.peer;
    match a
    case Claim => me.(peer := p.(busy := true), claims := me.claims + 1)
    case Arm => me.(peer := ArmStep(p, next), steps := me.steps + {next}, claims := Less(me.claims))
    case Drop => me.(peer := DropStep(p), clears := me.clears + 1)
    case Clear => me.(peer := ClearBusy(p), clears := Less(me.clears))
    case Forget => me.(peer := DropStep(p), forgets := Less(me.forgets))
    case Admit(xi) =>
      if !p.busy then me.(admitted := me.admitted + {xi})
      else if Admits(p, lower) then me.(yielding := me.yielding + {xi})
      else me
    case Yield(xi) => me.(peer := DropStep(p), clears := me.clears + 1, admitted := me.admitted + {xi})
    case Reply(xi) => me.(peer := AnswerStep(p, xi, next), answers := me.answers + {Step(p.root, xi, next)})
    case Take(k, epoch, readable) =>
      if p.flight.None? then me
      else if !readable then me.(peer := DropStep(p))
      else me.(peer := DropStep(p), tasks := me.tasks + {Task(p.flight.value, k, epoch, false)})
    case Check(t) =>
      if Confirms(p, t.x, t.key.xr, t.key, t.epoch)
      then me.(tasks := me.tasks - {t} + {t.(checked := true)})
      else me.(tasks := me.tasks - {t}, clears := me.clears + 1)
    case Apply(t) => me.(peer := ApplyStep(p, t.x, t.key.xr), tasks := me.tasks - {t}, forgets := me.forgets + 1)
    case Open(k) => me.(frames := me.frames + {k})
    case Install(k) => me.(peer := Activate(p, Depth(k)))
  }

  datatype Link = Link(lo: End, hi: End, next: nat) {
    ghost function At(s: Side): End { if s.Lo? then lo else hi }
  }

  datatype Event = Event(s: Side, a: Action)

  const FRESH_END := End(FRESH_PEER, {}, {}, {}, 0, {}, {}, 0, 0, {})
  const FRESH_LINK := Link(FRESH_END, FRESH_END, 0)

  ghost function Next(w: Link, e: Event): Link {
    if !Enabled(w.At(e.s), w.At(e.s.Other()), e.a) then w else
    var moved := Move(w.At(e.s), e.s.Lo?, w.next, e.a);
    var next := if e.a.Arm? || e.a.Reply? then w.next + 1 else w.next;
    if e.s.Lo? then Link(moved, w.hi, next) else Link(w.lo, moved, next)
  }

  ghost function Run(w: Link, events: seq<Event>): Link
    decreases |events|
  {
    if events == [] then w else Run(Next(w, events[0]), events[1..])
  }

  // ---- What every access keeps, in every interleaving ----

  /** All material mixed into `k` was generated before `next`. */
  ghost predicate Older(k: Key, next: nat) {
    k.Step? ==> k.xi < next && k.xr < next && Older(k.prev, next)
  }

  /** `a` is exactly one step ahead of `b`. */
  ghost predicate Ahead(a: Key, b: Key) {
    a.Step? && a.prev == b
  }

  ghost predicate Comparable(a: Key, b: Key) {
    a == b || Ahead(a, b) || Ahead(b, a)
  }

  /** The ratchet itself: epochs count steps, and what is prepared is one step on and was answered. */
  ghost predicate GoodRatchet(me: End, next: nat) {
    var p := me.peer;
    && p.epoch == Depth(p.root)
    && p.retired == Ancestors(p.root, 2)
    && Older(p.root, next)
    && (p.prepared.Some? ==>
          && p.prepared.value.epoch == p.epoch + 1
          && Ahead(p.prepared.value.key, p.root) && p.prepared.value.key in me.answers)
  }

  ghost predicate GoodSteps(me: End, you: End, next: nat) {
    && (me.peer.flight.Some? ==> me.peer.flight.value in me.steps)
    && me.admitted <= you.steps && me.yielding <= you.steps
    && (forall x :: x in me.steps ==> x < next)
  }

  /** Each answer was given over its own fresh material to an admitted step, from a root this end had. */
  ghost predicate GoodAnswers(me: End, next: nat) {
    && (forall a :: a in me.answers ==>
          a.Step? && a.prev in History(me.peer.root) && a.xi in me.admitted && a.xr < next)
    && (forall a, b :: a in me.answers && b in me.answers && a.xr == b.xr ==> a == b)
  }

  /** The answer fits the step and the epoch it was taken for. */
  ghost predicate Fits(t: Task) {
    t.key.Step? && t.key.xi == t.x && t.epoch == Depth(t.key)
  }

  ghost predicate GoodTasks(me: End, you: End) {
    && (forall t :: t in me.tasks ==> t.x in me.steps && t.key in you.answers && (t.checked ==> Fits(t)))
    && (forall k :: k in me.frames ==> k in me.answers && k in History(you.peer.root))
  }

  ghost predicate GoodEnd(me: End, you: End, next: nat) {
    GoodRatchet(me, next) && GoodSteps(me, you, next) && GoodAnswers(me, next) && GoodTasks(me, you)
  }

  ghost predicate BasicOf(me: End, you: End, next: nat) {
    GoodEnd(me, you, next) && GoodEnd(you, me, next) && me.steps !! you.steps
  }

  ghost predicate Basic(w: Link) {
    BasicOf(w.lo, w.hi, w.next)
  }

  lemma {:induction false} OlderGrows(k: Key, n: nat, m: nat)
    requires Older(k, n) && n <= m
    ensures Older(k, m)
  {
    if k.Step? { OlderGrows(k.prev, n, m); }
  }

  lemma {:induction false} OlderHistory(k: Key, h: Key, n: nat)
    requires Older(k, n) && h in History(k)
    ensures Older(h, n)
  {
    if h != k { OlderHistory(k.prev, h, n); }
  }

  /** The root of an end only moves one step on. */
  lemma RootAdvances(me: End, you: End, lower: bool, next: nat, a: Action)
    requires GoodRatchet(me, next) && Enabled(me, you, a)
    ensures var before, after := me.peer.root, Move(me, lower, next, a).peer.root;
      (after == before || Ahead(after, before)) && History(before) <= History(after)
  {
  }

  lemma MoveKeepsRatchet(me: End, you: End, lower: bool, next: nat, a: Action)
    requires BasicOf(me, you, next) && Enabled(me, you, a)
    ensures GoodRatchet(Move(me, lower, next, a), if a.Arm? || a.Reply? then next + 1 else next)
  {
    OlderGrows(me.peer.root, next, next + 1);
    if a.Apply? {
      assert a.t.key in you.answers;
      RetireIsAncestors(me.peer, Step(me.peer.root, a.t.x, a.t.key.xr));
    }
    if a.Install? && CanActivate(me.peer, Depth(a.k)) {
      assert me.peer.prepared.value.key in me.answers;
      RetireIsAncestors(me.peer, me.peer.prepared.value.key);
    }
  }

  lemma MoveKeepsAnswers(me: End, you: End, lower: bool, next: nat, a: Action)
    requires BasicOf(me, you, next) && Enabled(me, you, a)
    ensures GoodAnswers(Move(me, lower, next, a), if a.Arm? || a.Reply? then next + 1 else next)
  {
    RootAdvances(me, you, lower, next, a);
  }

  lemma MoveKeepsTasks(me: End, you: End, lower: bool, next: nat, a: Action)
    requires BasicOf(me, you, next) && Enabled(me, you, a)
    ensures GoodTasks(Move(me, lower, next, a), you) && GoodTasks(you, Move(me, lower, next, a))
  {
    RootAdvances(me, you, lower, next, a);
    if a.Check? { assert a.t.key in you.answers; }
  }

  /** Every access of either end keeps the bookkeeping, whatever else is under way. */
  lemma MoveKeepsBasic(me: End, you: End, lower: bool, next: nat, a: Action)
    requires BasicOf(me, you, next) && Enabled(me, you, a)
    ensures BasicOf(Move(me, lower, next, a), you, if a.Arm? || a.Reply? then next + 1 else next)
  {
    MoveKeepsRatchet(me, you, lower, next, a);
    MoveKeepsAnswers(me, you, lower, next, a);
    MoveKeepsTasks(me, you, lower, next, a);
    OlderGrows(you.peer.root, next, next + 1);
  }

  lemma NextKeepsBasic(w: Link, e: Event)
    requires Basic(w)
    ensures Basic(Next(w, e))
  {
    var me, you := w.At(e.s), w.At(e.s.Other());
    if Enabled(me, you, e.a) { MoveKeepsBasic(me, you, e.s.Lo?, w.next, e.a); }
  }

  lemma {:induction false} RunKeepsBasic(w: Link, events: seq<Event>)
    requires Basic(w)
    ensures Basic(Run(w, events))
    decreases |events|
  {
    if events != [] {
      NextKeepsBasic(w, events[0]);
      RunKeepsBasic(Next(w, events[0]), events[1..]);
    }
  }

  /** The root keys one end has ever installed. */
  ghost function Installed(w: Link, s: Side): set<Key> {
    History(w.At(s).peer.root)
  }

  /** A run only ever adds to what an end installed, and never lowers its epoch. */
  lemma {:induction false} EpochsOnlyGrow(w: Link, events: seq<Event>, s: Side)
    requires Basic(w)
    ensures Run(w, events).At(s).peer.epoch >= w.At(s).peer.epoch
    ensures Installed(w, s) <= Installed(Run(w, events), s)
    decreases |events|
  {
    if events != [] {
      var e := events[0];
      var v := Next(w, e);
      NextKeepsBasic(w, e);
      var me, you := w.At(e.s), w.At(e.s.Other());
      if Enabled(me, you, e.a) { RootAdvances(me, you, e.s.Lo?, w.next, e.a); }
      HistoryDepth(v.At(s).peer.root, w.At(s).peer.root);
      EpochsOnlyGrow(v, events[1..], s);
    }
  }

  // ---- Agreement ----

  /** Neither end is more than one step on, and the one that is on holds a key the other derived too. */
  ghost predicate AgreeOf(me: End, you: End) {
    && Comparable(me.peer.root, you.peer.root)
    && (Ahead(me.peer.root, you.peer.root) ==> me.peer.root in you.answers)
    && (Ahead(you.peer.root, me.peer.root) ==> you.peer.root in me.answers)
  }

  ghost predicate Agree(w: Link) {
    AgreeOf(w.lo, w.hi)
  }

  /** A finish that the preview still accepts, now or once the prepared epoch is installed. */
  ghost predicate Hot(me: End, t: Task) {
    && t in me.tasks && Fits(t)
    && (t.key.prev == me.peer.root
        || (me.peer.prepared.Some? && me.peer.prepared.value.key == t.key.prev))
  }

  ghost predicate Finishing(me: End) {
    exists t :: Hot(me, t)
  }

  /** The flag stands for the step in flight. */
  ghost predicate Flagged(me: End) {
    me.peer.flight.Some? ==> me.peer.busy
  }

  /** The other end's step in flight was admitted here. */
  ghost predicate Engaged(me: End, you: End) {
    you.peer.flight.Some? && you.peer.flight.value in me.admitted
  }

  /** Of two crossed steps, in flight or being finished, at most one can still be confirmed. */
  ghost predicate OneYields(me: End, you: End) {
    && !(Engaged(me, you) && Engaged(you, me))
    && !(Finishing(me) && Engaged(me, you))
    && !(Finishing(you) && Engaged(you, me))
    && !(Finishing(me) && Finishing(you))
  }

  /** If `you` is one step ahead, it has confirmed nothing that `me` is waiting for or finishing. */
  ghost predicate Overtaken(me: End, you: End) {
    Ahead(you.peer.root, me.peer.root) ==>
      && (me.peer.flight.Some? ==>
            forall a :: a in you.answers && Ahead(a, me.peer.root) ==> a.xi != me.peer.flight.value)
      && (forall t :: t in me.tasks && Fits(t) ==> !Ahead(t.key, me.peer.root))
  }

  ghost predicate InvOf(me: End, you: End, next: nat) {
    && BasicOf(me, you, next)
    && AgreeOf(me, you)
    && Flagged(me) && Flagged(you)
    && OneYields(me, you)
    && Overtaken(me, you) && Overtaken(you, me)
  }

  ghost predicate Inv(w: Link) {
    InvOf(w.lo, w.hi, w.next)
  }

  /**
   What an access would have to look at again for the link to stay in agreement: that the flag still
   stands for the step it belongs to, that the admitted step does not cross one being finished, that
   the root is still the one that was previewed, and that the prepared key is the one that opened.
   */
  ghost predicate GuardedAt(me: End, you: End, a: Action) {
    match a
    case Arm => me.peer.busy
    case Clear => me.peer.flight.None?
    case Admit(xi) => me.peer.busy || !Crosses(me, you, xi)
    case Yield(xi) => !Crosses(me, you, xi)
    case Apply(t) => Confirmed(me, t) && me.peer.flight.None?
    case Install(k) => StillPrepared(me, k)
    case _ => true
  }

  ghost predicate Crosses(me: End, you: End, xi: nat) {
    Finishing(me) && you.peer.flight == Some(xi)
  }

  ghost predicate Confirmed(me: End, t: Task) {
    t.key.Step? && t.key == Step(me.peer.root, t.x, t.key.xr)
  }

  ghost predicate StillPrepared(me: End, k: Key) {
    CanActivate(me.peer, Depth(k)) ==> me.peer.prepared.value.key == k
  }

  ghost predicate Guarded(w: Link, e: Event) {
    Enabled(w.At(e.s), w.At(e.s.Other()), e.a) ==> GuardedAt(w.At(e.s), w.At(e.s.Other()), e.a)
  }

  ghost predicate GuardedRun(w: Link, events: seq<Event>)
    decreases |events|
  {
    events == [] || (Guarded(w, events[0]) && GuardedRun(Next(w, events[0]), events[1..]))
  }

  // ---- Guarded accesses keep the link in agreement ----

  /** A confirmed finish only ever moves an end that is level with the other one. */
  lemma FinishIsLevel(me: End, you: End, next: nat, t: Task)
    requires InvOf(me, you, next) && t in me.tasks && Fits(t) && Confirmed(me, t)
    ensures me.peer.root == you.peer.root && Finishing(me)
  {
    assert t.key in you.answers;
    HistoryDepth(you.peer.root, me.peer.root);
    assert Hot(me, t);
  }

  /** Activating the key that opened a frame only ever brings an end one step behind level with the other. */
  lemma InstallIsCatchUp(me: End, you: End, next: nat, k: Key)
    requires BasicOf(me, you, next) && AgreeOf(me, you) && k in me.frames && CanActivate(me.peer, Depth(k))
    ensures k == you.peer.root && Depth(k) == me.peer.epoch + 1
  {
    HistoryDepth(you.peer.root, k);
  }

  lemma ApplyKeeps(me: End, you: End, lower: bool, next: nat, t: Task)
    requires InvOf(me, you, next) && Enabled(me, you, Apply(t)) && GuardedAt(me, you, Apply(t))
    ensures InvOf(Move(me, lower, next, Apply(t)), you, next)
  {
    FinishIsLevel(me, you, next, t);
    MoveKeepsBasic(me, you, lower, next, Apply(t));
    var v := Move(me, lower, next, Apply(t));
    assert t.key in you.answers && v.peer.root == t.key;
    NothingHotBeyond(me, you, next, t.key);
    assert forall u :: u in v.tasks ==> u in me.tasks && u.key in you.answers;
    assert !Finishing(v) && !Finishing(you);
    assert forall u :: u in you.tasks && Fits(u) && Ahead(u.key, you.peer.root) ==> Hot(you, u);
  }

  /** No answer names a parent that its sender has not reached. */
  lemma NothingHotBeyond(me: End, you: End, next: nat, k: Key)
    requires BasicOf(me, you, next) && Ahead(k, you.peer.root)
    ensures forall a :: a in you.answers ==> a.prev != k
  {
    forall a | a in you.answers ensures a.prev != k {
      HistoryDepth(you.peer.root, a.prev);
    }
  }

  lemma InstallKeeps(me: End, you: End, lower: bool, next: nat, k: Key)
    requires InvOf(me, you, next) && Enabled(me, you, Install(k)) && GuardedAt(me, you, Install(k))
    ensures InvOf(Move(me, lower, next, Install(k)), you, next)
  {
    MoveKeepsBasic(me, you, lower, next, Install(k));
    if CanActivate(me.peer, Depth(k)) {
      InstallIsCatchUp(me, you, next, k);
      var v := Move(me, lower, next, Install(k));
      assert Finishing(v) ==> Finishing(me) by {
        if u :| Hot(v, u) { assert Hot(me, u); }
      }
    }
  }

  /** The tie-break: an admission leaves nothing of our own in flight. */
  lemma AdmitKeeps(me: End, you: End, lower: bool, next: nat, a: Action)
    requires InvOf(me, you, next) && (a.Admit? || a.Yield?) && Enabled(me, you, a) && GuardedAt(me, you, a)
    ensures InvOf(Move(me, lower, next, a), you, next)
  {
    MoveKeepsBasic(me, you, lower, next, a);
    var v := Move(me, lower, next, a);
    SameHot(me, v);
  }

  lemma SameHot(me: End, v: End)
    requires v.tasks <= me.tasks && v.peer.root == me.peer.root && v.peer.prepared == me.peer.prepared
    ensures Finishing(v) ==> Finishing(me)
  {
    if u :| Hot(v, u) { assert Hot(me, u); }
  }

  lemma ReplyKeeps(me: End, you: End, lower: bool, next: nat, xi: nat)
    requires InvOf(me, you, next) && Enabled(me, you, Reply(xi))
    ensures InvOf(Move(me, lower, next, Reply(xi)), you, next + 1)
  {
    MoveKeepsBasic(me, you, lower, next, Reply(xi));
    var v := Move(me, lower, next, Reply(xi));
    assert Finishing(v) ==> Finishing(me) by {
      if u :| Hot(v, u) {
        assert u.key in you.answers;
        OlderHistory(you.peer.root, u.key.prev, next);
        assert Hot(me, u);
      }
    }
  }

  /** Taking a step out of its slot makes it one being finished; it could be confirmed only if it was engaged. */
  lemma TakeKeeps(me: End, you: End, lower: bool, next: nat, a: Action)
    requires InvOf(me, you, next) && a.Take? && Enabled(me, you, a)
    ensures InvOf(Move(me, lower, next, a), you, next)
  {
    MoveKeepsBasic(me, you, lower, next, a);
    var v := Move(me, lower, next, a);
    if Finishing(v) {
      var u :| Hot(v, u);
      assert u.key in you.answers;
      assert Finishing(me) || Engaged(you, me) by {
        if u in me.tasks { assert Hot(me, u); }
      }
    }
  }

  lemma CheckKeeps(me: End, you: End, lower: bool, next: nat, t: Task)
    requires InvOf(me, you, next) && Enabled(me, you, Check(t))
    ensures InvOf(Move(me, lower, next, Check(t)), you, next)
  {
    MoveKeepsBasic(me, you, lower, next, Check(t));
    var v := Move(me, lower, next, Check(t));
    CheckedHot(me, t, v);
    assert forall u :: u in v.tasks && Fits(u) ==> u in me.tasks || (u.key == t.key && Fits(t));
  }

  lemma CheckedHot(me: End, t: Task, v: End)
    requires t in me.tasks && v.tasks <= me.tasks + {t.(checked := true)} && v.peer == me.peer
    ensures Finishing(v) ==> Finishing(me)
  {
    if u :| Hot(v, u) { assert Hot(me, u) || Hot(me, t); }
  }

  /** Starting, abandoning and opening touch neither root nor any finish. */
  lemma SlotKeeps(me: End, you: End, lower: bool, next: nat, a: Action)
    requires InvOf(me, you, next) && Enabled(me, you, a) && GuardedAt(me, you, a)
    requires a.Claim? || a.Arm? || a.Drop? || a.Clear? || a.Forget? || a.Open?
    ensures InvOf(Move(me, lower, next, a), you, if a.Arm? then next + 1 else next)
  {
    MoveKeepsBasic(me, you, lower, next, a);
    SameHot(me, Move(me, lower, next, a));
  }

  lemma MoveKeeps(me: End, you: End, lower: bool, next: nat, a: Action)
    requires InvOf(me, you, next) && Enabled(me, you, a) && GuardedAt(me, you, a)
    ensures InvOf(Move(me, lower, next, a), you, if a.Arm? || a.Reply? then next + 1 else next)
  {
    match a {
      case Admit(_) => AdmitKeeps(me, you, lower, next, a);
      case Yield(_) => AdmitKeeps(me, you, lower, next, a);
      case Reply(xi) => ReplyKeeps(me, you, lower, next, xi);
      case Take(_, _, _) => TakeKeeps(me, you, lower, next, a);
      case Check(t) => CheckKeeps(me, you, lower, next, t);
      case Apply(t) => ApplyKeeps(me, you, lower, next, t);
      case Install(k) => InstallKeeps(me, you, lower, next, k);
      case _ => SlotKeeps(me, you, lower, next, a);
    }
  }

  lemma InvIsSymmetric(me: End, you: End, next: nat)
    ensures InvOf(me, you, next) <==> InvOf(you, me, next)
  {
  }

  /** Every guarded access of either end, under any delivery, keeps the invariant. */
  lemma NextKeeps(w: Link, e: Event)
    requires Inv(w) && Guarded(w, e)
    ensures Inv(Next(w, e))
  {
    var me, you, v := w.At(e.s), w.At(e.s.Other()), Next(w, e);
    if Enabled(me, you, e.a) {
      InvIsSymmetric(me, you, w.next);
      MoveKeeps(me, you, e.s.Lo?, w.next, e.a);
      InvIsSymmetric(v.At(e.s), you, v.next);
    }
  }

  lemma {:induction false} RunKeeps(w: Link, events: seq<Event>)
    requires Inv(w) && GuardedRun(w, events)
    ensures Inv(Run(w, events))
    decreases |events|
  {
    if events != [] {
      NextKeeps(w, events[0]);
      RunKeeps(Next(w, events[0]), events[1..]);
    }
  }

  // ---- Safety over whole runs ----

  lemma {:induction false} SameHistoryByDepth(k: Key, a: Key, b: Key)
    requires a in History(k) && b in History(k) && Depth(a) == Depth(b)
    ensures a == b
  {
    if a != k && b != k {
      SameHistoryByDepth(k.prev, a, b);
    } else {
      HistoryDepth(k, if a == k then b else a);
    }
  }

  /** In every guarded run the installed keys of both ends lie on one chain. */
  lemma OneKeyPerEpoch(events: seq<Event>, s: Side, t: Side, a: Key, b: Key)
    requires GuardedRun(FRESH_LINK, events)
    requires a in Installed(Run(FRESH_LINK, events), s) && b in Installed(Run(FRESH_LINK, events), t)
    requires Depth(a) == Depth(b)
    ensures a == b
  {
    RunKeeps(FRESH_LINK, events);
    var w := Run(FRESH_LINK, events);
    var lo, hi := w.lo.peer.root, w.hi.peer.root;
    var ahead := if Ahead(lo, hi) then lo else hi;
    assert History(lo) <= History(ahead) && History(hi) <= History(ahead);
    SameHistoryByDepth(ahead, a, b);
  }

  /** Epochs of the two ends never differ by more than one; at equal epochs the keys are equal. */
  lemma EpochsAgree(events: seq<Event>)
    requires GuardedRun(FRESH_LINK, events)
    ensures var w := Run(FRESH_LINK, events);
      && Agree(w)
      && -1 <= w.lo.peer.epoch - w.hi.peer.epoch <= 1
      && (w.lo.peer.epoch == w.hi.peer.epoch <==> w.lo.peer.root == w.hi.peer.root)
  {
    RunKeeps(FRESH_LINK, events);
  }

  /** Two steps started by different ends from one root are never both installed, by anyone. */
  lemma CrossedStepsNeverBothComplete(
    events: seq<Event>, from: Key, x: nat, y: nat, xr: nat, yr: nat, s: Side, t: Side)
    requires GuardedRun(FRESH_LINK, events)
    requires var w := Run(FRESH_LINK, events); x in w.lo.steps && y in w.hi.steps
    ensures var w := Run(FRESH_LINK, events);
      !(Step(from, x, xr) in Installed(w, s) && Step(from, y, yr) in Installed(w, t))
  {
    var w := Run(FRESH_LINK, events);
    RunKeeps(FRESH_LINK, events);
    if Step(from, x, xr) in Installed(w, s) && Step(from, y, yr) in Installed(w, t) {
      OneKeyPerEpoch(events, s, t, Step(from, x, xr), Step(from, y, yr));
    }
  }
}
