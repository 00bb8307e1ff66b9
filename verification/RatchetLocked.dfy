/**
 What one lock per session would give.  Each end holds its own lock for the whole of a call, so the
 accesses of its calls do not overlap; the two ends are different machines and interleave freely.
 A frame's key is installed in the call that opened it.
 */
module RatchetLocked {
  import opened Common
  import opened Ratchet
  import opened RatchetLink

  /** Which access the call that holds the lock has to make next. */
  datatype Mode =
    | Free                    // no call: any call may begin
    | Arming                  // starting: the flag was set
    | Yielding(xi: nat)       // admitting: the flag was set and the tie-break is lost
    | Clearing                // abandoning, yielding, or finishing without success: the flag is left to reset
    | Checking(t: Task)       // finishing: the step was taken
    | Applying(t: Task)       // finishing: the preview agreed
    | Forgetting              // finishing: the root has moved
    | Installing(k: Key)      // a frame was opened

  /** The accesses with which a call begins, and the one that continues it. */
  ghost predicate Permitted(mode: Mode, a: Action) {
    match mode
    case Free => a.Claim? || a.Drop? || a.Admit? || a.Reply? || a.Take? || a.Open?
    case Arming => a.Arm?
    case Yielding(xi) => a == Yield(xi)
    case Clearing => a.Clear?
    case Checking(t) => a == Check(t)
    case Applying(t) => a == Apply(t)
    case Forgetting => a.Forget?
    case Installing(k) => a == Install(k)
  }

  /** What is left of the call after this access, made in this state. */
  ghost function After(me: End, you: End, lower: bool, a: Action): Mode {
    if !Enabled(me, you, a) then Free else
    match a
    case Claim => Arming
    case Drop => Clearing
    case Admit(xi) => if me.peer.busy && !lower then Yielding(xi) else Free
    case Yield(_) => Clearing
    case Take(k, epoch, readable) =>
      if me.peer.flight.None? || !readable then Free else Checking(Task(me.peer.flight.value, k, epoch, false))
    case Check(t) =>
      if Confirms(me.peer, t.x, t.key.xr, t.key, t.epoch) then Applying(t.(checked := true)) else Clearing
    case Apply(_) => Forgetting
    case Open(k) => Installing(k)
    case _ => Free
  }

  /** A link and the calls under way at its ends. */
  datatype Locked = Locked(w: Link, lo: Mode, hi: Mode) {
    ghost function At(s: Side): Mode { if s.Lo? then lo else hi }
  }

  const FRESH_LOCKED := Locked(FRESH_LINK, Free, Free)

  ghost function Proceed(l: Locked, e: Event): Locked {
    var mode := After(l.w.At(e.s), l.w.At(e.s.Other()), e.s.Lo?, e.a);
    if e.s.Lo? then Locked(Next(l.w, e), mode, l.hi) else Locked(Next(l.w, e), l.lo, mode)
  }

  /** At each end, the accesses of one call after the other; between the ends, any interleaving. */
  ghost predicate LockedRun(l: Locked, events: seq<Event>)
    decreases |events|
  {
    events == [] || (Permitted(l.At(events[0].s), events[0].a) && LockedRun(Proceed(l, events[0]), events[1..]))
  }

  // ---- Every access of a locked run is guarded ----

  /** What the lock keeps true of an end in the middle of a call. */
  ghost predicate Held(me: End, mode: Mode) {
    && me.claims == (if mode.Arming? then 1 else 0)
    && me.clears == (if mode.Clearing? then 1 else 0)
    && me.forgets == (if mode.Forgetting? then 1 else 0)
    && me.tasks == (if mode.Checking? || mode.Applying? then {mode.t} else {})
    && Flagged(me)
    && match mode
       case Arming => me.peer.busy
       case Yielding(xi) => xi in me.yielding
       case Clearing => me.peer.flight.None?
       case Checking(t) => me.peer.flight.None? && t.key.Step? && !t.checked
       case Applying(t) => me.peer.flight.None? && t.checked && Confirmed(me, t)
       case Installing(k) => k in me.frames && StillPrepared(me, k)
       case _ => true
  }

  lemma PermittedIsGuarded(me: End, you: End, mode: Mode, a: Action)
    requires Held(me, mode) && Permitted(mode, a)
    ensures GuardedAt(me, you, a)
  {
    if a.Admit? || a.Yield? { assert !Finishing(me); }
  }

  lemma AccessKeepsHeld(me: End, you: End, lower: bool, next: nat, mode: Mode, a: Action)
    requires GoodAnswers(you, next) && Held(me, mode) && Permitted(mode, a) && Enabled(me, you, a)
    ensures Held(Move(me, lower, next, a), After(me, you, lower, a))
  {
    if a.Take? { assert a.k.Step?; }
  }

  /** In the middle of a call the next access is always possible, so nothing is skipped. */
  lemma NeverBlocked(me: End, you: End, mode: Mode, a: Action)
    requires Held(me, mode) && Permitted(mode, a) && !mode.Free?
    ensures Enabled(me, you, a)
  {
  }

  ghost predicate BothHeld(l: Locked) {
    Basic(l.w) && Held(l.w.lo, l.lo) && Held(l.w.hi, l.hi)
  }

  lemma ProceedKeepsHeld(l: Locked, e: Event)
    requires BothHeld(l) && Permitted(l.At(e.s), e.a)
    ensures Guarded(l.w, e) && BothHeld(Proceed(l, e))
  {
    var me, you, mode := l.w.At(e.s), l.w.At(e.s.Other()), l.At(e.s);
    NextKeepsBasic(l.w, e);
    PermittedIsGuarded(me, you, mode, e.a);
    if Enabled(me, you, e.a) {
      AccessKeepsHeld(me, you, e.s.Lo?, l.w.next, mode, e.a);
    } else if !mode.Free? {
      NeverBlocked(me, you, mode, e.a);
    }
  }

  lemma {:induction false} LockedIsGuardedFrom(l: Locked, events: seq<Event>)
    requires BothHeld(l) && LockedRun(l, events)
    ensures GuardedRun(l.w, events)
    decreases |events|
  {
    if events != [] {
      ProceedKeepsHeld(l, events[0]);
      LockedIsGuardedFrom(Proceed(l, events[0]), events[1..]);
    }
  }

  /** However the two ends interleave, every access of a locked run is guarded. */
  lemma LockedIsGuarded(events: seq<Event>)
    requires LockedRun(FRESH_LOCKED, events)
    ensures GuardedRun(FRESH_LINK, events)
  {
    LockedIsGuardedFrom(FRESH_LOCKED, events);
  }

  /**
   Under one lock per session, whatever is lost, duplicated, delayed, abandoned and retried: the ends
   are never more than one epoch apart, at one epoch they hold one key, and they never installed two
   keys for one generation.
   */
  lemma LockedRunsAgree(events: seq<Event>, s: Side, t: Side, a: Key, b: Key)
    requires LockedRun(FRESH_LOCKED, events)
    ensures var w := Run(FRESH_LINK, events);
      && Agree(w)
      && -1 <= w.lo.peer.epoch - w.hi.peer.epoch <= 1
      && (w.lo.peer.epoch == w.hi.peer.epoch <==> w.lo.peer.root == w.hi.peer.root)
      && (a in Installed(w, s) && b in Installed(w, t) && Depth(a) == Depth(b) ==> a == b)
  {
    LockedIsGuarded(events);
    EpochsAgree(events);
    var w := Run(FRESH_LINK, events);
    if a in Installed(w, s) && b in Installed(w, t) && Depth(a) == Depth(b) {
      OneKeyPerEpoch(events, s, t, a, b);
    }
  }
}
