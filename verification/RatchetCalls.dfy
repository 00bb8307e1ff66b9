/** Each call on a session is its accesses, made one after the other. */
module RatchetCalls {
  import opened Common
  import opened Ratchet
  import opened RatchetLink

  /** The accesses in this order, each of them possible when its turn comes. */
  ghost predicate Makes(me: End, you: End, lower: bool, next: nat, actions: seq<Action>, after: End)
    decreases |actions|
  {
    if actions == [] then after == me
    else
      && Enabled(me, you, actions[0])
      && Makes(Move(me, lower, next, actions[0]), you, lower, next, actions[1..], after)
  }

  lemma MakesNone(me: End, you: End, lower: bool, next: nat)
    ensures Makes(me, you, lower, next, [], me)
  {
  }

  lemma MakesMore(me: End, you: End, lower: bool, next: nat, a: Action, rest: seq<Action>, after: End)
    requires Enabled(me, you, a) && Makes(Move(me, lower, next, a), you, lower, next, rest, after)
    ensures Makes(me, you, lower, next, [a] + rest, after)
  {
    assert ([a] + rest)[1..] == rest;
  }

  lemma MakesOne(me: End, you: End, lower: bool, next: nat, a: Action)
    requires Enabled(me, you, a)
    ensures Makes(me, you, lower, next, [a], Move(me, lower, next, a))
  {
    MakesNone(Move(me, lower, next, a), you, lower, next);
    MakesMore(me, you, lower, next, a, [], Move(me, lower, next, a));
    assert [a] + [] == [a];
  }

  lemma MakesTwo(me: End, you: End, lower: bool, next: nat, a: Action, b: Action)
    requires Enabled(me, you, a) && Enabled(Move(me, lower, next, a), you, b)
    ensures Makes(me, you, lower, next, [a, b], Move(Move(me, lower, next, a), lower, next, b))
  {
    var v := Move(me, lower, next, a);
    MakesOne(v, you, lower, next, b);
    MakesMore(me, you, lower, next, a, [b], Move(v, lower, next, b));
    assert [a] + [b] == [a, b];
  }

  lemma MakesThree(
    me: End, you: End, lower: bool, next: nat, a: Action, b: Action, c: Action, v1: End, v2: End, v3: End)
    requires Enabled(me, you, a) && v1 == Move(me, lower, next, a)
    requires Enabled(v1, you, b) && v2 == Move(v1, lower, next, b)
    requires Enabled(v2, you, c) && v3 == Move(v2, lower, next, c)
    ensures Makes(me, you, lower, next, [a, b, c], v3)
  {
    MakesTwo(v1, you, lower, next, b, c);
    MakesMore(me, you, lower, next, a, [b, c], v3);
    assert [a] + [b, c] == [a, b, c];
  }

  /** Starting is setting the flag and storing the step; with the flag set there is nothing to do. */
  lemma BeginIsAccesses(me: End, you: End, lower: bool, next: nat) returns (v: End)
    ensures !me.peer.busy <==> Enabled(me, you, Claim)
    ensures !me.peer.busy ==> Makes(me, you, lower, next, [Claim, Arm], v)
    ensures !me.peer.busy ==> v.peer == ArmStep(me.peer, next).(busy := true) && v.steps == me.steps + {next}
  {
    v := me;
    if !me.peer.busy {
      MakesTwo(me, you, lower, next, Claim, Arm);
      v := Move(Move(me, lower, next, Claim), lower, next, Arm);
    }
  }

  /** Abandoning is emptying the slot and resetting the flag. */
  lemma AbandonIsAccesses(me: End, you: End, lower: bool, next: nat) returns (v: End)
    ensures Makes(me, you, lower, next, [Drop, Clear], v) && v == me.(peer := AbandonStep(me.peer))
  {
    MakesTwo(me, you, lower, next, Drop, Clear);
    v := Move(Move(me, lower, next, Drop), lower, next, Clear);
  }

  /** Admitting is reading the flag and, if it is set and the tie-break is lost, yielding. */
  lemma AdmitIsAccesses(me: End, you: End, lower: bool, next: nat, xi: nat) returns (v: End)
    requires xi in you.steps
    ensures Makes(me, you, lower, next,
                  if me.peer.busy && !lower then [Admit(xi), Yield(xi), Clear] else [Admit(xi)], v)
    ensures v.peer == AdmitStep(me.peer, lower) && v.clears == me.clears && v.tasks == me.tasks
    ensures v.admitted == me.admitted + (if Admits(me.peer, lower) then {xi} else {})
  {
    if me.peer.busy && !lower {
      var v1 := Move(me, lower, next, Admit(xi));
      assert v1 == me.(yielding := me.yielding + {xi});
      var v2 := Move(v1, lower, next, Yield(xi));
      v := Move(v2, lower, next, Clear);
      MakesThree(me, you, lower, next, Admit(xi), Yield(xi), Clear, v1, v2, v);
    } else {
      MakesOne(me, you, lower, next, Admit(xi));
      v := Move(me, lower, next, Admit(xi));
    }
  }

  /** Answering is one access, and what is sent is what is prepared. */
  lemma AnswerIsAccess(me: End, you: End, lower: bool, next: nat, xi: nat)
    requires xi in me.admitted
    ensures var v := Move(me, lower, next, Reply(xi));
      && Makes(me, you, lower, next, [Reply(xi)], v)
      && v.peer == AnswerStep(me.peer, xi, next) && v.peer.prepared.Some?
      && v.answers == me.answers + {v.peer.prepared.value.key}
  {
    MakesOne(me, you, lower, next, Reply(xi));
  }

  /** The accesses of finishing, by what comes of it. */
  ghost function FinishAccesses(p: Peer, k: Key, epoch: nat, readable: bool): seq<Action> {
    var take := Take(k, epoch, readable);
    if p.flight.None? || !readable || !k.Step? then [take] else
    var t := Task(p.flight.value, k, epoch, false);
    if Confirms(p, t.x, k.xr, k, epoch) then [take, Check(t), Apply(t.(checked := true)), Forget]
    else [take, Check(t), Clear]
  }

  /** Finishing is taking the step, previewing, and applying and emptying the slot or resetting the flag. */
  lemma FinishIsAccesses(me: End, you: End, lower: bool, next: nat, k: Key, epoch: nat, readable: bool)
    returns (v: End)
    requires k in you.answers && k.Step? && me.tasks == {}
    ensures Makes(me, you, lower, next, FinishAccesses(me.peer, k, epoch, readable), v)
    ensures v == me.(peer := FinishStep(me.peer, k.xr, k, epoch, readable))
  {
    var take := Take(k, epoch, readable);
    if me.peer.flight.None? || !readable {
      MakesOne(me, you, lower, next, take);
      v := Move(me, lower, next, take);
    } else {
      var t := Task(me.peer.flight.value, k, epoch, false);
      var v1 := Move(me, lower, next, take);
      assert v1 == me.(peer := DropStep(me.peer), tasks := {t});
      if Confirms(me.peer, t.x, k.xr, k, epoch) {
        v := ConfirmedIsAccesses(me, v1, you, lower, next, t, take);
      } else {
        var v2 := Move(v1, lower, next, Check(t));
        assert v2 == me.(peer := DropStep(me.peer), clears := me.clears + 1);
        v := Move(v2, lower, next, Clear);
        MakesThree(me, you, lower, next, take, Check(t), Clear, v1, v2, v);
      }
    }
  }

  lemma ConfirmedIsAccesses(
    me: End, v1: End, you: End, lower: bool, next: nat, t: Task, take: Action) returns (v: End)
    requires Enabled(me, you, take) && v1 == Move(me, lower, next, take) && me.tasks == {} && t.key.Step? && !t.checked
    requires v1 == me.(peer := DropStep(me.peer), tasks := {t}) && Confirms(me.peer, t.x, t.key.xr, t.key, t.epoch)
    ensures Makes(me, you, lower, next, [take, Check(t), Apply(t.(checked := true)), Forget], v)
    ensures v == me.(peer := DropStep(ApplyStep(me.peer, t.x, t.key.xr)))
  {
    var u := t.(checked := true);
    var v2 := Move(v1, lower, next, Check(t));
    assert v2 == v1.(tasks := {u});
    var v3 := Move(v2, lower, next, Apply(u));
    assert v3 == v1.(tasks := {}, peer := ApplyStep(v1.peer, t.x, t.key.xr), forgets := me.forgets + 1);
    v := Move(v3, lower, next, Forget);
    MakesThree(v1, you, lower, next, Check(t), Apply(u), Forget, v2, v3, v);
    MakesMore(me, you, lower, next, take, [Check(t), Apply(u), Forget], v);
    assert [take] + [Check(t), Apply(u), Forget] == [take, Check(t), Apply(u), Forget];
  }

  /** Activating is one access. */
  lemma ActivateIsAccess(me: End, you: End, lower: bool, next: nat, k: Key)
    requires k in me.frames
    ensures var v := Move(me, lower, next, Install(k));
      Makes(me, you, lower, next, [Install(k)], v) && v == me.(peer := Activate(me.peer, Depth(k)))
  {
    MakesOne(me, you, lower, next, Install(k));
  }
}
