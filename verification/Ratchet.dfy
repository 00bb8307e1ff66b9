/**
 The hybrid ratchet of one session, as the two peers of a link run it.

 Keys are free terms: `Step(prev, xi, xr)` is the root key that mixing the ephemeral
 material `xi` of the peer that started the step and `xr` of the peer that answered it
 into `prev` gives.  A confirmation tag is identified with the key it is computed from,
 so two tags agree exactly when the two keys do.
 */
module Ratchet {
  import opened Common

  datatype Key = Root | Step(prev: Key, xi: nat, xr: nat)

  /** The ratchet generation a root key belongs to. */
  ghost function Depth(k: Key): (d: nat) {
    if k.Root? then 0 else 1 + Depth(k.prev)
  }

  /** Every root key a peer whose current root is `k` has ever sealed under. */
  ghost function History(k: Key): (h: set<Key>)
    ensures k in h
  {
    if k.Root? then {k} else {k} + History(k.prev)
  }

  lemma {:induction false} HistoryDepth(k: Key, h: Key)
    requires h in History(k)
    ensures Depth(h) <= Depth(k)
    ensures Depth(h) == Depth(k) ==> h == k
    ensures History(h) <= History(k)
  {
    if h != k { HistoryDepth(k.prev, h); }
  }

  /** A step that was derived but not installed. */
  datatype Prepared = Prepared(epoch: nat, key: Key)

  /** The part of a session that the ratchet handlers read and write. */
  datatype Peer = Peer(
    root: Key,
    epoch: nat,
    retired: seq<Key>,
    prepared: Option<Prepared>,
    flight: Option<nat>,   // ephemeral material of the step we started, until it is consumed
    busy: bool             // `ratchet_in_progress`
  )

  const RETAINED_EPOCHS := 2

  const FRESH_PEER := Peer(Root, 0, [], None, None, false)

  // ---- The accesses to shared state that the session's methods are made of ----

  /** Storing fresh material as the step in flight. */
  function ArmStep(p: Peer, x: nat): Peer { p.(flight := Some(x)) }

  function DropStep(p: Peer): Peer { p.(flight := None) }

  function ClearBusy(p: Peer): Peer { p.(busy := false) }

  /** Whether an arriving step is answered; `lower`: our fingerprint sorts below the peer's. */
  predicate Admits(p: Peer, lower: bool) {
    !p.busy || !lower
  }

  /** Answering prepares the next epoch over fresh material `xr` and installs nothing. */
  function AnswerStep(p: Peer, xi: nat, xr: nat): Peer {
    p.(prepared := Some(Prepared(p.epoch + 1, Step(p.root, xi, xr))))
  }

  function Retire(p: Peer): (r: seq<Key>)
    ensures |r| <= RETAINED_EPOCHS
  {
    var r := [p.root] + p.retired;
    if |r| > RETAINED_EPOCHS then r[..RETAINED_EPOCHS] else r
  }

  /** The roots a peer had before `k`, newest first, and no more than `n` of them. */
  ghost function Ancestors(k: Key, n: nat): (r: seq<Key>)
    decreases n
  {
    if n == 0 || k.Root? then [] else [k.prev] + Ancestors(k.prev, n - 1)
  }

  /** Retiring the root keeps exactly the last two roots before the next one. */
  lemma RetireIsAncestors(p: Peer, k: Key)
    requires p.retired == Ancestors(p.root, 2) && k.Step? && k.prev == p.root
    ensures Retire(p) == Ancestors(k, 2)
  {
    var older := Ancestors(p.root, 1);
    assert Ancestors(k, 2) == [p.root] + older;
    if p.root.Step? {
      assert p.retired[..1] == older by { assert Ancestors(p.root, 2) == [p.root.prev] + Ancestors(p.root.prev, 1); }
    }
  }

  /** The preview: the answer names the next epoch and its tag is that of the key the step would give. */
  predicate Confirms(p: Peer, x: nat, xr: nat, confirm: Key, epoch: nat) {
    epoch == p.epoch + 1 && confirm == Step(p.root, x, xr)
  }

  /** Applying mixes the step into whatever root is there, and is not told what the preview saw. */
  function ApplyStep(p: Peer, x: nat, xr: nat): Peer {
    Peer(Step(p.root, x, xr), p.epoch + 1, Retire(p), None, p.flight, false)
  }

  predicate CanActivate(p: Peer, epoch: nat) {
    p.prepared.Some? && p.prepared.value.epoch == epoch
  }

  function Activate(p: Peer, epoch: nat): Peer {
    if CanActivate(p, epoch)
    then p.(root := p.prepared.value.key, epoch := p.prepared.value.epoch, retired := Retire(p), prepared := None)
    else p
  }

  // ---- The session's methods when nothing comes between their accesses ----

  function AbandonStep(p: Peer): Peer { ClearBusy(DropStep(p)) }

  function AdmitStep(p: Peer, lower: bool): Peer {
    if p.busy && !lower then AbandonStep(p) else p
  }

  /** Finishing consumes the step whatever the outcome and installs it only when confirmed. */
  function FinishStep(p: Peer, xr: nat, confirm: Key, epoch: nat, readable: bool): Peer {
    if p.flight.None? then p
    else if !readable then DropStep(p)
    else if !Confirms(p, p.flight.value, xr, confirm, epoch) then AbandonStep(p)
    else DropStep(ApplyStep(p, p.flight.value, xr))
  }

  /** A received step or answer, after parsing; `None` is a payload that does not parse. */
  datatype Pdu = StepPdu(xi: nat) | AnswerPdu(xr: nat, confirm: Key, readable: bool) | Malformed

  /** `Session` with the ratchet methods that mutate it in place. */
  class Session {
    var root: Key
    var epoch: nat
    var retired: seq<Key>
    var prepared: Option<Prepared>
    var flight: Option<nat>
    var busy: bool

    ghost function State(): Peer
      reads this
    {
      Peer(root, epoch, retired, prepared, flight, busy)
    }

    constructor ()
      ensures State() == FRESH_PEER
    {
      root, epoch, retired, prepared, flight, busy := Root, 0, [], None, None, false;
    }

    /** `mixing`: a quantum mix owns the next epoch. */
    method BeginRatchetStep(x: nat, mixing: bool) returns (started: Option<nat>)
      modifies this
      ensures started == if mixing || old(busy) then None else Some(x)
      ensures State() == if started.None? then old(State()) else ArmStep(old(State()), x).(busy := true)
    {
      if mixing { return None; }
      if busy { return None; }
      busy := true;
      flight := Some(x);
      return Some(x);
    }

    method AbandonRatchetStep()
      modifies this`flight, this`busy
      ensures State() == AbandonStep(old(State()))
    {
      flight := None;
      busy := false;
    }

    method AdmitPeerStep(lower: bool) returns (answer: bool)
      modifies this`flight, this`busy
      ensures answer == Admits(old(State()), lower)
      ensures State() == AdmitStep(old(State()), lower)
      ensures answer ==> !busy
      ensures old(busy) && answer ==> flight == None
      ensures !answer || !old(busy) ==> State() == old(State())
    {
      if !busy { return true; }
      if lower { return false; }
      AbandonRatchetStep();
      return true;
    }

    /** `usable`: the peer's material could be encapsulated against; otherwise there is no answer. */
    method AnswerRatchetStep(xi: nat, xr: nat, usable: bool) returns (answer: Option<Prepared>)
      modifies this`prepared
      ensures answer.Some? <==> usable
      ensures State() == if usable then AnswerStep(old(State()), xi, xr) else old(State())
      ensures usable ==> answer == prepared && CanActivate(State(), answer.value.epoch)
    {
      if !usable { return None; }
      prepared := Some(Prepared(epoch + 1, Step(root, xi, xr)));
      answer := prepared;
    }

    method RetireEpoch()
      modifies this`retired
      ensures retired == Retire(old(State()))
    {
      retired := [root] + retired;
      while |retired| > RETAINED_EPOCHS
        invariant |retired| >= RETAINED_EPOCHS || retired == [root] + old(retired)
        invariant retired <= [root] + old(retired)
        decreases |retired|
      {
        retired := retired[..|retired| - 1];
      }
    }

    /** The first access of finishing: the step in flight leaves its slot for good. */
    method TakeStep() returns (x: Option<nat>)
      modifies this`flight
      ensures x == old(flight) && State() == DropStep(old(State()))
    {
      x := flight;
      flight := None;
    }

    /** The last ones: the root moves and the flag falls under one lock, and the slot is emptied after it. */
    method ApplyRatchetStep(x: nat, xr: nat)
      modifies this
      ensures State() == DropStep(ApplyStep(old(State()), x, xr))
    {
      prepared := None;
      RetireEpoch();
      root, epoch, busy := Step(root, x, xr), epoch + 1, false;
      flight := None;
    }

    method FinishRatchetStep(xr: nat, confirm: Key, answerEpoch: nat, readable: bool) returns (done: bool)
      modifies this
      ensures State() == FinishStep(old(State()), xr, confirm, answerEpoch, readable)
      ensures done <==>
        && readable && old(flight).Some?
        && Confirms(old(State()), old(flight).value, xr, confirm, answerEpoch)
      ensures !done ==> root == old(root) && epoch == old(epoch) && prepared == old(prepared)
    {
      var x := TakeStep();
      if x.None? || !readable { return false; }
      if answerEpoch != epoch + 1 || confirm != Step(root, x.value, xr) {
        busy := false;
        return false;
      }
      ApplyRatchetStep(x.value, xr);
      return true;
    }

    method ActivateEpoch(e: nat) returns (activated: bool)
      modifies this
      ensures State() == Activate(old(State()), e)
      ensures activated == CanActivate(old(State()), e)
    {
      if prepared.None? || prepared.value.epoch != e { return false; }
      var p := prepared.value;
      prepared := None;
      RetireEpoch();
      root, epoch := p.key, p.epoch;
      return true;
    }

    /**
     `handle_ratchet_pdu`: a payload that is not pinned, signed and well formed changes
     nothing at all; whatever it is, neither half of the exchange touches the live epoch
     except a confirmed answer, and nothing but an answered step touches the prepared one.
     */
    method HandleRatchetPdu(pinned: bool, signed: bool, pdu: Pdu, lower: bool, xr: nat, usable: bool)
      returns (reply: Option<Key>)
      modifies this
      ensures !pinned || !signed || pdu.Malformed? ==> State() == old(State()) && reply == None
      ensures pinned && signed && pdu.StepPdu? ==>
                if Admits(old(State()), lower) && usable
                then State() == AnswerStep(AdmitStep(old(State()), lower), pdu.xi, xr)
                     && reply == Some(Step(root, pdu.xi, xr))
                else State() == AdmitStep(old(State()), lower) && reply == None
      ensures pinned && signed && pdu.AnswerPdu? ==>
                State() == FinishStep(old(State()), pdu.xr, pdu.confirm, old(epoch) + 1, pdu.readable)
      ensures pdu.StepPdu? ==> root == old(root) && epoch == old(epoch)
      ensures epoch != old(epoch) ==>
                pdu.AnswerPdu? && old(flight).Some? && pdu.confirm == root == Step(old(root), old(flight).value, pdu.xr)
    {
      reply := None;
      if !pinned || pdu.Malformed? || !signed { return; }
      match pdu {
        case StepPdu(xi) =>
          var admitted := AdmitPeerStep(lower);
          if !admitted { return; }
          var answer := AnswerRatchetStep(xi, xr, usable);
          if answer.Some? { reply := Some(answer.value.key); }
        case AnswerPdu(r, confirm, readable) =>
          var _ := FinishRatchetStep(r, confirm, epoch + 1, readable);
      }
    }
  }
}
