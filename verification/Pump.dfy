/** The client-to-mesh pump: small reads are coalesced into batches that carry the stream id. */
module Pump {
  import opened Common

  const COALESCE := 850
  const ID_LEN := 4
  const MAX_CREDIT := 65536

  /** What the environment does next: bytes arrive, the 200 microsecond timer fires, or the stream ends. */
  datatype Event = Read(data: Bytes) | Timer | End

  function Min(a: nat, b: nat): nat { if a < b then a else b }

  /** The size of the next read. */
  function MaxRead(buf: Bytes): nat {
    Min(if |buf| <= ID_LEN + COALESCE then ID_LEN + COALESCE - |buf| else 0, COALESCE)
  }

  /** The buffer as the loop keeps it between turns: empty, or an id and some but not too many bytes. */
  ghost predicate Between(id: Bytes, buf: Bytes) {
    buf == [] || (id < buf && |buf| < ID_LEN + COALESCE)
  }

  /**
   Between turns a read is asked for just what fills the batch, which is never zero bytes, so a
   zero-byte read can only mean the end.
   */
  lemma ReadIsNeverEmpty(id: Bytes, buf: Bytes)
    requires |id| == ID_LEN && Between(id, buf)
    ensures 1 <= MaxRead(buf) <= 850 && MaxRead(buf) == 850 - |Waiting(buf)|
  {
  }

  /** A read returns one byte or more and no more than was asked for; the timer is armed only with bytes waiting. */
  ghost predicate Legal(buf: Bytes, e: Event) {
    match e
    case Read(data) => 1 <= |data| <= MaxRead(buf)
    case Timer => buf != []
    case End => true
  }

  /** One turn: what is left in the buffer and what is sent. */
  function Turn(id: Bytes, buf: Bytes, e: Event): (Bytes, seq<Bytes>) {
    match e
    case Read(data) =>
      var grown := (if buf == [] then id else buf) + data;
      if |grown| >= ID_LEN + COALESCE then ([], [grown]) else (grown, [])
    case Timer => ([], [buf])
    case End => ([], if buf == [] then [] else [buf])
  }

  ghost predicate LegalRun(id: Bytes, buf: Bytes, events: seq<Event>)
    decreases |events|
  {
    events == [] || (Legal(buf, events[0]) && LegalRun(id, Turn(id, buf, events[0]).0, events[1..]))
  }

  function Batches(id: Bytes, buf: Bytes, events: seq<Event>): seq<Bytes>
    decreases |events|
  {
    if events == [] then [] else
    var (rest, sent) := Turn(id, buf, events[0]);
    sent + Batches(id, rest, events[1..])
  }

  /** The pump task: every turn reads or times out, flushes when told to, and flushes the rest at the end. */
  method RunPump(id: Bytes, events: seq<Event>) returns (batches: seq<Bytes>)
    requires |id| == ID_LEN && LegalRun(id, [], events)
    requires Ends(events)
    ensures batches == Batches(id, [], events)
  {
    batches := [];
    var buf: Bytes := [];
    var i := 0;
    while i < |events| && !events[i].End?
      invariant i <= |events|
      invariant Between(id, buf) && LegalRun(id, buf, events[i..])
      invariant Batches(id, [], events) == batches + Batches(id, buf, events[i..])
    {
      assert events[i..][1..] == events[i + 1..];
      ghost var turn := Turn(id, buf, events[i]);
      ghost var later := Batches(id, turn.0, events[i + 1..]);
      assert batches + (turn.1 + later) == (batches + turn.1) + later;
      var flush := events[i].Timer?;
      if events[i].Read? {
        if buf == [] { buf := id; }
        buf := buf + events[i].data;
        flush := |buf| >= ID_LEN + COALESCE;
      }
      if flush && buf != [] {
        batches := batches + [buf];
        buf := [];
      } else {
        assert batches + [] == batches;
      }
      i := i + 1;
    }
    if i < |events| {
      assert events[i..] == [End] && events[i..][1..] == [];
      assert Batches(id, buf, events[i..]) == Turn(id, buf, End).1 + [];
      if buf != [] {
        batches := batches + [buf];
      }
    }
  }

  // ---- What comes out is what went in ----

  ghost function Taken(events: seq<Event>): Bytes {
    if events == [] then [] else
    Payload(events[0]) + Taken(events[1..])
  }

  ghost function Strip(batches: seq<Bytes>): Bytes {
    if batches == [] then [] else
    (if |batches[0]| >= ID_LEN then batches[0][ID_LEN..] else []) + Strip(batches[1..])
  }

  ghost predicate GoodBatch(id: Bytes, b: Bytes) {
    id <= b && ID_LEN + 1 <= |b| <= ID_LEN + COALESCE
  }

  /** The bytes waiting in the buffer. */
  ghost function Waiting(buf: Bytes): Bytes {
    if |buf| >= ID_LEN then buf[ID_LEN..] else []
  }

  lemma TurnKeeps(id: Bytes, buf: Bytes, e: Event)
    requires |id| == ID_LEN && Between(id, buf) && Legal(buf, e)
    ensures var (rest, sent) := Turn(id, buf, e);
      && Between(id, rest)
      && (forall b :: b in sent ==> GoodBatch(id, b))
      && Strip(sent) + Waiting(rest) == Waiting(buf) + Payload(e)
      && (!e.Read? ==> rest == [])
  {
    var (rest, sent) := Turn(id, buf, e);
    if e.Read? {
      var grown := (if buf == [] then id else buf) + e.data;
      assert grown[ID_LEN..] == Waiting(buf) + e.data;
      assert Strip([grown]) == grown[ID_LEN..] + Strip([grown][1..]);
    } else if buf != [] {
      assert Strip([buf]) == buf[ID_LEN..] + Strip([buf][1..]);
    }
  }

  lemma {:induction false} StripAppend(a: seq<Bytes>, b: seq<Bytes>)
    ensures Strip(a + b) == Strip(a) + Strip(b)
  {
    if a == [] {
      assert a + b == b;
    } else {
      assert (a + b)[1..] == a[1..] + b;
      StripAppend(a[1..], b);
    }
  }

  ghost function Payload(e: Event): Bytes { if e.Read? then e.data else [] }

  /** Regrouping: what was sent and waits after one turn, and then after the turns that follow. */
  lemma Regroup(sent: Bytes, rest: Bytes, buf: Bytes, data: Bytes, more: Bytes, left: Bytes, later: Bytes)
    requires sent + rest == buf + data && more + left == rest + later
    ensures (sent + more) + left == buf + (data + later)
  {
    assert (sent + more) + left == sent + (more + left) == (sent + rest) + later == buf + (data + later);
  }

  /** An ended run: only the last event is the end of the stream. */
  ghost predicate Ends(events: seq<Event>) {
    events != [] && forall i :: 0 <= i < |events| ==> (events[i].End? <==> i == |events| - 1)
  }

  /** The buffer after a sequence of events. */
  ghost function Left(id: Bytes, buf: Bytes, events: seq<Event>): Bytes
    decreases |events|
  {
    if events == [] then buf else Left(id, Turn(id, buf, events[0]).0, events[1..])
  }

  /** At every point, what was sent and what waits are the bytes read so far. */
  lemma {:induction false} PumpKeeps(id: Bytes, buf: Bytes, events: seq<Event>)
    requires |id| == ID_LEN && Between(id, buf) && LegalRun(id, buf, events)
    ensures forall b :: b in Batches(id, buf, events) ==> GoodBatch(id, b)
    ensures Between(id, Left(id, buf, events))
    ensures Strip(Batches(id, buf, events)) + Waiting(Left(id, buf, events)) == Waiting(buf) + Taken(events)
    decreases |events|
  {
    if events == [] {
      assert [] + Waiting(buf) == Waiting(buf) + [];
    } else {
      var e, later := events[0], events[1..];
      TurnKeeps(id, buf, e);
      var turn := Turn(id, buf, e);
      var rest, sent := turn.0, turn.1;
      PumpKeeps(id, rest, later);
      var more, left := Batches(id, rest, later), Waiting(Left(id, rest, later));
      StripAppend(sent, more);
      Regroup(Strip(sent), Waiting(rest), Waiting(buf), Payload(e), Strip(more), left, Taken(later));
    }
  }

  /** A flush leaves nothing waiting. */
  lemma {:induction false} FlushEmpties(id: Bytes, buf: Bytes, events: seq<Event>)
    requires |id| == ID_LEN && Between(id, buf) && LegalRun(id, buf, events)
    requires events != [] && !events[|events| - 1].Read?
    ensures Left(id, buf, events) == []
    decreases |events|
  {
    TurnKeeps(id, buf, events[0]);
    if |events| > 1 {
      assert events[1..][|events| - 2] == events[|events| - 1];
      FlushEmpties(id, Turn(id, buf, events[0]).0, events[1..]);
    } else {
      assert events[1..] == [];
    }
  }

  /**
   At every point of every run fewer than 850 bytes wait, and none after the timer fired or the stream
   ended; what was sent, without the ids, and what waits are exactly the bytes read so far.
   */
  lemma NothingWaitsLong(id: Bytes, events: seq<Event>)
    requires |id| == ID_LEN && LegalRun(id, [], events)
    ensures var waiting := Waiting(Left(id, [], events));
      && |waiting| < 850 && Strip(Batches(id, [], events)) + waiting == Taken(events)
      && (events != [] && !events[|events| - 1].Read? ==> waiting == [])
  {
    PumpKeeps(id, [], events);
    assert [] + Taken(events) == Taken(events);
    if events != [] && !events[|events| - 1].Read? { FlushEmpties(id, [], events); }
  }

  /**
   However the client's bytes arrive and whenever the timer fires: every batch is the stream id and 1
   to 850 bytes, and the batches without their ids are exactly the bytes that were read.
   */
  lemma BatchesCarryTheStream(id: Bytes, events: seq<Event>)
    requires |id| == ID_LEN && LegalRun(id, [], events)
    requires Ends(events)
    ensures var bs := Batches(id, [], events);
      (forall b :: b in bs ==> id <= b && 5 <= |b| <= 854) && Strip(bs) == Taken(events)
  {
    PumpKeeps(id, [], events);
    NothingWaitsLong(id, events);
    assert Strip(Batches(id, [], events)) + [] == Strip(Batches(id, [], events));
  }

  // ---- Small reads are coalesced ----

  /** Batches that are not full. */
  ghost function Shorts(batches: seq<Bytes>): nat {
    if batches == [] then 0 else (if |batches[0]| < 854 then 1 else 0) + Shorts(batches[1..])
  }

  /** How often the timer fired or the stream ended. */
  ghost function Flushes(events: seq<Event>): nat {
    if events == [] then 0 else (if events[0].Read? then 0 else 1) + Flushes(events[1..])
  }

  lemma {:induction false} ShortsAppend(a: seq<Bytes>, b: seq<Bytes>)
    ensures Shorts(a + b) == Shorts(a) + Shorts(b)
  {
    if a == [] {
      assert a + b == b;
    } else {
      assert (a + b)[1..] == a[1..] + b;
      ShortsAppend(a[1..], b);
    }
  }

  /** However small the reads: a batch goes out before it is full only when the timer fires or the stream ends. */
  lemma {:induction false} OnlyFlushesAreShort(id: Bytes, buf: Bytes, events: seq<Event>)
    requires |id| == ID_LEN && Between(id, buf) && LegalRun(id, buf, events)
    ensures Shorts(Batches(id, buf, events)) <= Flushes(events)
    decreases |events|
  {
    if events != [] {
      TurnKeeps(id, buf, events[0]);
      var turn := Turn(id, buf, events[0]);
      OnlyFlushesAreShort(id, turn.0, events[1..]);
      ShortsAppend(turn.1, Batches(id, turn.0, events[1..]));
      assert |turn.1| <= 1 && (|turn.1| == 1 ==> turn.1[1..] == []);
      assert Shorts(turn.1) <= if events[0].Read? then 0 else 1;
    }
  }

  // ---- Stream credit, shared with the return task ----

  /**
   The counter; whether the pump has seen it above zero and may read; what it is about to subtract; and,
   for the record, the bytes replenished, the bytes read, and how far reads went beyond the credit.
   */
  datatype Credit = Credit(value: int, ready: bool, pending: Option<nat>, added: nat, taken: nat, over: nat, turns: nat)

  datatype CreditStep =
    | Add(n: nat)     // the return task replenishes
    | Wait            // the pump looks whether there is credit
    | Load(n: nat)    // the pump has read n bytes and loads the counter
    | Subtract        // and subtracts what it decided on

  function CreditNext(c: Credit, s: CreditStep): Credit {
    match s
    case Add(n) => c.(value := c.value + n, added := c.added + n)
    case Wait => if c.pending.None? && c.value != 0 then c.(ready := true) else c
    case Load(n) =>
      if !c.ready || c.value < 0 || !(1 <= n <= COALESCE) then c else
      c.(ready := false, pending := Some(Min(n, c.value)), taken := c.taken + n, turns := c.turns + 1,
         over := c.over + (if n <= c.value then 0 else n - c.value))
    case Subtract =>
      if c.pending.None? then c else c.(value := c.value - c.pending.value, pending := None)
  }

  ghost function CreditRun(steps: seq<CreditStep>): Credit {
    if steps == [] then Credit(MAX_CREDIT, false, None, 0, 0, 0, 0)
    else CreditNext(CreditRun(steps[..|steps| - 1]), steps[|steps| - 1])
  }

  /**
   In every interleaving the counter never wraps below zero; it is 65536 and what was replenished less
   what was read, except for what reads went beyond it; and no read goes more than 849 bytes beyond.
   */
  lemma {:induction false} CreditNeverUnderflows(steps: seq<CreditStep>)
    ensures var c := CreditRun(steps);
      && c.value >= 0 && (c.pending.Some? ==> c.pending.value <= c.value && !c.ready) && (c.ready ==> c.value > 0)
      && c.value - (if c.pending.Some? then c.pending.value else 0) == 65536 + c.added - c.taken + c.over
      && c.over <= 849 * c.turns
  {
    if steps != [] { CreditNeverUnderflows(steps[..|steps| - 1]); }
  }
}
