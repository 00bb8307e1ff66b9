/** The 128-entry sliding replay window, and the open path that commits to it only after authentication. */
module ReplayGuard {
  import opened Common
  import opened Framing

  const WINDOW := 128

  /** A 128-bit word as the set of positions of its one bits. */
  type Word = w: set<nat> | forall i :: i in w ==> i < WINDOW

  function ShiftLeft(w: Word, n: nat): Word {
    set i | i in w && i + n < WINDOW :: i + n
  }

  datatype Guard = Guard(vMax: nat, mask: Word)

  const FRESH_GUARD := Guard(0, {})

  function SatSub(a: nat, b: nat): nat { if a >= b then a - b else 0 }

  /** The window after offering it a counter, and whether it was accepted; `live`: no timeout has passed. */
  function Check(g: Guard, counter: nat, live: bool): (Guard, bool) {
    if !live then (g, false)
    else if counter < SatSub(g.vMax, WINDOW) then (g, false)
    else if counter > g.vMax then
      var shift := counter - g.vMax;
      (Guard(counter, if shift >= WINDOW then {0} else ShiftLeft(g.mask, shift) + {0}), true)
    else
      var offset := SatSub(g.vMax, counter);
      if offset >= WINDOW || offset in g.mask then (g, false) else (g.(mask := g.mask + {offset}), true)
  }

  class SessionGuard {
    var vMax: nat
    var bitmask: Word

    ghost function State(): Guard
      reads this
    {
      Guard(vMax, bitmask)
    }

    constructor ()
      ensures State() == FRESH_GUARD
    {
      vMax, bitmask := 0, {};
    }

    /** Installing an epoch empties the window. */
    method Reset()
      modifies this
      ensures State() == FRESH_GUARD
    {
      vMax, bitmask := 0, {};
    }

    method CheckAndUpdate(counter: nat, live: bool) returns (accepted: bool)
      modifies this
      ensures (State(), accepted) == Check(old(State()), counter, live)
    {
      if !live { return false; }
      if counter < SatSub(vMax, WINDOW) { return false; }
      if counter > vMax {
        var shift := counter - vMax;
        if shift >= WINDOW {
          bitmask := {0};
        } else {
          bitmask := ShiftLeft(bitmask, shift) + {0};
        }
        vMax := counter;
        return true;
      }
      var offset := SatSub(vMax, counter);
      if offset >= WINDOW { return false; }
      if offset in bitmask { return false; }
      bitmask := bitmask + {offset};
      return true;
    }
  }

  // ---- What the window means ----

  /** Bit `i` says whether the counter `i` below the highest one was accepted. */
  ghost predicate Marked(mask: set<nat>, vMax: nat, seen: set<nat>, i: nat) {
    i <= vMax ==> (i in mask <==> vMax - i in seen)
  }

  /** `g` is the window over the accepted counters `seen`. */
  ghost predicate Tracks(g: Guard, seen: set<nat>) {
    && (forall c :: c in seen ==> c <= g.vMax)
    && (g.vMax in seen || (g.vMax == 0 && seen == {}))
    && (forall i :: 0 <= i < WINDOW ==> Marked(g.mask, g.vMax, seen, i))
    && (forall i :: i in g.mask ==> i <= g.vMax)
  }

  /** New, and less than a window behind the highest accepted one. */
  ghost predicate Admissible(g: Guard, seen: set<nat>, c: nat) {
    c !in seen && g.vMax < c + WINDOW
  }

  /** A live window accepts exactly the counters that are new and not too old, and stays exact. */
  lemma CheckIsExact(g: Guard, seen: set<nat>, c: nat)
    requires Tracks(g, seen)
    ensures var r := Check(g, c, true);
      (r.1 <==> Admissible(g, seen, c)) && Tracks(r.0, if r.1 then seen + {c} else seen)
  {
    if c > g.vMax {
      ShiftIsExact(g, seen, c);
    } else if g.vMax - c < WINDOW {
      BitIsExact(g, seen, c, g.vMax - c);
    }
  }

  /** A new highest counter: the window moves up and only the new bit is added. */
  lemma ShiftIsExact(g: Guard, seen: set<nat>, c: nat)
    requires Tracks(g, seen) && c > g.vMax
    ensures var r := Check(g, c, true);
      r.1 && Admissible(g, seen, c) && Tracks(r.0, seen + {c})
  {
    var shift := c - g.vMax;
    var mask: Word := if shift >= WINDOW then {0} else ShiftLeft(g.mask, shift) + {0};
    assert Check(g, c, true) == (Guard(c, mask), true);
    forall i: nat | i < WINDOW ensures Marked(mask, c, seen + {c}, i) && (i in mask ==> i <= c) {
      ShiftedBit(g.mask, shift, i);
      if i >= shift { assert Marked(g.mask, g.vMax, seen, i - shift); }
    }
  }

  /** A counter inside the window: its bit says whether it was seen. */
  lemma BitIsExact(g: Guard, seen: set<nat>, c: nat, offset: nat)
    requires Tracks(g, seen) && c <= g.vMax && offset == g.vMax - c < WINDOW
    ensures var r := Check(g, c, true);
      (r.1 <==> c !in seen) && Tracks(r.0, if r.1 then seen + {c} else seen)
  {
    assert Marked(g.mask, g.vMax, seen, offset);
    if offset !in g.mask {
      var mask: Word := g.mask + {offset};
      assert Check(g, c, true) == (Guard(g.vMax, mask), true);
      forall i: nat | i < WINDOW ensures Marked(mask, g.vMax, seen + {c}, i) {
        assert Marked(g.mask, g.vMax, seen, i);
      }
    }
  }

  lemma ShiftedBit(w: Word, shift: nat, i: nat)
    requires i < WINDOW
    ensures i in ShiftLeft(w, shift) <==> i >= shift && i - shift in w
  {
    if i >= shift { assert (i - shift) + shift == i; }
  }

  // ---- Authenticate first, then commit ----

  datatype Session = Session(hash: Bytes, key: nat, initiator: bool, guard: Guard)

  /** What parsing leaves of a packet; `aad` is empty for bulk frames and the jitter tail otherwise. */
  datatype Packet =
    | Unreadable   // too short, a bad shard index, no v2 header or no tag
    | Data(hash: Bytes, counter: nat, nonce: Bytes, epoch: nat, aad: Bytes, sealed: Bytes)

  /** Opening under a key and a direction; nothing is assumed about it. */
  type Aead = (nat, bool, Packet) -> Option<Bytes>

  function Matching(ss: seq<Session>, hash: Bytes): (i: nat)
    ensures i <= |ss| && (i < |ss| ==> ss[i].hash == hash) && forall j :: 0 <= j < i ==> ss[j].hash != hash
  {
    if ss == [] then 0 else if ss[0].hash == hash then 0 else 1 + Matching(ss[1..], hash)
  }

  /** The peer's direction is tried first, then our own. */
  function Plain(aead: Aead, s: Session, p: Packet): Option<Bytes> {
    var peer := aead(s.key, !s.initiator, p);
    var plain := if peer.Some? then peer else aead(s.key, s.initiator, p);
    if plain.None? then None else Unframe(plain.value)
  }

  datatype Outcome = Outcome(sessions: seq<Session>, plain: Option<Bytes>, dropped: bool)

  function Decode(aead: Aead, ss: seq<Session>, p: Packet, live: bool): (o: Outcome)
    ensures |o.sessions| == |ss|
    ensures o.plain.Some? ==> p.Data? && Matching(ss, p.hash) < |ss|
    ensures o.plain.Some? ==> o.plain == Plain(aead, ss[Matching(ss, p.hash)], p)
  {
    if p.Unreadable? then Outcome(ss, None, true) else
    var i := Matching(ss, p.hash);
    if i == |ss| then Outcome(ss, None, false) else
    var framed := Plain(aead, ss[i], p);
    if framed.None? then Outcome(ss, None, true) else
    var (g, ok) := Check(ss[i].guard, p.counter, live);
    Outcome(ss[i := ss[i].(guard := g)], if ok then framed else None, !ok)
  }

  /** The window of session `i` is emptied; its key and its frames are what they were. */
  function Emptied(ss: seq<Session>, i: nat): (r: seq<Session>)
    ensures |r| == |ss|
  {
    if i < |ss| then ss[i := ss[i].(guard := FRESH_GUARD)] else ss
  }

  class Worker {
    var sessions: seq<Session>
    var drops: nat

    constructor (ss: seq<Session>)
      ensures sessions == ss && drops == 0
    {
      sessions, drops := ss, 0;
    }

    method ResetWindow(i: nat)
      requires i < |sessions|
      modifies this`sessions
      ensures sessions == Emptied(old(sessions), i)
    {
      sessions := sessions[i := sessions[i].(guard := FRESH_GUARD)];
    }

    method DecodeDataFrame(aead: Aead, p: Packet, live: bool) returns (plain: Option<Bytes>)
      modifies this
      ensures var o := Decode(aead, old(sessions), p, live);
        sessions == o.sessions && plain == o.plain && drops == old(drops) + (if o.dropped then 1 else 0)
    {
      if p.Unreadable? {
        drops := drops + 1;
        return None;
      }
      for i := 0 to |sessions|
        invariant sessions == old(sessions) && drops == old(drops)
        invariant forall j :: 0 <= j < i ==> sessions[j].hash != p.hash
      {
        var s := sessions[i];
        if s.hash == p.hash {
          assert Matching(sessions, p.hash) == i;
          var clear := aead(s.key, !s.initiator, p);
          if clear.None? { clear := aead(s.key, s.initiator, p); }
          if clear.None? {
            drops := drops + 1;
            return None;
          }
          var framed := Unframe(clear.value);
          if framed.None? {
            drops := drops + 1;
            return None;
          }
          var (g, ok) := Check(s.guard, p.counter, live);
          sessions := sessions[i := s.(guard := g)];
          if !ok {
            drops := drops + 1;
            return None;
          }
          return framed;
        }
      }
      return None;
    }
  }

  // ---- Over every sequence of packets and window resets ----

  /** A packet arrives, or an epoch is installed on a session and its window is emptied. */
  datatype Event = Arrive(p: Packet, live: bool) | Reset(s: nat)

  function React(aead: Aead, ss: seq<Session>, e: Event): (o: Outcome)
    ensures |o.sessions| == |ss|
  {
    match e
    case Arrive(p, live) => Decode(aead, ss, p, live)
    case Reset(i) => Outcome(Emptied(ss, i), None, false)
  }

  /** Sessions and plaintexts after a sequence of events, one entry per event. */
  ghost function Feed(aead: Aead, ss: seq<Session>, xs: seq<Event>): (r: (seq<Session>, seq<Option<Bytes>>))
    ensures |r.0| == |ss| && |r.1| == |xs|
  {
    if xs == [] then (ss, []) else
    var r := Feed(aead, ss, xs[..|xs| - 1]);
    var o := React(aead, r.0, xs[|xs| - 1]);
    (o.sessions, r.1 + [o.plain])
  }

  /** The session a packet names, read from the hashes alone. */
  ghost predicate For(ss: seq<Session>, e: Event, i: nat) {
    e.Arrive? && e.p.Data? && i < |ss| && Matching(ss, e.p.hash) == i
  }

  /** What one event adds to the counters session `i` has given out since its window was last emptied. */
  ghost function SeenAfter(ss: seq<Session>, seen: set<nat>, e: Event, out: Option<Bytes>, i: nat): set<nat> {
    if e == Reset(i) then {} else if For(ss, e, i) && out.Some? then seen + {e.p.counter} else seen
  }

  /** The counters whose plaintext session `i` has given out since its window was last emptied. */
  ghost function Seen(aead: Aead, ss: seq<Session>, xs: seq<Event>, i: nat): set<nat> {
    if xs == [] then {} else
    var last := |xs| - 1;
    SeenAfter(ss, Seen(aead, ss, xs[..last], i), xs[last], Feed(aead, ss, xs).1[last], i)
  }

  /** Everything but the window of a session is fixed. */
  ghost predicate SameNames(ss: seq<Session>, ts: seq<Session>) {
    |ss| == |ts| && forall i :: 0 <= i < |ss| ==> ts[i].(guard := ss[i].guard) == ss[i]
  }

  lemma {:induction false} MatchingByName(ss: seq<Session>, ts: seq<Session>, hash: Bytes)
    requires SameNames(ss, ts)
    ensures Matching(ss, hash) == Matching(ts, hash)
  {
    if ss != [] { MatchingByName(ss[1..], ts[1..], hash); }
  }

  lemma {:induction false} FeedKeepsNames(aead: Aead, ss: seq<Session>, xs: seq<Event>)
    ensures SameNames(ss, Feed(aead, ss, xs).0)
  {
    if xs != [] { FeedKeepsNames(aead, ss, xs[..|xs| - 1]); }
  }

  ghost predicate AllFresh(ss: seq<Session>) {
    forall i :: 0 <= i < |ss| ==> ss[i].guard == FRESH_GUARD
  }

  ghost predicate Genuine(aead: Aead, ss: seq<Session>, p: Packet) {
    p.Data? && Matching(ss, p.hash) < |ss| && Plain(aead, ss[Matching(ss, p.hash)], p).Some?
  }

  lemma ReactTracks(aead: Aead, ts: seq<Session>, i: nat, seen: set<nat>, e: Event)
    requires i < |ts| && Tracks(ts[i].guard, seen)
    ensures var o := React(aead, ts, e); Tracks(o.sessions[i].guard, SeenAfter(ts, seen, e, o.plain, i))
  {
    if For(ts, e, i) { CheckIsExact(ts[i].guard, seen, e.p.counter); }
  }

  /** A session's window always tracks exactly the counters it has given out since it was last emptied. */
  lemma {:induction false} WindowsAreExact(aead: Aead, ss: seq<Session>, xs: seq<Event>, i: nat)
    requires AllFresh(ss) && i < |ss|
    ensures Tracks(Feed(aead, ss, xs).0[i].guard, Seen(aead, ss, xs, i))
  {
    if xs != [] {
      var init, e := xs[..|xs| - 1], xs[|xs| - 1];
      WindowsAreExact(aead, ss, init, i);
      FeedKeepsNames(aead, ss, init);
      var ts := Feed(aead, ss, init).0;
      if e.Arrive? && e.p.Data? { MatchingByName(ss, ts, e.p.hash); }
      assert For(ts, e, i) == For(ss, e, i);
      ReactTracks(aead, ts, i, Seen(aead, ss, init, i), e);
    }
  }

  /** New, and less than 128 behind everything given out. */
  ghost predicate Acceptable(seen: set<nat>, c: nat) {
    c !in seen && forall d :: d in seen ==> d < c + 128
  }

  lemma AcceptableIsAdmissible(g: Guard, seen: set<nat>, c: nat)
    requires Tracks(g, seen)
    ensures Acceptable(seen, c) <==> Admissible(g, seen, c)
  {
  }

  /**
   An arrival yields plaintext exactly when it authenticates and unframes under the session it
   names, that session is live, and among the counters given out since the window was last
   emptied its own is new and not a window behind.
   */
  lemma YieldsIff(aead: Aead, ss: seq<Session>, xs: seq<Event>, p: Packet, live: bool)
    requires AllFresh(ss)
    ensures Feed(aead, ss, xs + [Arrive(p, live)]).1[|xs|].Some? <==>
      && Genuine(aead, ss, p) && live
      && Acceptable(Seen(aead, ss, xs, Matching(ss, p.hash)), p.counter)
  {
    var ts := Feed(aead, ss, xs).0;
    LastPlain(aead, ss, xs, Arrive(p, live));
    FeedKeepsNames(aead, ss, xs);
    GenuineByName(aead, ss, ts, p);
    if Genuine(aead, ss, p) { WindowsAreExact(aead, ss, xs, Matching(ss, p.hash)); }
    DecodeYieldsIff(aead, ts, p, live, if p.Data? then Seen(aead, ss, xs, Matching(ss, p.hash)) else {});
  }

  lemma LastPlain(aead: Aead, ss: seq<Session>, xs: seq<Event>, e: Event)
    ensures Feed(aead, ss, xs + [e]).1[|xs|] == React(aead, Feed(aead, ss, xs).0, e).plain
  {
    assert (xs + [e])[..|xs|] == xs;
  }

  lemma GenuineByName(aead: Aead, ss: seq<Session>, ts: seq<Session>, p: Packet)
    requires SameNames(ss, ts)
    ensures Genuine(aead, ss, p) == Genuine(aead, ts, p)
    ensures p.Data? ==> Matching(ss, p.hash) == Matching(ts, p.hash)
  {
    if p.Data? {
      MatchingByName(ss, ts, p.hash);
      var i := Matching(ss, p.hash);
      if i < |ss| { assert Plain(aead, ss[i], p) == Plain(aead, ts[i], p); }
    }
  }

  lemma DecodeYieldsIff(aead: Aead, ts: seq<Session>, p: Packet, live: bool, seen: set<nat>)
    requires Genuine(aead, ts, p) ==> Tracks(ts[Matching(ts, p.hash)].guard, seen)
    ensures Decode(aead, ts, p, live).plain.Some? <==> Genuine(aead, ts, p) && live && Acceptable(seen, p.counter)
  {
    if Genuine(aead, ts, p) {
      var g := ts[Matching(ts, p.hash)].guard;
      AcceptableIsAdmissible(g, seen, p.counter);
      CheckIsExact(g, seen, p.counter);
    }
  }

  lemma {:induction false} FeedPrefix(aead: Aead, ss: seq<Session>, xs: seq<Event>, n: nat)
    requires n <= |xs|
    ensures Feed(aead, ss, xs[..n]).1 == Feed(aead, ss, xs).1[..n]
  {
    if n < |xs| {
      FeedPrefix(aead, ss, xs[..|xs| - 1], n);
      assert xs[..|xs| - 1][..n] == xs[..n];
    } else {
      assert xs[..n] == xs;
    }
  }

  /** The same of an arrival anywhere in a sequence. */
  lemma YieldsAtIff(aead: Aead, ss: seq<Session>, xs: seq<Event>, j: nat)
    requires AllFresh(ss) && j < |xs| && xs[j].Arrive?
    ensures Feed(aead, ss, xs).1[j].Some? <==>
      && Genuine(aead, ss, xs[j].p) && xs[j].live
      && Acceptable(Seen(aead, ss, xs[..j], Matching(ss, xs[j].p.hash)), xs[j].p.counter)
  {
    assert xs[..j] + [Arrive(xs[j].p, xs[j].live)] == xs[..j + 1];
    FeedPrefix(aead, ss, xs, j + 1);
    YieldsIff(aead, ss, xs[..j], xs[j].p, xs[j].live);
  }

  // ---- Which plaintext comes out ----

  /** What the session's key opens the packet to: in the peer's direction if it opens there, else in our own. */
  ghost predicate OpensTo(aead: Aead, s: Session, p: Packet, region: Bytes) {
    || aead(s.key, !s.initiator, p) == Some(region)
    || (aead(s.key, !s.initiator, p) == None && aead(s.key, s.initiator, p) == Some(region))
  }

  /** The region the packet opens to begins with the framed body `d`; zeros or anything may follow. */
  ghost predicate Carries(aead: Aead, s: Session, p: Packet, d: Bytes) {
    exists region :: OpensTo(aead, s, p, region) && 0 < |d| <= 65535 && FrameShard(d) <= region
  }

  /** The plaintext is exactly the body: without its length prefix and without what follows it. */
  lemma PlainIff(aead: Aead, s: Session, p: Packet, d: Bytes)
    ensures Plain(aead, s, p) == Some(d) <==> Carries(aead, s, p, d)
  {
    if Plain(aead, s, p) == Some(d) {
      var peer := aead(s.key, !s.initiator, p);
      var region := if peer.Some? then peer.value else aead(s.key, s.initiator, p).value;
      UnframeIff(region, d);
      assert OpensTo(aead, s, p, region);
    }
    if Carries(aead, s, p, d) {
      var region :| OpensTo(aead, s, p, region) && 0 < |d| <= 65535 && FrameShard(d) <= region;
      UnframeIff(region, d);
    }
  }

  /** What an arrival yields, byte for byte, and exactly when. */
  lemma YieldsBodyIff(aead: Aead, ss: seq<Session>, xs: seq<Event>, j: nat, d: Bytes)
    requires AllFresh(ss) && j < |xs| && xs[j].Arrive?
    ensures Feed(aead, ss, xs).1[j] == Some(d) <==>
      && xs[j].p.Data? && xs[j].live && Matching(ss, xs[j].p.hash) < |ss|
      && Carries(aead, ss[Matching(ss, xs[j].p.hash)], xs[j].p, d)
      && Acceptable(Seen(aead, ss, xs[..j], Matching(ss, xs[j].p.hash)), xs[j].p.counter)
  {
    var p := xs[j].p;
    YieldsAtIff(aead, ss, xs, j);
    if p.Data? && Matching(ss, p.hash) < |ss| {
      PlainIff(aead, ss[Matching(ss, p.hash)], p, d);
      if Feed(aead, ss, xs).1[j].Some? { YieldsPlain(aead, ss, xs, j); }
    }
  }

  lemma YieldsPlain(aead: Aead, ss: seq<Session>, xs: seq<Event>, j: nat)
    requires j < |xs| && xs[j].Arrive? && Feed(aead, ss, xs).1[j].Some?
    ensures var p := xs[j].p;
      p.Data? && Matching(ss, p.hash) < |ss| && Feed(aead, ss, xs).1[j] == Plain(aead, ss[Matching(ss, p.hash)], p)
  {
    var p, ts := xs[j].p, Feed(aead, ss, xs[..j]).0;
    FeedPrefix(aead, ss, xs, j + 1);
    assert xs[..j] + [xs[j]] == xs[..j + 1];
    LastPlain(aead, ss, xs[..j], xs[j]);
    assert Decode(aead, ts, p, xs[j].live).plain == Plain(aead, ts[Matching(ts, p.hash)], p);
    FeedKeepsNames(aead, ss, xs[..j]);
    MatchingByName(ss, ts, p.hash);
    var i := Matching(ss, p.hash);
    assert Plain(aead, ss[i], p) == Plain(aead, ts[i], p);
  }

  /** Everything given out is the body of a packet that arrived. */
  lemma {:induction false} DeliveredAreBodies(aead: Aead, ss: seq<Session>, xs: seq<Event>, d: Bytes)
    requires AllFresh(ss) && d in Delivered(Feed(aead, ss, xs).1)
    ensures exists j :: 0 <= j < |xs| && Feed(aead, ss, xs).1[j] == Some(d) && CarriesAt(aead, ss, xs[j], d)
    decreases |xs|
  {
    var last := |xs| - 1;
    var out := Feed(aead, ss, xs).1;
    assert out[..last] == Feed(aead, ss, xs[..last]).1;
    if out[last] == Some(d) {
      assert xs[last].Arrive?;
      YieldsBodyIff(aead, ss, xs, last, d);
      assert CarriesAt(aead, ss, xs[last], d);
    } else {
      DeliveredAreBodies(aead, ss, xs[..last], d);
    }
  }

  ghost predicate CarriesAt(aead: Aead, ss: seq<Session>, e: Event, d: Bytes) {
    && e.Arrive? && e.p.Data? && Matching(ss, e.p.hash) < |ss|
    && Carries(aead, ss[Matching(ss, e.p.hash)], e.p, d)
  }

  /** A drop is counted for every packet that yields nothing, except one that names no session. */
  lemma DroppedIff(aead: Aead, ss: seq<Session>, p: Packet, live: bool)
    ensures Decode(aead, ss, p, live).dropped
            <==> Decode(aead, ss, p, live).plain.None? && (p.Unreadable? || Matching(ss, p.hash) < |ss|)
  {
  }

  // ---- One counter, two arrivals ----

  /** The window of session `s` is emptied after event `i` and before event `j`. */
  ghost predicate ResetBetween(xs: seq<Event>, i: nat, j: nat, s: nat) {
    exists k :: i < k < j && k < |xs| && xs[k] == Reset(s)
  }

  /** What was given out stays remembered until the window is emptied. */
  lemma {:induction false} SeenStays(aead: Aead, ss: seq<Session>, xs: seq<Event>, s: nat, i: nat)
    requires i < |xs| && For(ss, xs[i], s) && Feed(aead, ss, xs).1[i].Some? && !ResetBetween(xs, i, |xs|, s)
    ensures xs[i].p.counter in Seen(aead, ss, xs, s)
  {
    var last := |xs| - 1;
    if i < last {
      assert xs[last] != Reset(s);
      assert forall k :: i < k < last ==> xs[..last][k] == xs[k];
      SeenStays(aead, ss, xs[..last], s, i);
    }
  }

  /**
   After an arrival has yielded, a later one with the same session and counter yields exactly when
   it is genuine, the session is live, its window was emptied in between, and since then the
   counter was not given out again and is not a window behind.
   */
  lemma YieldsAgainIff(aead: Aead, ss: seq<Session>, xs: seq<Event>, i: nat, j: nat, s: nat)
    requires AllFresh(ss) && i < j < |xs| && For(ss, xs[i], s) && For(ss, xs[j], s)
    requires xs[i].p.counter == xs[j].p.counter && Feed(aead, ss, xs).1[i].Some?
    ensures Feed(aead, ss, xs).1[j].Some? <==>
      && Genuine(aead, ss, xs[j].p) && xs[j].live && ResetBetween(xs, i, j, s)
      && Acceptable(Seen(aead, ss, xs[..j], s), xs[j].p.counter)
  {
    YieldsAtIff(aead, ss, xs, j);
    if !ResetBetween(xs, i, j, s) {
      FeedPrefix(aead, ss, xs, j);
      assert forall k :: i < k < j ==> xs[..j][k] == xs[k];
      SeenStays(aead, ss, xs[..j], s, i);
    }
  }

  /** No two arrivals of one session with one counter both yield, unless the window was emptied in between. */
  lemma {:induction false} AtMostOncePerCounter(aead: Aead, ss: seq<Session>, xs: seq<Event>, i: nat, j: nat, s: nat)
    requires AllFresh(ss) && i < j < |xs| && For(ss, xs[i], s) && For(ss, xs[j], s)
    requires Feed(aead, ss, xs).1[i].Some? && Feed(aead, ss, xs).1[j].Some?
    ensures xs[i].p.counter != xs[j].p.counter || ResetBetween(xs, i, j, s)
  {
    if xs[i].p.counter == xs[j].p.counter { YieldsAgainIff(aead, ss, xs, i, j, s); }
  }

  /** And then they do: every genuine frame yields, and yields once more after a reset. */
  lemma ResetYieldsAgain(aead: Aead, ss: seq<Session>, p: Packet)
    requires AllFresh(ss) && Genuine(aead, ss, p)
    ensures var out := Feed(aead, ss, [Arrive(p, true), Reset(Matching(ss, p.hash)), Arrive(p, true)]).1;
      out[0].Some? && out[2].Some?
  {
    var i := Matching(ss, p.hash);
    var xs := [Arrive(p, true), Reset(i), Arrive(p, true)];
    assert xs[..0] == [] && xs[..2][..1] == xs[..1] && xs[..2][1] == Reset(i);
    assert Seen(aead, ss, xs[..2], i) == {};
    YieldsAtIff(aead, ss, xs, 0);
    YieldsAtIff(aead, ss, xs, 2);
  }

  // ---- Frames that do not authenticate are invisible ----

  /** The event is a reset, or a packet that authenticates and unframes. */
  ghost predicate Counts(aead: Aead, ss: seq<Session>, e: Event) {
    e.Reset? || Genuine(aead, ss, e.p)
  }

  ghost function OnlyGenuine(aead: Aead, ss: seq<Session>, xs: seq<Event>): seq<Event> {
    if xs == [] then [] else
    OnlyGenuine(aead, ss, xs[..|xs| - 1])
    + (if Counts(aead, ss, xs[|xs| - 1]) then [xs[|xs| - 1]] else [])
  }

  /** The plaintexts that came out, in order. */
  ghost function Delivered(outs: seq<Option<Bytes>>): seq<Bytes> {
    if outs == [] then [] else
    Delivered(outs[..|outs| - 1]) + (if outs[|outs| - 1].Some? then [outs[|outs| - 1].value] else [])
  }

  /**
   Forged, garbled and unreadable packets change no window and so block nothing: with them taken
   out of the sequence, the same plaintexts come out in the same order and the same windows result.
   */
  lemma {:induction false} ForgeriesAreInvisible(aead: Aead, ss: seq<Session>, xs: seq<Event>)
    ensures var kept := OnlyGenuine(aead, ss, xs);
      && Feed(aead, ss, xs).0 == Feed(aead, ss, kept).0
      && Delivered(Feed(aead, ss, xs).1) == Delivered(Feed(aead, ss, kept).1)
  {
    if xs != [] {
      var init, e := xs[..|xs| - 1], xs[|xs| - 1];
      ForgeriesAreInvisible(aead, ss, init);
      var kept := OnlyGenuine(aead, ss, init);
      assert init + [e] == xs;
      LastOut(aead, ss, init, e);
      if Counts(aead, ss, e) {
        LastOut(aead, ss, kept, e);
      } else {
        FeedKeepsNames(aead, ss, init);
        ForgedIsDropped(aead, ss, Feed(aead, ss, init).0, e);
        assert kept + [] == kept;
      }
    }
  }

  /** A packet that does not authenticate and unframe yields nothing and touches no window. */
  lemma ForgedIsDropped(aead: Aead, ss: seq<Session>, ts: seq<Session>, e: Event)
    requires SameNames(ss, ts) && !Counts(aead, ss, e)
    ensures var o := React(aead, ts, e); o.sessions == ts && o.plain == None
  {
    if e.p.Data? {
      MatchingByName(ss, ts, e.p.hash);
      var i := Matching(ss, e.p.hash);
      if i < |ss| { assert Plain(aead, ss[i], e.p) == Plain(aead, ts[i], e.p); }
    }
  }

  lemma LastOut(aead: Aead, ss: seq<Session>, init: seq<Event>, e: Event)
    ensures var o := React(aead, Feed(aead, ss, init).0, e);
      && Feed(aead, ss, init + [e]).0 == o.sessions
      && Delivered(Feed(aead, ss, init + [e]).1)
         == Delivered(Feed(aead, ss, init).1) + (if o.plain.Some? then [o.plain.value] else [])
  {
    assert (init + [e])[..|init|] == init;
    var outs := Feed(aead, ss, init + [e]).1;
    assert outs[..|init|] == Feed(aead, ss, init).1;
  }

  // ---- One sealed frame, two arrivals ----

  /** `q` is the frame `p` with any counter in its header. */
  ghost predicate Variant(p: Packet, q: Packet) {
    p.Data? && q.Data? && q == p.(counter := q.counter)
  }

  /** The sealed frame `p` yields its plaintext at events `i` and `j`. */
  ghost predicate YieldsAt(aead: Aead, ss: seq<Session>, p: Packet, xs: seq<Event>, i: nat, j: nat) {
    && i < j < |xs| && xs[i].Arrive? && xs[j].Arrive? && Variant(p, xs[i].p) && Variant(p, xs[j].p)
    && Feed(aead, ss, xs).1[i].Some? && Feed(aead, ss, xs).1[j].Some?
  }

  /** In some run from fresh windows, one sealed frame yields its plaintext twice. */
  ghost predicate YieldsTwice(aead: Aead, ss: seq<Session>, p: Packet) {
    exists xs, i, j :: YieldsAt(aead, ss, p, xs, i, j)
  }

  /** The same without the session's window being emptied in between. */
  ghost predicate YieldsTwiceUnreset(aead: Aead, ss: seq<Session>, p: Packet) {
    p.Data? && exists xs, i, j :: YieldsAt(aead, ss, p, xs, i, j) && !ResetBetween(xs, i, j, Matching(ss, p.hash))
  }

  /** Two variants of one frame with different counters, both genuine, both yield on fresh windows. */
  lemma BothYield(aead: Aead, ss: seq<Session>, p: Packet, q: Packet)
    requires AllFresh(ss) && Variant(p, q) && p.counter < q.counter && Genuine(aead, ss, p) && Genuine(aead, ss, q)
    ensures var out := Feed(aead, ss, [Arrive(p, true), Arrive(q, true)]).1; out[0].Some? && out[1].Some?
  {
    var xs := [Arrive(p, true), Arrive(q, true)];
    var i := Matching(ss, p.hash);
    assert xs[..0] == [] && xs[..1][..0] == [] && xs[..1][0] == xs[0];
    assert Seen(aead, ss, xs[..1], i) <= {p.counter};
    YieldsAtIff(aead, ss, xs, 0);
    YieldsAtIff(aead, ss, xs, 1);
  }

  /** Between two resets, a sealed frame yields twice exactly when it opens under two different header counters. */
  lemma YieldsTwiceUnresetIff(aead: Aead, ss: seq<Session>, p: Packet)
    requires AllFresh(ss) && p.Data?
    ensures YieldsTwiceUnreset(aead, ss, p) <==>
      exists c: nat, d: nat :: c < d && Genuine(aead, ss, p.(counter := c)) && Genuine(aead, ss, p.(counter := d))
  {
    var s := Matching(ss, p.hash);
    if YieldsTwiceUnreset(aead, ss, p) {
      var xs: seq<Event>, i: nat, j: nat :| YieldsAt(aead, ss, p, xs, i, j) && !ResetBetween(xs, i, j, s);
      YieldsAtIff(aead, ss, xs, i);
      YieldsAtIff(aead, ss, xs, j);
      AtMostOncePerCounter(aead, ss, xs, i, j, s);
      var c, d := xs[i].p.counter, xs[j].p.counter;
      assert xs[i].p == p.(counter := c) && xs[j].p == p.(counter := d);
    }
    if c: nat, d: nat :| c < d && Genuine(aead, ss, p.(counter := c)) && Genuine(aead, ss, p.(counter := d)) {
      BothYield(aead, ss, p.(counter := c), p.(counter := d));
      var xs := [Arrive(p.(counter := c), true), Arrive(p.(counter := d), true)];
      assert YieldsAt(aead, ss, p, xs, 0, 1) && !ResetBetween(xs, 0, 1, s);
    }
  }

  /** With resets, it does exactly when it opens at all. */
  lemma YieldsTwiceIff(aead: Aead, ss: seq<Session>, p: Packet)
    requires AllFresh(ss) && p.Data?
    ensures YieldsTwice(aead, ss, p) <==> exists c: nat :: Genuine(aead, ss, p.(counter := c))
  {
    if YieldsTwice(aead, ss, p) {
      var xs: seq<Event>, i: nat, j: nat :| YieldsAt(aead, ss, p, xs, i, j);
      YieldsAtIff(aead, ss, xs, i);
      assert xs[i].p == p.(counter := xs[i].p.counter);
    }
    if c: nat :| Genuine(aead, ss, p.(counter := c)) {
      var q := p.(counter := c);
      ResetYieldsAgain(aead, ss, q);
      assert YieldsAt(aead, ss, p, [Arrive(q, true), Reset(Matching(ss, q.hash)), Arrive(q, true)], 0, 2);
    }
  }

  /** Opening does not look at the counter: neither nonce nor associated data contains it. */
  ghost predicate IgnoresCounter(aead: Aead) {
    forall key: nat, dir: bool, p: Packet, c: nat :: p.Data? ==> aead(key, dir, p.(counter := c)) == aead(key, dir, p)
  }

  /** So here every genuine frame yields again under a rewritten counter, without any reset. */
  lemma RewrittenCounterYieldsAgain(aead: Aead, ss: seq<Session>, p: Packet)
    requires AllFresh(ss) && IgnoresCounter(aead) && Genuine(aead, ss, p)
    ensures YieldsTwiceUnreset(aead, ss, p)
  {
    var q := p.(counter := p.counter + 1);
    assert p == p.(counter := p.counter);
    var s := ss[Matching(ss, p.hash)];
    assert Plain(aead, s, q) == Plain(aead, s, p);
    assert Genuine(aead, ss, q);
    YieldsTwiceUnresetIff(aead, ss, p);
  }
}
