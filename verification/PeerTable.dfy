/** The two tables every handshake, goodbye and clean-up edits: peer addresses and live sessions. */
module PeerTable {
  import opened Common

  datatype Ip = V4(a: Byte, b: Byte, c: Byte, d: Byte) | V6(words: seq<nat>)

  datatype Endpoint = Endpoint(ip: Ip, port: nat)

  type Fingerprint = string

  const V6_LOOPBACK: seq<nat> := [0, 0, 0, 0, 0, 0, 0, 1]

  /** `is_single_device_ip`: an address that only one device of a network can have at a time. */
  predicate SingleDevice(ip: Ip) {
    match ip
    case V4(a, b, _, _) =>
      a != 127
      && (a == 10 || (a == 172 && 16 <= b < 32) || (a == 192 && b == 168)
          || (a == 100 && 64 <= b < 128) || (a == 169 && b == 254))
    case V6(w) => w != V6_LOOPBACK
  }

  /** Two peers at these endpoints cannot both be real. */
  predicate Clash(x: Endpoint, y: Endpoint) {
    x == y || (SingleDevice(x.ip) && x.ip == y.ip)
  }

  datatype Tables<S> = Tables(addrs: map<Fingerprint, Endpoint>, sessions: map<Fingerprint, S>)

  ghost function Stale<S>(t: Tables<S>, fp: Fingerprint, src: Endpoint): set<Fingerprint> {
    set f | f in t.addrs && f != fp && Clash(src, t.addrs[f])
  }

  ghost function Registered<S>(t: Tables<S>, fp: Fingerprint, src: Endpoint, s: S): Tables<S> {
    var stale := Stale(t, fp, src);
    Tables((t.addrs - stale)[fp := src], (t.sessions - stale)[fp := s])
  }

  ghost function Removed<S>(t: Tables<S>, fp: Fingerprint): Tables<S> {
    Tables(t.addrs - {fp}, t.sessions - {fp})
  }

  /** A failed second-stage authentication drops the session alone and leaves the address. */
  ghost function Dropped<S>(t: Tables<S>, fp: Fingerprint): Tables<S> {
    t.(sessions := t.sessions - {fp})
  }

  ghost function Cleaned<S>(t: Tables<S>, expired: set<Fingerprint>): Tables<S> {
    var live := t.sessions - expired;
    Tables(map f | f in t.addrs && f in live :: t.addrs[f], live)
  }

  class PeerTables<S> {
    var addrs: map<Fingerprint, Endpoint>
    var sessions: map<Fingerprint, S>

    ghost function State(): Tables<S>
      reads this
    {
      Tables(addrs, sessions)
    }

    constructor ()
      ensures State() == Tables(map[], map[])
    {
      addrs, sessions := map[], map[];
    }

    method RegisterPeerSession(fp: Fingerprint, src: Endpoint, session: S)
      modifies this
      ensures State() == Registered(old(State()), fp, src, session)
    {
      var stale := set f | f in addrs && f != fp && Clash(src, addrs[f]);
      var todo := stale;
      while todo != {}
        invariant todo <= stale
        invariant addrs == old(addrs) - (stale - todo) && sessions == old(sessions) - (stale - todo)
        decreases |todo|
      {
        var f :| f in todo;
        addrs := addrs - {f};
        sessions := sessions - {f};
        todo := todo - {f};
      }
      assert stale - todo == stale;
      addrs := addrs[fp := src];
      sessions := sessions[fp := session];
    }

    method Goodbye(fp: Fingerprint)
      modifies this
      ensures State() == Removed(old(State()), fp)
    {
      sessions := sessions - {fp};
      addrs := addrs - {fp};
    }

    method DropSession(fp: Fingerprint)
      modifies this`sessions
      ensures State() == Dropped(old(State()), fp)
    {
      sessions := sessions - {fp};
    }

    method Disconnect()
      modifies this
      ensures State() == Tables(map[], map[])
    {
      sessions := map[];
      addrs := map[];
    }

    /** One clean-up tick: retain valid sessions, then addresses that still have one. */
    method CleanUp(expired: set<Fingerprint>)
      modifies this
      ensures State() == Cleaned(old(State()), expired)
    {
      addrs := addrs - (set f | f in sessions && f in expired);
      sessions := map f | f in sessions && f !in expired :: sessions[f];
      addrs := map f | f in addrs && f in sessions :: addrs[f];
      assert sessions == old(sessions) - expired;
      assert addrs == Cleaned(old(State()), expired).addrs;
    }
  }

  // ---- Over every sequence of steps ----

  datatype Event<S> =
    | Register(fp: Fingerprint, src: Endpoint, session: S)
    | Bye(fp: Fingerprint)
    | Evict(fp: Fingerprint)
    | Leave
    | Tick(expired: set<Fingerprint>)

  ghost function Next<S>(t: Tables<S>, e: Event<S>): Tables<S> {
    match e
    case Register(fp, src, s) => Registered(t, fp, src, s)
    case Bye(fp) => Removed(t, fp)
    case Evict(fp) => Dropped(t, fp)
    case Leave => Tables(map[], map[])
    case Tick(expired) => Cleaned(t, expired)
  }

  ghost function Run<S>(events: seq<Event<S>>): Tables<S> {
    if events == [] then Tables(map[], map[]) else Next(Run(events[..|events| - 1]), events[|events| - 1])
  }

  ghost predicate Consistent<S>(t: Tables<S>) {
    && (forall f, g :: f in t.addrs && g in t.addrs && f != g ==> !Clash(t.addrs[f], t.addrs[g]))
    && t.sessions.Keys <= t.addrs.Keys
  }

  lemma NextKeeps<S>(t: Tables<S>, e: Event<S>)
    requires Consistent(t)
    ensures Consistent(Next(t, e))
  {
    var u := Next(t, e);
    if e.Register? {
      forall f, g | f in u.addrs && g in u.addrs && f != g ensures !Clash(u.addrs[f], u.addrs[g]) {
        assert f != e.fp ==> f !in Stale(t, e.fp, e.src);
        assert g != e.fp ==> g !in Stale(t, e.fp, e.src);
      }
    }
  }

  lemma {:induction false} RunKeeps<S>(events: seq<Event<S>>)
    ensures Consistent(Run(events))
  {
    if events != [] {
      RunKeeps(events[..|events| - 1]);
      NextKeeps(Run(events[..|events| - 1]), events[|events| - 1]);
    }
  }

  /**
   However peers register, leave, are evicted and expire: two fingerprints never share an endpoint
   or a single-device address, every session has an address, and a tick leaves the tables level.
   */
  lemma {:induction false} TablesStayConsistent<S>(events: seq<Event<S>>, f: Fingerprint, g: Fingerprint)
    ensures var t := Run(events);
      && t.sessions.Keys <= t.addrs.Keys
      && (f in t.addrs && g in t.addrs && f != g ==>
            t.addrs[f] != t.addrs[g] && (SingleDevice(t.addrs[f].ip) ==> t.addrs[f].ip != t.addrs[g].ip))
      && (events != [] && events[|events| - 1].Tick? ==> t.addrs.Keys == t.sessions.Keys)
  {
    RunKeeps(events);
    if events != [] && events[|events| - 1].Tick? {
      RunKeeps(events[..|events| - 1]);
    }
  }

  // ---- Who is in the tables ----

  /** Whether this step puts `f` at `e` with session `s`. */
  ghost predicate Puts<S>(ev: Event<S>, f: Fingerprint, e: Endpoint, s: S) {
    ev.Register? && ev.fp == f && ev.src == e && ev.session == s
  }

  /** Whether this step ends the session of `f`, given where `f` was. */
  ghost predicate Ends<S>(ev: Event<S>, f: Fingerprint, e: Endpoint) {
    match ev
    case Register(fp, src, _) => fp == f || src == e || (src.ip == e.ip && SingleDevice(e.ip))
    case Bye(fp) => fp == f
    case Evict(fp) => fp == f
    case Leave => true
    case Tick(expired) => f in expired
  }

  /** The registration of `f` at `e` with `s` in step `i` was not undone by any later step. */
  ghost predicate Stands<S>(events: seq<Event<S>>, f: Fingerprint, e: Endpoint, s: S, i: nat) {
    && i < |events| && Puts(events[i], f, e, s)
    && forall j :: i < j < |events| ==> !Ends(events[j], f, e)
  }

  ghost predicate Standing<S>(events: seq<Event<S>>, f: Fingerprint, e: Endpoint, s: S) {
    exists i :: Stands(events, f, e, s, i)
  }

  ghost predicate LiveAt<S>(t: Tables<S>, f: Fingerprint, e: Endpoint, s: S) {
    f in t.sessions && f in t.addrs && t.addrs[f] == e && t.sessions[f] == s
  }

  /** One step makes a session live, or leaves it live, or ends it. */
  lemma LiveStep<S>(t: Tables<S>, ev: Event<S>, f: Fingerprint, e: Endpoint, s: S)
    requires Consistent(t)
    ensures LiveAt(Next(t, ev), f, e, s) <==> Puts(ev, f, e, s) || (LiveAt(t, f, e, s) && !Ends(ev, f, e))
  {
    if ev.Register? && ev.fp != f {
      assert f in t.addrs ==> (f in Stale(t, ev.fp, ev.src) <==> Clash(ev.src, t.addrs[f]));
    }
  }

  lemma StandingStep<S>(events: seq<Event<S>>, init: seq<Event<S>>, ev: Event<S>, f: Fingerprint, e: Endpoint, s: S)
    requires events == init + [ev]
    ensures Standing(events, f, e, s) <==> Puts(ev, f, e, s) || (Standing(init, f, e, s) && !Ends(ev, f, e))
  {
    var last := |init|;
    assert events[last] == ev && forall j :: 0 <= j < last ==> events[j] == init[j];
    if Puts(ev, f, e, s) {
      assert Stands(events, f, e, s, last);
    } else {
      forall i: nat ensures Stands(events, f, e, s, i) <==> Stands(init, f, e, s, i) && !Ends(ev, f, e) {
        StandsStep(events, init, ev, f, e, s, i);
      }
    }
  }

  lemma StandsStep<S>(
    events: seq<Event<S>>, init: seq<Event<S>>, ev: Event<S>, f: Fingerprint, e: Endpoint, s: S, i: nat)
    requires events == init + [ev] && !Puts(ev, f, e, s)
    ensures Stands(events, f, e, s, i) <==> Stands(init, f, e, s, i) && !Ends(ev, f, e)
  {
    assert forall j :: 0 <= j < |init| ==> events[j] == init[j];
    assert events[|init|] == ev;
  }

  /**
   The session `s` of `f` is live at `e` exactly when a registration put just that session there and
   no later goodbye, eviction, expiry, or registration of `f` or of a clashing endpoint ended it.
   */
  lemma {:induction false} LiveIffStanding<S>(events: seq<Event<S>>, f: Fingerprint, e: Endpoint, s: S)
    ensures LiveAt(Run(events), f, e, s) <==> Standing(events, f, e, s)
  {
    if events != [] {
      var last := |events| - 1;
      var init, ev := events[..last], events[last];
      assert events == init + [ev];
      LiveIffStanding(init, f, e, s);
      RunKeeps(init);
      LiveStep(Run(init), ev, f, e, s);
      StandingStep(events, init, ev, f, e, s);
    }
  }

  /** Whether this step, taken in these tables, forgets the address `e` of `f`. */
  ghost predicate Forgets<S>(t: Tables<S>, ev: Event<S>, f: Fingerprint, e: Endpoint) {
    match ev
    case Register(fp, src, _) => fp == f || src == e || (src.ip == e.ip && SingleDevice(e.ip))
    case Bye(fp) => fp == f
    case Evict(_) => false
    case Leave => true
    case Tick(expired) => f in expired || f !in t.sessions
  }

  ghost predicate Known<S>(t: Tables<S>, f: Fingerprint, e: Endpoint) {
    f in t.addrs && t.addrs[f] == e
  }

  /**
   An address outlives its session: it is there exactly when the step put it there, or it was there and
   the step did not forget it.  A dropped session keeps its address until the next tick.
   */
  lemma KnownStep<S>(t: Tables<S>, ev: Event<S>, f: Fingerprint, e: Endpoint)
    ensures Known(Next(t, ev), f, e) <==>
      (ev.Register? && ev.fp == f && ev.src == e) || (Known(t, f, e) && !Forgets(t, ev, f, e))
  {
    if ev.Register? && ev.fp != f {
      assert f in t.addrs ==> (f in Stale(t, ev.fp, ev.src) <==> Clash(ev.src, t.addrs[f]));
    }
  }

  // ---- Which addresses only one device can have ----

  /** An IPv4 address as a number, and membership in a network of `2^(32 - bits)` addresses. */
  ghost function Number(a: nat, b: nat, c: nat, d: nat): nat { ((a * 256 + b) * 256 + c) * 256 + d }

  ghost predicate InBlock(n: nat, base: nat, size: nat) { base <= n < base + size }

  /** 10.0.0.0/8, 172.16.0.0/12, 192.168.0.0/16, 100.64.0.0/10 and 169.254.0.0/16, and nothing else. */
  lemma SingleDeviceIff(a: Byte, b: Byte, c: Byte, d: Byte)
    ensures var n := Number(a, b, c, d);
      SingleDevice(V4(a, b, c, d)) <==>
        || InBlock(n, Number(10, 0, 0, 0), 0x100_0000)
        || InBlock(n, Number(172, 16, 0, 0), 0x10_0000)
        || InBlock(n, Number(192, 168, 0, 0), 0x1_0000)
        || InBlock(n, Number(100, 64, 0, 0), 0x40_0000)
        || InBlock(n, Number(169, 254, 0, 0), 0x1_0000)
  {
  }

  /** Every IPv6 address but the loopback. */
  lemma SingleDeviceV6Iff(words: seq<nat>)
    ensures SingleDevice(V6(words)) <==> words != [0, 0, 0, 0, 0, 0, 0, 1]
  {
  }
}
