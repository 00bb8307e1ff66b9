/**
 Source-routed relaying: the `RLY!` envelope, the nested onion for a route, and what a relay
 does with a packet it decrypted.
 */
module Relay {
  import opened Common

  const RELAY_MAGIC: Bytes := [82, 76, 89, 33]
  const HOP_LIMIT := 0x1_0000_0000
  const MAX_HOPS := 5
  const NAME_LEN := 32
  const HEADER_LEN := 40

  function Be32(n: nat): (b: Bytes)
    ensures |b| == 4
  {
    [(n / 0x100_0000) % 256, (n / 0x1_0000) % 256, (n / 256) % 256, n % 256]
  }

  function ReadBe32(b: Bytes): (n: nat)
    requires |b| == 4
    ensures n < HOP_LIMIT
  {
    var b0: nat, b1: nat, b2: nat, b3: nat := b[0], b[1], b[2], b[3];
    b0 * 0x100_0000 + b1 * 0x1_0000 + b2 * 256 + b3
  }

  lemma Be32RoundTrip(n: nat)
    requires n < HOP_LIMIT
    ensures ReadBe32(Be32(n)) == n
  {
    var q := n / 256;
    var p := q / 256;
    assert n / 0x1_0000 == p && n / 0x100_0000 == p / 256;
  }

  /** The byte that counts for most comes first. */
  lemma Be32Digits(a: Byte, b: Byte, c: Byte, d: Byte)
    ensures Be32(0x100_0000 * a + 0x1_0000 * b + 0x100 * c + d) == [a, b, c, d]
  {
    var low: nat := 0x1_0000 * b + 0x100 * c + d;
    var n := 0x100_0000 * a + low;
    assert n / 0x100_0000 == a && n / 0x1_0000 == 256 * a + b && n / 256 == 65536 * a + 256 * b + c;
  }

  /** The envelope, byte by byte: `RLY!`, the hop count, the name in 32 bytes, and what is inside. */
  lemma EnvelopeIs(next: Bytes, hops: nat, inner: Bytes)
    requires |next| <= 32
    ensures BuildRelay(next, hops, inner) == [82, 76, 89, 33] + Be32(hops) + (next + Zeros(32 - |next|)) + inner
  {
    assert |next| == 32 ==> next[..32] == next && next + Zeros(0) == next;
  }

  /** A fingerprint in its null-padded field; longer ones are cut. */
  function NameField(fp: Bytes): (f: Bytes)
    ensures |f| == NAME_LEN
  {
    if |fp| >= NAME_LEN then fp[..NAME_LEN] else fp + Zeros(NAME_LEN - |fp|)
  }

  function CutAtNull(f: Bytes): (fp: Bytes)
    ensures fp <= f && 0 !in fp
  {
    if f == [] || f[0] == 0 then [] else [f[0]] + CutAtNull(f[1..])
  }

  function BuildRelay(next: Bytes, hops: nat, inner: Bytes): (p: Bytes)
    ensures |p| == HEADER_LEN + |inner|
  {
    RELAY_MAGIC + Be32(hops) + NameField(next) + inner
  }

  datatype Header = Header(hops: nat, next: Bytes, inner: Bytes)

  /** `parse_relay_header`; `utf8` is the lossy decoding of a fingerprint, whatever it does. */
  function ParseRelay(utf8: Bytes -> Bytes, p: Bytes): (h: Option<Header>)
    ensures h.Some? ==> |p| >= 44 && h.value.inner == p[HEADER_LEN..] && h.value.hops < HOP_LIMIT
  {
    if |p| < 44 || p[..4] != RELAY_MAGIC then None
    else Some(Header(ReadBe32(p[4..8]), utf8(CutAtNull(p[8..40])), p[HEADER_LEN..]))
  }

  /** A fingerprint as nodes have them: printable, not empty, and short enough for its field. */
  ghost predicate Plain(fp: Bytes) {
    0 < |fp| <= NAME_LEN && forall i :: 0 <= i < |fp| ==> 0 < fp[i] < 128
  }

  /** Lossy decoding leaves ASCII alone. */
  ghost predicate KeepsAscii(utf8: Bytes -> Bytes) {
    forall fp :: Plain(fp) ==> utf8(fp) == fp
  }

  lemma {:induction false} CutPadded(fp: Bytes, n: nat)
    requires 0 !in fp
    ensures CutAtNull(fp + Zeros(n)) == fp
  {
    if fp == [] {
      assert fp + Zeros(n) == Zeros(n);
    } else {
      assert (fp + Zeros(n))[1..] == fp[1..] + Zeros(n);
      CutPadded(fp[1..], n);
    }
  }

  /** What is built is parsed back, provided there are at least four bytes inside. */
  lemma ParseBuilt(utf8: Bytes -> Bytes, next: Bytes, hops: nat, inner: Bytes)
    requires KeepsAscii(utf8) && Plain(next) && hops < HOP_LIMIT
    ensures ParseRelay(utf8, BuildRelay(next, hops, inner))
            == if |inner| >= 4 then Some(Header(hops, next, inner)) else None
  {
    var p := BuildRelay(next, hops, inner);
    assert p[..4] == RELAY_MAGIC;
    assert p[4..8] == Be32(hops);
    Be32RoundTrip(hops);
    assert NameField(next) == next + Zeros(NAME_LEN - |next|);
    assert p[8..40] == NameField(next);
    CutPadded(next, NAME_LEN - |next|);
    assert p[HEADER_LEN..] == inner;
  }

  /** A name that is too long for its field is cut to it. */
  lemma LongNameIsCut(utf8: Bytes -> Bytes, next: Bytes, hops: nat, inner: Bytes)
    requires KeepsAscii(utf8) && |next| >= 32 && Plain(next[..32]) && hops < HOP_LIMIT && |inner| >= 4
    ensures ParseRelay(utf8, BuildRelay(next, hops, inner)) == Some(Header(hops, next[..32], inner))
  {
    assert BuildRelay(next, hops, inner) == BuildRelay(next[..32], hops, inner);
    ParseBuilt(utf8, next[..32], hops, inner);
  }

  /** A built packet's counter is read back whatever the name is. */
  lemma BuiltHops(utf8: Bytes -> Bytes, next: Bytes, hops: nat, inner: Bytes)
    requires hops < HOP_LIMIT && |inner| >= 4
    ensures ParseRelay(utf8, BuildRelay(next, hops, inner)).Some?
    ensures ParseRelay(utf8, BuildRelay(next, hops, inner)).value.hops == hops
  {
    var p := BuildRelay(next, hops, inner);
    assert p[..4] == RELAY_MAGIC;
    assert p[4..8] == Be32(hops);
    Be32RoundTrip(hops);
  }
}

/** Relays passing packets on; what they use of the envelope is stated as laws of its two halves. */
module Relaying {
  import opened Common
  import opened ErasureCode
  import opened Framing
  import opened Relay

  /**
   The network as relays see it: `reach(a, b)` is the node that a packet leaves `a` for when its
   header names `b`, or `None` when `a` has no address or session for it or refuses to forward.
   `carry` is what arrives of a packet at the next node, and `limit` the most that does.
   */
  datatype Net = Net(
    reach: (Bytes, Bytes) -> Option<Bytes>,
    parse: Bytes -> Option<Header>,
    build: (Bytes, nat, Bytes) -> Bytes,
    carry: Bytes -> Option<Bytes>,
    limit: nat)

  /** The network that speaks the `RLY!` envelope. */
  function RlyNet(
    reach: (Bytes, Bytes) -> Option<Bytes>, utf8: Bytes -> Bytes, carry: Bytes -> Option<Bytes>, limit: nat): Net
  {
    Net(reach, (p: Bytes) => ParseRelay(utf8, p), BuildRelay, carry, limit)
  }

  ghost predicate Sized(net: Net) {
    && (forall p :: net.parse(p).Some? ==>
          |p| >= 44 && |net.parse(p).value.inner| == |p| - HEADER_LEN && net.parse(p).value.hops < HOP_LIMIT)
    && (forall next, hops: nat, inner :: |net.build(next, hops, inner)| == HEADER_LEN + |inner|)
    && (forall next, hops: nat, inner :: |inner| >= 4 && hops < HOP_LIMIT ==>
          net.parse(net.build(next, hops, inner)).Some? && net.parse(net.build(next, hops, inner)).value.hops == hops)
  }

  /** Packets within the limit arrive as they are, and others do not arrive. */
  ghost predicate Carries(net: Net) {
    CarriesUpTo(net.carry, net.limit)
  }

  ghost predicate ReadsBack(net: Net) {
    forall next, hops: nat, inner :: Plain(next) && hops < HOP_LIMIT ==>
      net.parse(net.build(next, hops, inner)) == if |inner| >= 4 then Some(Header(hops, next, inner)) else None
  }

  lemma RlyIsSized(
    reach: (Bytes, Bytes) -> Option<Bytes>, utf8: Bytes -> Bytes, carry: Bytes -> Option<Bytes>, limit: nat)
    ensures Sized(RlyNet(reach, utf8, carry, limit))
  {
    var net := RlyNet(reach, utf8, carry, limit);
    forall next, hops: nat, inner | |inner| >= 4 && hops < HOP_LIMIT
      ensures var h := net.parse(net.build(next, hops, inner)); h.Some? && h.value.hops == hops
    {
      BuiltHops(utf8, next, hops, inner);
    }
  }

  lemma RlyReadsBack(
    reach: (Bytes, Bytes) -> Option<Bytes>, utf8: Bytes -> Bytes, carry: Bytes -> Option<Bytes>, limit: nat)
    requires KeepsAscii(utf8)
    ensures ReadsBack(RlyNet(reach, utf8, carry, limit))
  {
    var net := RlyNet(reach, utf8, carry, limit);
    forall next, hops: nat, inner | Plain(next) && hops < HOP_LIMIT
      ensures net.parse(net.build(next, hops, inner)) == if |inner| >= 4 then Some(Header(hops, next, inner)) else None
    {
      ParseBuilt(utf8, next, hops, inner);
    }
  }

  /** A packet on its way to a node. */
  datatype Stop = Stop(at: Bytes, packet: Bytes)

  /** What the node makes of the packet when it arrives. */
  function Arrival(net: Net, s: Stop): Option<Header> {
    var p := net.carry(s.packet);
    if p.None? then None else net.parse(p.value)
  }

  /** What a relay sends on, or `None` when the packet goes no further. */
  function Forward(net: Net, s: Stop): (r: Option<Stop>) {
    var h := Arrival(net, s);
    if h.None? || h.value.hops == 0 then None else
    var next := net.reach(s.at, h.value.next);
    if next.None? then None else
    Some(Stop(next.value,
      if h.value.hops > 1 then
        if net.parse(h.value.inner).Some? then h.value.inner
        else net.build(h.value.next, h.value.hops - 1, h.value.inner)
      else net.build(h.value.next, 0, h.value.inner)))
  }

  ghost function Iterate(f: Stop -> Option<Stop>, s: Stop, n: nat): Option<Stop>
    decreases n
  {
    if n == 0 then Some(s) else if f(s).None? then None else Iterate(f, f(s).value, n - 1)
  }

  /** Where a packet is after `n` forwards, if it got that far. */
  ghost function After(net: Net, s: Stop, n: nat): Option<Stop> {
    Iterate((t: Stop) => Forward(net, t), s, n)
  }

  lemma {:induction false} IterateBounded(f: Stop -> Option<Stop>, w: Stop -> nat, s: Stop, n: nat)
    requires Iterate(f, s, n).Some? && forall t :: f(t).Some? ==> w(f(t).value) < w(t)
    ensures n <= w(s)
    decreases n
  {
    if n > 0 { IterateBounded(f, w, f(s).value, n - 1); }
  }

  lemma {:induction false} IterateChain(f: Stop -> Option<Stop>, stops: seq<Stop>)
    requires stops != [] && forall i :: 0 <= i < |stops| - 1 ==> f(stops[i]) == Some(stops[i + 1])
    ensures Iterate(f, stops[0], |stops| - 1) == Some(stops[|stops| - 1])
  {
    if |stops| > 1 {
      assert f(stops[0]) == Some(stops[1]);
      IterateChain(f, stops[1..]);
    }
  }

  lemma {:induction false} IterateLast(f: Stop -> Option<Stop>, ok: Stop -> bool, s: Stop, n: nat)
    requires n > 0 && Iterate(f, s, n).Some? && forall t :: f(t).Some? ==> ok(f(t).value)
    ensures ok(Iterate(f, s, n).value)
    decreases n
  {
    if n > 1 { IterateLast(f, ok, f(s).value, n - 1); }
  }

  /** Whole layers of 40 bytes first, then the hop counter of the outermost one. */
  ghost function Weight(net: Net, p: Bytes): nat {
    var h := net.parse(p);
    if h.None? then 0 else (|p| / HEADER_LEN) * HOP_LIMIT + h.value.hops
  }

  lemma ForwardDescends(net: Net, s: Stop)
    requires Sized(net) && Carries(net) && Forward(net, s).Some?
    ensures Weight(net, Forward(net, s).value.packet) < Weight(net, s.packet)
    ensures |Forward(net, s).value.packet| >= 44
  {
    var h := net.parse(s.packet).value;
    var q := |s.packet| / HEADER_LEN;
    if h.hops > 1 && net.parse(h.inner).Some? {
      assert |h.inner| / HEADER_LEN == q - 1;
      assert (q - 1) * HOP_LIMIT + HOP_LIMIT == q * HOP_LIMIT;
    }
  }

  /** Every packet, well formed or not, on every network, is forwarded at most `Weight` times. */
  lemma ForwardedFinitelyOften(net: Net, s: Stop, n: nat)
    requires Sized(net) && Carries(net) && After(net, s, n).Some?
    ensures n <= Weight(net, s.packet)
  {
    var f, w := (t: Stop) => Forward(net, t), (t: Stop) => Weight(net, t.packet);
    forall t | f(t).Some? ensures w(f(t).value) < w(t) { ForwardDescends(net, t); }
    IterateBounded(f, w, s, n);
  }

  // ---- Onion routes ----

  /** The layers for `route[i..]` around the payload. */
  function Onion(net: Net, route: seq<Bytes>, i: nat, payload: Bytes): (p: Bytes)
    requires i <= |route|
    decreases |route| - i
  {
    if i == |route| then payload else net.build(route[i], |route| - i, Onion(net, route, i + 1, payload))
  }

  ghost predicate Distinct(route: seq<Bytes>) {
    forall i, j :: 0 <= i < j < |route| ==> route[i] != route[j]
  }

  ghost predicate RouteAccepted(route: seq<Bytes>) {
    2 <= |route| <= 6 && [] !in route && Distinct(route)
  }

  /** `build_onion_route`: the checks, then the layers from the destination backwards. */
  method BuildOnionRoute(net: Net, route: seq<Bytes>, payload: Bytes) returns (packet: Option<Bytes>)
    ensures packet.Some? <==> RouteAccepted(route)
    ensures packet.Some? ==> packet.value == Onion(net, route, 1, payload)
  {
    if |route| < 2 || |route| > MAX_HOPS + 1 || [] in route { return None; }
    for i := 0 to |route|
      invariant Distinct(route[..i])
    {
      if route[i] in route[..i] {
        assert !Distinct(route);
        return None;
      }
    }
    assert route[..|route|] == route;
    var inner := payload;
    var index := |route| - 1;
    while index >= 1
      invariant 0 <= index < |route|
      invariant inner == Onion(net, route, index + 1, payload)
    {
      inner := net.build(route[index], |route| - index, inner);
      index := index - 1;
    }
    packet := Some(inner);
  }

  /** Every node of the route can reach the one after it. */
  ghost predicate Connected(net: Net, route: seq<Bytes>) {
    && (forall i :: 0 <= i < |route| ==> Plain(route[i]))
    && forall i :: 0 <= i < |route| - 1 ==> net.reach(route[i], route[i + 1]) == Some(route[i + 1])
  }

  /** A relay peels its layer when another one is inside. */
  lemma ForwardPeels(net: Net, at: Bytes, next: Bytes, hops: nat, then': Bytes, inner: Bytes)
    requires Sized(net) && ReadsBack(net) && Carries(net)
    requires Plain(next) && Plain(then') && net.reach(at, next) == Some(next)
    requires 1 < hops < HOP_LIMIT && |inner| >= 4 && 2 * HEADER_LEN + |inner| <= net.limit
    ensures var p := net.build(then', hops - 1, inner);
      Forward(net, Stop(at, net.build(next, hops, p))) == Some(Stop(next, p))
  {
  }

  /** The last relay turns its layer into the zero-hop form. */
  lemma ForwardLast(net: Net, at: Bytes, next: Bytes, inner: Bytes)
    requires Sized(net) && ReadsBack(net) && Carries(net) && Plain(next) && net.reach(at, next) == Some(next)
    requires |inner| >= 4 && HEADER_LEN + |inner| <= net.limit
    ensures Forward(net, Stop(at, net.build(next, 1, inner))) == Some(Stop(next, net.build(next, 0, inner)))
  {
  }

  /** With nothing to peel, a relay keeps the header and counts one hop less; at zero hops nothing is sent on. */
  lemma ForwardRewraps(net: Net, at: Bytes, next: Bytes, hops: nat, inner: Bytes)
    requires Sized(net) && ReadsBack(net) && Carries(net) && Plain(next) && net.reach(at, next).Some?
    requires hops < HOP_LIMIT && |inner| >= 4 && net.parse(inner) == None && HEADER_LEN + |inner| <= net.limit
    ensures Forward(net, Stop(at, net.build(next, hops, inner))) ==
      if hops == 0 then None else Some(Stop(net.reach(at, next).value, net.build(next, hops - 1, inner)))
  {
  }

  /** Where the packet is after `i` forwards. */
  ghost function Leg(net: Net, route: seq<Bytes>, payload: Bytes, i: nat): Stop
    requires i < |route| <= MAX_HOPS + 1
  {
    Stop(route[i], if i + 1 < |route| then Onion(net, route, i + 1, payload) else net.build(route[i], 0, payload))
  }

  lemma {:induction false} OnionHolds(net: Net, route: seq<Bytes>, i: nat, payload: Bytes)
    requires Sized(net) && i <= |route|
    ensures |Onion(net, route, i, payload)| == HEADER_LEN * (|route| - i) + |payload|
    decreases |route| - i
  {
    if i < |route| { OnionHolds(net, route, i + 1, payload); }
  }

  /** The whole onion fits the link. */
  ghost predicate Fits(net: Net, route: seq<Bytes>, payload: Bytes) {
    |route| >= 1 && HEADER_LEN * (|route| - 1) + |payload| <= net.limit
  }

  lemma LegByLeg(net: Net, route: seq<Bytes>, payload: Bytes, i: nat)
    requires Sized(net) && ReadsBack(net) && Carries(net) && Connected(net, route)
    requires i + 1 < |route| <= MAX_HOPS + 1 && |payload| >= 4 && Fits(net, route, payload)
    ensures Forward(net, Leg(net, route, payload, i)) == Some(Leg(net, route, payload, i + 1))
  {
    if i + 2 < |route| {
      OnionHolds(net, route, i + 3, payload);
      ForwardPeels(net, route[i], route[i + 1], |route| - 1 - i, route[i + 2], Onion(net, route, i + 3, payload));
    } else {
      assert Onion(net, route, i + 2, payload) == payload;
      assert Onion(net, route, i + 1, payload) == net.build(route[i + 1], 1, payload);
      ForwardLast(net, route[i], route[i + 1], payload);
    }
  }

  lemma OnionTravels(net: Net, route: seq<Bytes>, payload: Bytes)
    requires Sized(net) && ReadsBack(net) && Carries(net) && Connected(net, route)
    requires 2 <= |route| <= MAX_HOPS + 1 && |payload| >= 4 && Fits(net, route, payload)
    ensures After(net, Leg(net, route, payload, 0), |route| - 1) == Some(Leg(net, route, payload, |route| - 1))
  {
    var f := (t: Stop) => Forward(net, t);
    var stops := seq(|route|, i requires 0 <= i < |route| => Leg(net, route, payload, i));
    forall i | 0 <= i < |stops| - 1 ensures f(stops[i]) == Some(stops[i + 1]) {
      LegByLeg(net, route, payload, i);
    }
    IterateChain(f, stops);
  }

  /** The packet is at the last hop after `n` forwards and is read there as `h`. */
  ghost predicate Delivered(net: Net, s: Stop, n: nat, last: Bytes, h: Header) {
    var r := After(net, s, n);
    r.Some? && r.value.at == last && Arrival(net, r.value) == Some(h)
  }

  lemma ShortNeverArrives(net: Net, s: Stop, n: nat, last: Bytes, h: Header)
    requires Sized(net) && Carries(net) && |h.inner| < 4
    ensures !Delivered(net, s, n, last, h)
  {
  }

  lemma LongNeverLeaves(net: Net, s: Stop, n: nat)
    requires Carries(net) && n > 0 && |s.packet| > net.limit
    ensures After(net, s, n) == None
  {
  }

  /**
   A packet built for a route is read at the last hop, after exactly route-length minus one forwards,
   with no hops left and its payload unchanged, exactly when the payload has four bytes or more and
   the whole onion fits the link.
   */
  lemma OnionDeliveredIff(net: Net, route: seq<Bytes>, payload: Bytes)
    requires Sized(net) && ReadsBack(net) && Carries(net) && Connected(net, route) && 2 <= |route| <= MAX_HOPS + 1
    ensures var last := route[|route| - 1];
      Delivered(net, Stop(route[0], Onion(net, route, 1, payload)), |route| - 1, last, Header(0, last, payload))
      <==> |payload| >= 4 && HEADER_LEN * (|route| - 1) + |payload| <= net.limit
  {
    var last, s := route[|route| - 1], Stop(route[0], Onion(net, route, 1, payload));
    OnionHolds(net, route, 1, payload);
    if |payload| < 4 {
      ShortNeverArrives(net, s, |route| - 1, last, Header(0, last, payload));
    } else if Fits(net, route, payload) {
      OnionTravels(net, route, payload);
      ReadAtLast(net, last, payload);
    } else {
      LongNeverLeaves(net, s, |route| - 1);
    }
  }

  lemma ReadAtLast(net: Net, last: Bytes, payload: Bytes)
    requires Sized(net) && ReadsBack(net) && Carries(net)
    requires Plain(last) && |payload| >= 4 && HEADER_LEN + |payload| <= net.limit
    ensures Arrival(net, Stop(last, net.build(last, 0, payload))) == Some(Header(0, last, payload))
  {
  }

  // ---- The end-to-end layer inside the onion ----

  /** The exit's key: one cipher for every nonce, of which nothing is assumed but of the one used. */
  type KeyedCipher = Bytes -> Cipher

  /** `wrap_onion_e2e`'s innermost payload: counter, nonce, and the frame sealed under that nonce. */
  function EndToEnd(key: KeyedCipher, counter: Bytes, nonce: Bytes, payload: Bytes): Bytes
    requires |counter| == 8 && |nonce| == 12
  {
    counter + nonce + key(nonce).seal(Frame(payload))
  }

  /** What the exit makes of the innermost payload. */
  datatype Received = Received(counter: Bytes, nonce: Bytes, payload: Bytes)

  /** It reads counter and nonce, and opens the rest under the nonce it read. */
  function ExitReads(key: KeyedCipher, inner: Bytes): Option<Received> {
    if |inner| < 36 then None else
    var counter, nonce := inner[..8], inner[8..20];
    var plain := key(nonce).open(inner[20..]);
    if plain.None? then None else
    var payload := FramePayload(plain.value);
    if payload.None? then None else Some(Received(counter, nonce, payload.value))
  }

  lemma EndToEndReads(key: KeyedCipher, counter: Bytes, nonce: Bytes, payload: Bytes)
    requires |counter| == 8 && |nonce| == 12 && Opens(key(nonce))
    ensures var inner := EndToEnd(key, counter, nonce, payload);
      && |inner| == 38 + |payload| + |payload| % 2
      && (|payload| <= 65535 ==> ExitReads(key, inner) == Some(Received(counter, nonce, payload)))
  {
    var inner, sealed := EndToEnd(key, counter, nonce, payload), key(nonce).seal(Frame(payload));
    FrameReads(payload);
    assert |sealed| == |Frame(payload)| + TAG_LEN;
    assert inner[..8] == counter && inner[8..20] == nonce && inner[20..] == sealed;
    FrameRoundTrip(payload);
  }

  /** The most that a circuit of this many hops takes at once. */
  function CircuitLimit(limit: nat, hops: nat): int {
    limit - HEADER_LEN * hops - 38
  }

  /** What is sent into a circuit. */
  datatype Shipment = Shipment(key: KeyedCipher, counter: Bytes, nonce: Bytes, payload: Bytes) {
    ghost predicate Valid() { |counter| == 8 && |nonce| == 12 && Opens(key(nonce)) }

    function Inner(): Bytes
      requires |counter| == 8 && |nonce| == 12
    {
      EndToEnd(key, counter, nonce, payload)
    }
  }

  /** The exit of a circuit reads counter, nonce and payload out of what arrives there. */
  ghost predicate CircuitDelivers(net: Net, route: seq<Bytes>, x: Shipment)
    requires 2 <= |route| && x.Valid()
  {
    var last := route[|route| - 1];
    && Delivered(net, Stop(route[0], Onion(net, route, 1, x.Inner())), |route| - 1, last, Header(0, last, x.Inner()))
    && ExitReads(x.key, x.Inner()) == Some(Received(x.counter, x.nonce, x.payload))
  }

  /**
   What is sent into a circuit comes out at its exit byte for byte exactly when, with its frame, tag,
   counter, nonce and one header per hop, it fits the link.
   */
  lemma CircuitDeliversIff(net: Net, route: seq<Bytes>, x: Shipment)
    requires Sized(net) && ReadsBack(net) && Carries(net) && net.limit % 2 == 0 && net.limit <= 65535
    requires Connected(net, route) && 2 <= |route| <= MAX_HOPS + 1
    requires x.Valid()
    ensures CircuitDelivers(net, route, x) <==> |x.payload| <= CircuitLimit(net.limit, |route| - 1)
  {
    EndToEndReads(x.key, x.counter, x.nonce, x.payload);
    OnionDeliveredIff(net, route, x.Inner());
    LimitIsEven(net.limit, |route| - 1, |x.payload|);
  }

  /** The limit is even, so the pad byte of an odd payload never makes the difference. */
  lemma LimitIsEven(limit: nat, hops: nat, n: nat)
    requires limit % 2 == 0
    ensures HEADER_LEN * hops + (38 + n + n % 2) <= limit <==> n <= CircuitLimit(limit, hops)
  {
  }

  /** The network with the `RLY!` envelope over the three-datagram hop is one that all of this is about. */
  lemma RlyIsANet(reach: (Bytes, Bytes) -> Option<Bytes>, utf8: Bytes -> Bytes, c: Code, s: Sealing)
    requires KeepsAscii(utf8) && Cancels(c) && Usable(s)
    ensures var net := RlyNet(reach, utf8, HopOf(c, s), HopLimit(s));
      Sized(net) && ReadsBack(net) && Carries(net) && net.limit == if s.Whole? then 894 else 878
  {
    HopLaw(c, s);
    RlyIsSized(reach, utf8, HopOf(c, s), HopLimit(s));
    RlyReadsBack(reach, utf8, HopOf(c, s), HopLimit(s));
  }

  /** A full batch of the stream pump: an id and as many bytes as are coalesced. */
  const FULL_BATCH := 854

  /** It is carried by one direct hop. */
  lemma FullBatchFitsDirectly(c: Code, s: Sealing, batch: Bytes, i: nat, j: nat)
    requires Cancels(c) && Usable(s) && i < 3 && j < 3 && i != j && |batch| == FULL_BATCH
    ensures Hop(c, s, batch, i, j) == Some(batch)
  {
    HopCarriesIff(c, s, batch, i, j);
  }

  /** And over a network of such hops it comes out of no circuit through a relay. */
  lemma FullBatchFitsNoCircuit(net: Net, s: Sealing, route: seq<Bytes>, x: Shipment)
    requires Sized(net) && ReadsBack(net) && Carries(net) && net.limit == HopLimit(s)
    requires Connected(net, route) && 2 <= |route| <= MAX_HOPS + 1 && x.Valid() && |x.payload| == FULL_BATCH
    ensures !CircuitDelivers(net, route, x)
  {
    CircuitDeliversIff(net, route, x);
  }
}
