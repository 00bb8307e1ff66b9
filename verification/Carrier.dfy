/** The multi-hop carrier of the WAN test mesh: `[hops][ip 4][port 2][rest]`, one hop peeled per carrier. */
module Carrier {
  import opened Common
  import opened ErasureCode

  const RECV_BUFFER := 4096
  const ADDR_LEN := 6

  /** A datagram on its way to an address (four bytes of IP, two of port). */
  datatype Sent = Sent(to: Bytes, data: Bytes)

  /** What reading a datagram into the receive buffer keeps of it. */
  function Received(d: Bytes): (r: Bytes)
    ensures r <= d && |r| <= RECV_BUFFER
  {
    if |d| <= RECV_BUFFER then d else d[..RECV_BUFFER]
  }

  /** What the last four bytes of a tampered payload are flipped with. */
  const MASKS: Bytes := [51, 85, 170, 255]

  /** The Byzantine mode flips bits in the last four bytes of a long enough payload. */
  function Corrupt(p: Bytes): (q: Bytes)
    requires |p| > 10
    ensures |q| == |p|
  {
    var n := |p| - 4;
    p[..n] + seq(4, i requires 0 <= i < 4 => XorByte(p[n + i], MASKS[i]))
  }

  method Tamper(p: Bytes) returns (q: Bytes)
    requires |p| > 10
    ensures q == Corrupt(p)
  {
    var n := |p|;
    q := p[n - 1 := XorByte(p[n - 1], 255)];
    q := q[n - 2 := XorByte(q[n - 2], 170)];
    q := q[n - 3 := XorByte(q[n - 3], 85)];
    q := q[n - 4 := XorByte(q[n - 4], 51)];
  }

  lemma CorruptAt(p: Bytes, i: nat)
    requires |p| > 10 && i < |p|
    ensures var q, n := Corrupt(p), |p| - 4;
      q[i] == if i < n then p[i] else XorByte(p[i], MASKS[i - n])
    ensures i >= |p| - 4 ==> Corrupt(p)[i] != p[i] && XorByte(Corrupt(p)[i], MASKS[i - (|p| - 4)]) == p[i]
  {
    if i >= |p| - 4 { XorByteFlips(p[i], MASKS[i - (|p| - 4)]); }
  }

  /** A tampered payload differs in each of its last four bytes and nowhere else, and tampering again restores it. */
  lemma CorruptAlters(p: Bytes)
    requires |p| > 10
    ensures forall i :: 0 <= i < |p| ==> (Corrupt(p)[i] != p[i] <==> i >= |p| - 4)
    ensures Corrupt(Corrupt(p)) == p
  {
    forall i | 0 <= i < |p| ensures (Corrupt(p)[i] != p[i] <==> i >= |p| - 4) && Corrupt(Corrupt(p))[i] == p[i] {
      CorruptAt(p, i);
      CorruptAt(Corrupt(p), i);
    }
  }

  function Relayed(d: Bytes, corrupt: bool): Option<Sent> {
    var buf := Received(d);
    if |buf| < 7 then None else
    var rest := buf[7..];
    var payload := if corrupt && |rest| > 10 then Corrupt(rest) else rest;
    Some(Sent(buf[1..7], if buf[0] > 1 then [buf[0] - 1] + payload else payload))
  }

  class CarrierNode {
    const tamper: bool
    var packets: nat

    constructor (tamper: bool)
      ensures this.tamper == tamper && packets == 0
    {
      this.tamper := tamper;
      packets := 0;
    }

    /** One turn of the receive loop. */
    method Receive(d: Bytes) returns (out: Option<Sent>)
      modifies this`packets
      ensures out == Relayed(d, tamper && packets % 3 == 0)
      ensures packets == if out.Some? then old(packets) + 1 else old(packets)
    {
      var buf := if |d| <= RECV_BUFFER then d else d[..RECV_BUFFER];
      if |buf| < 7 { return None; }
      packets := packets + 1;
      var hops: nat := buf[0];
      var payload := buf[7..];
      if tamper && packets % 3 == 0 && |payload| > 10 {
        payload := Tamper(payload);
      }
      if hops > 1 {
        var forwarded: Bytes := [hops - 1];
        forwarded := forwarded + payload;
        out := Some(Sent(buf[1..7], forwarded));
      } else {
        out := Some(Sent(buf[1..7], payload));
      }
    }
  }

  // ---- A source route through honest carriers ----

  type Route = seq<Bytes>

  ghost predicate IsRoute(addrs: Route) {
    1 <= |addrs| <= 255 && forall i :: 0 <= i < |addrs| ==> |addrs[i]| == ADDR_LEN
  }

  function Nested(addrs: Route, body: Bytes): (r: Bytes) {
    if addrs == [] then body else addrs[0] + Nested(addrs[1..], body)
  }

  /** The packet the client sends to its first carrier. */
  function Packet(addrs: Route, body: Bytes): Bytes
    requires |addrs| <= 255
  {
    [|addrs|] + Nested(addrs, body)
  }

  lemma {:induction false} NestedLength(addrs: Route, body: Bytes)
    requires forall i :: 0 <= i < |addrs| ==> |addrs[i]| == ADDR_LEN
    ensures |Nested(addrs, body)| == ADDR_LEN * |addrs| + |body|
  {
    if addrs != [] { NestedLength(addrs[1..], body); }
  }

  lemma {:induction false} NestedCut(addrs: Route, body: Bytes, n: nat)
    requires forall i :: 0 <= i < |addrs| ==> |addrs[i]| == ADDR_LEN
    requires ADDR_LEN * |addrs| <= n <= |Nested(addrs, body)|
    ensures n - ADDR_LEN * |addrs| <= |body|
    ensures Nested(addrs, body)[..n] == Nested(addrs, body[..n - ADDR_LEN * |addrs|])
  {
    NestedLength(addrs, body);
    if addrs != [] {
      var rest := Nested(addrs[1..], body);
      NestedCut(addrs[1..], body, n - ADDR_LEN);
      assert (addrs[0] + rest)[..n] == addrs[0] + rest[..n - ADDR_LEN];
    }
  }

  /** What the receive buffer of the first carrier leaves of the body. */
  function Kept(addrs: Route, body: Bytes): (k: Bytes)
    requires IsRoute(addrs)
    ensures k <= body
  {
    var room := RECV_BUFFER - 1 - ADDR_LEN * |addrs|;
    if |body| <= room then body else body[..room]
  }

  /** The datagram after passing `n` carriers, none of which tampers. */
  ghost function Hops(d: Bytes, n: nat): Option<Sent>
    requires n >= 1
    decreases n
  {
    var s := Relayed(d, false);
    if n == 1 || s.None? then s else Hops(s.value.data, n - 1)
  }

  lemma FirstHop(addrs: Route, body: Bytes)
    requires IsRoute(addrs)
    ensures Relayed(Packet(addrs, body), false)
            == Some(Sent(addrs[0], if |addrs| > 1 then Packet(addrs[1..], Kept(addrs, body)) else Kept(addrs, body)))
  {
    var p := Packet(addrs, body);
    NestedLength(addrs, body);
    var k := Kept(addrs, body);
    if |p| > RECV_BUFFER {
      NestedCut(addrs, body, RECV_BUFFER - 1);
      assert p[..RECV_BUFFER] == [|addrs|] + Nested(addrs, body)[..RECV_BUFFER - 1];
    }
    assert Received(p) == Packet(addrs, k);
    NestedLength(addrs, k);
    assert Packet(addrs, k)[1..7] == addrs[0];
    assert Packet(addrs, k)[7..] == Nested(addrs[1..], k);
  }

  /**
   After exactly as many carriers as there are addresses, the last address gets the body, cut
   only if the whole packet exceeded the first carrier's receive buffer.
   */
  lemma {:induction false} RouteDelivers(addrs: Route, body: Bytes)
    requires IsRoute(addrs)
    ensures Hops(Packet(addrs, body), |addrs|) == Some(Sent(addrs[|addrs| - 1], Kept(addrs, body)))
    decreases |addrs|
  {
    FirstHop(addrs, body);
    if |addrs| > 1 {
      var k := Kept(addrs, body);
      RouteDelivers(addrs[1..], k);
      assert Kept(addrs[1..], k) == k;
    }
  }

  /** Byte for byte exactly when the packet fits the receive buffer. */
  lemma BodyUnchangedIff(addrs: Route, body: Bytes)
    requires IsRoute(addrs)
    ensures Hops(Packet(addrs, body), |addrs|) == Some(Sent(addrs[|addrs| - 1], body))
            <==> 1 + 6 * |addrs| + |body| <= 4096
  {
    RouteDelivers(addrs, body);
  }

  /** No earlier carrier sends to an endpoint: before the last one, the next address of the route is served. */
  lemma {:induction false} ServesInOrder(addrs: Route, body: Bytes, n: nat)
    requires IsRoute(addrs) && 1 <= n <= |addrs|
    ensures Hops(Packet(addrs, body), n).Some? && Hops(Packet(addrs, body), n).value.to == addrs[n - 1]
    decreases n
  {
    FirstHop(addrs, body);
    if n > 1 { ServesInOrder(addrs[1..], Kept(addrs, body), n - 1); }
  }

  /** A tampering carrier passes a long enough body on altered, with its length and its way unchanged. */
  lemma TamperedBody(addrs: Route, body: Bytes)
    requires IsRoute(addrs) && |addrs| == 1 && 10 < |body| && 7 + |body| <= 4096
    ensures Relayed(Packet(addrs, body), true) == Some(Sent(addrs[0], Corrupt(body)))
  {
    var p := Packet(addrs, body);
    NestedLength(addrs, body);
    assert Nested(addrs, body) == addrs[0] + Nested(addrs[1..], body) && addrs[1..] == [];
    assert p[1..7] == addrs[0] && p[7..] == body;
  }
}
