/** The per-direction reorder buffer: frames leave it in counter order, each once. */
module Reorder {
  import opened Common

  datatype Rx = Rx(next: Option<nat>, buf: map<nat, Bytes>)

  const UNANCHORED := Rx(None, map[])

  /** Release everything that is contiguous from `next`. */
  function Drain(next: nat, buf: map<nat, Bytes>): (r: (nat, map<nat, Bytes>, seq<Bytes>))
    decreases |buf|
  {
    if next in buf then
      var rest := buf - {next};
      assert rest.Keys == buf.Keys - {next};
      assert |rest.Keys| == |buf.Keys| - 1;
      var (n, b, out) := Drain(next + 1, rest);
      (n, b, [buf[next]] + out)
    else (next, buf, [])
  }

  function Push(s: Rx, ctr: nat, payload: Bytes): (Rx, seq<Bytes>) {
    if s.next.None? then (Rx(Some(ctr + 1), s.buf), [payload])
    else if ctr < s.next.value then (s, [])
    else
      var (n, b, out) := Drain(s.next.value, s.buf[ctr := payload]);
      (Rx(Some(n), b), out)
  }

  /** `RxState` with `rx_push` as the method that mutates it. */
  class RxState {
    var next: Option<nat>
    var buf: map<nat, Bytes>

    ghost function State(): Rx
      reads this
    {
      Rx(next, buf)
    }

    constructor ()
      ensures State() == UNANCHORED
    {
      next, buf := None, map[];
    }

    method RxPush(ctr: nat, payload: Bytes) returns (out: seq<Bytes>)
      modifies this
      ensures (State(), out) == Push(old(State()), ctr, payload)
    {
      if next.None? {
        next := Some(ctr + 1);
        return [payload];
      }
      if ctr < next.value {
        return [];
      }
      var n, b;
      n, b, out := Release(next.value, buf[ctr := payload]);
      next, buf := Some(n), b;
    }
  }

  /** The loop that releases what has become contiguous. */
  method Release(next: nat, buf: map<nat, Bytes>) returns (n: nat, b: map<nat, Bytes>, out: seq<Bytes>)
    ensures (n, b, out) == Drain(next, buf)
  {
    n, b, out := next, buf, [];
    ghost var goal := Drain(next, buf);
    while n in b
      invariant goal.0 == Drain(n, b).0 && goal.1 == Drain(n, b).1
      invariant goal.2 == out + Drain(n, b).2
      decreases |b|
    {
      DrainStep(n, b);
      Regroup(out, b[n], Drain(n + 1, b - {n}).2);
      out := out + [b[n]];
      b := b - {n};
      n := n + 1;
    }
    assert out + [] == out;
  }

  lemma Regroup(out: seq<Bytes>, x: Bytes, rest: seq<Bytes>)
    ensures out + ([x] + rest) == (out + [x]) + rest
  {
  }

  lemma DrainStep(n: nat, b: map<nat, Bytes>)
    requires n in b
    ensures |b - {n}| < |b|
    ensures var d := Drain(n + 1, b - {n}); Drain(n, b) == (d.0, d.1, [b[n]] + d.2)
  {
    assert (b - {n}).Keys == b.Keys - {n};
    assert |(b - {n}).Keys| == |b.Keys| - 1;
  }

  /** A payload that waits is replaced by a later one with its counter; one that was released is not. */
  lemma LaterPayloadReplaces(s: Rx, ctr: nat, payload: Bytes)
    requires s.next.Some?
    ensures ctr < s.next.value ==> Push(s, ctr, payload) == (s, [])
    ensures ctr > s.next.value && s.next.value !in s.buf ==>
      Push(s, ctr, payload) == (Rx(s.next, s.buf[ctr := payload]), [])
    ensures ctr == s.next.value ==> |Push(s, ctr, payload).1| > 0 && Push(s, ctr, payload).1[0] == payload
  {
    if ctr == s.next.value { DrainStep(ctr, s.buf[ctr := payload]); }
  }

  // ---- Any arrival order, with gaps and repetitions ----

  /** Feed the counters `cs` in this order, where counter `c` always carries `pay(c)`. */
  ghost function Feed(cs: seq<nat>, pay: nat -> Bytes): (Rx, seq<Bytes>) {
    if cs == [] then (UNANCHORED, []) else
    var (s, out) := Feed(cs[..|cs| - 1], pay);
    var (t, more) := Push(s, cs[|cs| - 1], pay(cs[|cs| - 1]));
    (t, out + more)
  }

  /** The payloads of counters `lo` up to but not including `hi`. */
  ghost function Stretch(pay: nat -> Bytes, lo: nat, hi: nat): (s: seq<Bytes>)
    requires lo <= hi
    ensures |s| == hi - lo
  {
    seq(hi - lo, i requires 0 <= i < hi - lo => pay(lo + i))
  }

  /** `b` holds `pay(c)` under exactly the counters `c` in `keys`. */
  ghost predicate Buffers(b: map<nat, Bytes>, keys: set<nat>, pay: nat -> Bytes) {
    (forall c :: c in b <==> c in keys) && (forall c :: c in b ==> b[c] == pay(c))
  }

  lemma {:induction false} DrainReleases(next: nat, buf: map<nat, Bytes>, pay: nat -> Bytes)
    requires forall c :: c in buf ==> buf[c] == pay(c)
    ensures var d := Drain(next, buf);
      && next <= d.0 && d.0 !in buf
      && (forall c :: next <= c < d.0 ==> c in buf)
      && d.2 == Stretch(pay, next, d.0)
      && Buffers(d.1, (set c | c in buf && !(next <= c < d.0)), pay)
    decreases |buf|
  {
    if next in buf {
      var rest := buf - {next};
      assert rest.Keys == buf.Keys - {next};
      assert |rest.Keys| == |buf.Keys| - 1;
      DrainReleases(next + 1, rest, pay);
      DrainStep(next, buf);
      var n := Drain(next + 1, rest).0;
      assert [pay(next)] + Stretch(pay, next + 1, n) == Stretch(pay, next, n);
      forall c | next <= c < n ensures c in buf {
        if c != next { assert c in rest; }
      }
    }
  }

  /** `n` ends the longest run of received counters that starts at the first one received. */
  ghost predicate RunEnds(cs: seq<nat>, n: nat) {
    cs != [] && cs[0] < n && n !in cs && forall c :: cs[0] <= c < n ==> c in cs
  }

  /**
   What came out is that longest run, in counter order and each payload once; everything else at
   or beyond the anchor that was received is still buffered, strictly beyond the next counter.
   */
  lemma {:induction false} DeliversLongestRun(cs: seq<nat>, pay: nat -> Bytes)
    requires cs != []
    ensures var f := Feed(cs, pay);
      && f.0.next.Some? && RunEnds(cs, f.0.next.value)
      && f.1 == Stretch(pay, cs[0], f.0.next.value)
      && Buffers(f.0.buf, (set c | c in cs && c > f.0.next.value), pay)
  {
    var init, c := cs[..|cs| - 1], cs[|cs| - 1];
    assert cs == init + [c];
    if init == [] {
      assert Feed(init, pay) == (UNANCHORED, []);
      assert Feed(cs, pay) == (Rx(Some(c + 1), map[]), [] + [pay(c)]);
      assert Stretch(pay, c, c + 1) == [pay(c)];
    } else {
      DeliversLongestRun(init, pay);
      PushExtends(init, c, Feed(init, pay).0, Feed(init, pay).1, pay);
    }
  }

  lemma PushExtends(init: seq<nat>, c: nat, s: Rx, out: seq<Bytes>, pay: nat -> Bytes)
    requires s.next.Some? && RunEnds(init, s.next.value) && out == Stretch(pay, init[0], s.next.value)
    requires Buffers(s.buf, (set c | c in init && c > s.next.value), pay)
    ensures var p := Push(s, c, pay(c));
      && p.0.next.Some? && RunEnds(init + [c], p.0.next.value)
      && out + p.1 == Stretch(pay, init[0], p.0.next.value)
      && Buffers(p.0.buf, (set d | d in init + [c] && d > p.0.next.value), pay)
  {
    var next := s.next.value;
    if c < next {
      assert out + [] == out;
    } else {
      var buf := s.buf[c := pay(c)];
      DrainReleases(next, buf, pay);
      var n := Drain(next, buf).0;
      assert Stretch(pay, init[0], next) + Stretch(pay, next, n) == Stretch(pay, init[0], n);
      assert n !in init + [c];
      forall d | init[0] <= d < n ensures d in init + [c] {
        if d >= next { assert d in buf; }
      }
    }
  }

  /** The outcome is determined by the set of counters and the anchor, not by the order of arrival. */
  lemma OrderDoesNotMatter(cs: seq<nat>, ds: seq<nat>, pay: nat -> Bytes)
    requires cs != [] && ds != [] && cs[0] == ds[0] && forall c :: c in cs <==> c in ds
    ensures Feed(cs, pay) == Feed(ds, pay)
  {
    DeliversLongestRun(cs, pay);
    DeliversLongestRun(ds, pay);
    var f, g := Feed(cs, pay), Feed(ds, pay);
    assert f.0.next.value == g.0.next.value;
    assert f.0.buf.Keys == g.0.buf.Keys;
    assert f.0.buf == g.0.buf;
  }
}
