/**
 The shard-reassembly spool: buckets keyed by the generation of a message, filled by
 concurrent receive tasks.  A bucket is a vector of three slots; a fourth, empty slot is the
 mark that a task has claimed it.
 */
module Spool {
  import opened Common
  import opened ErasureCode

  datatype Addr = Addr(ip: nat, port: nat)

  /** What the wire says about a received datagram; `epoch` is absent from v1 frames. */
  datatype Datagram = Datagram(sessionHash: Bytes, epoch: Option<nat>, counter: nat)

  datatype SpoolKey = SpoolKey(sessionHash: Bytes, epoch: nat, counter: nat, preSessionSrc: Option<Addr>)

  const NO_SESSION: Bytes := [0, 0, 0, 0]

  /** The generation of a frame, as seen by the receiver. */
  function Epoch(d: Datagram): nat { if d.epoch.Some? then d.epoch.value else 0 }

  function KeyOf(src: Addr, d: Datagram): SpoolKey {
    SpoolKey(d.sessionHash, Epoch(d), d.counter, if d.sessionHash == NO_SESSION then Some(src) else None)
  }

  /**
   Two datagrams share a bucket exactly when they are of one generation and, if there is no
   session yet, come from one address.  The relaying peer's address is immaterial otherwise.
   */
  lemma SameBucketIff(s: Addr, t: Addr, d: Datagram, e: Datagram)
    ensures KeyOf(s, d) == KeyOf(t, e) <==>
              && d.sessionHash == e.sessionHash && d.counter == e.counter
              && (d.epoch == e.epoch || (d.epoch.None? && e.epoch == Some(0)) || (d.epoch == Some(0) && e.epoch.None?))
              && (d.sessionHash == [0, 0, 0, 0] ==> s == t)
  {
  }

  // ---- One bucket ----

  const MAX_SPOOL_ENTRIES := 8192

  type Pool = map<SpoolKey, Slots>

  /** Write one shard and, when it completes two, append the claim mark. */
  function Deposit(b: Slots, idx: nat, data: Bytes): (r: Slots)
    requires |b| >= 3 && idx < 3
    ensures |r| >= |b|
  {
    var e := b[idx := Some(data)];
    if Filled(e) >= 2 && |e| == 3 then e + [None] else e
  }

  function BucketOf(pool: Pool, key: SpoolKey): Slots {
    if key in pool then pool[key] else [None, None, None]
  }

  function MaxLen(s: Slots): (m: nat)
    ensures forall i :: 0 <= i < |s| && s[i].Some? ==> |s[i].value| <= m
  {
    if s == [] then 0 else
    var m := MaxLen(s[..|s| - 1]);
    var last := s[|s| - 1];
    if last.Some? && |last.value| > m then |last.value| else m
  }

  method Longest(s: Slots) returns (m: nat)
    ensures m == MaxLen(s)
  {
    m := 0;
    for i := 0 to |s|
      invariant m == MaxLen(s[..i])
    {
      assert s[..i + 1][..i] == s[..i];
      if s[i].Some? && |s[i].value| > m { m := |s[i].value|; }
    }
    assert s[..|s|] == s;
  }

  function PadTo(x: Option<Bytes>, m: nat): Option<Bytes> {
    if x.Some? && |x.value| < m then Some(x.value + Zeros(m - |x.value|)) else x
  }

  method PadShard(x: Option<Bytes>, m: nat) returns (padded: Option<Bytes>)
    ensures padded == PadTo(x, m)
  {
    if x.None? { return None; }
    var v := x.value;
    while |v| < m
      invariant |x.value| <= |v| <= (if |x.value| < m then m else |x.value|)
      invariant v == x.value + Zeros(|v| - |x.value|)
    {
      v := v + [0];
    }
    padded := Some(v);
  }

  function Get(s: Slots, i: nat): Option<Bytes> {
    if i < |s| then s[i] else None
  }

  /** What the task that removed `s` from the pool returns. */
  function Assembled(c: Code, s: Slots): Option<Bytes> {
    var m := MaxLen(s);
    Join(c, [PadTo(Get(s, 0), m), PadTo(Get(s, 1), m), PadTo(Get(s, 2), m)])
  }

  /** A full pool drops the buckets that cannot be rebuilt. */
  function Pruned(pool: Pool): (p: Pool)
    ensures p.Keys <= pool.Keys && forall k :: k in p ==> p[k] == pool[k]
  {
    if |pool| > MAX_SPOOL_ENTRIES then map k | k in pool && Filled(pool[k]) >= 2 :: pool[k] else pool
  }

  ghost predicate Sized(pool: Pool) {
    forall k :: k in pool ==> |pool[k]| >= 3
  }

  /** The pool after one shard was written. */
  ghost function Written(pool: Pool, key: SpoolKey, idx: nat, data: Bytes): Pool
    requires Sized(pool) && idx < 3
  {
    var before := Pruned(pool);
    before[key := Deposit(BucketOf(before, key), idx, data)]
  }

  /** Up to 8192 buckets nothing is dropped; above, exactly the buckets with fewer than two shards are. */
  lemma PrunedIff(pool: Pool, k: SpoolKey)
    ensures k in Pruned(pool) <==> k in pool && (|pool| <= 8192 || Filled(pool[k]) >= 2)
  {
  }

  lemma {:induction false} TwoFilled(s: Slots, i: nat, j: nat)
    requires i < j < |s| && s[i].Some? && s[j].Some?
    ensures Filled(s) >= 2
  {
    if i > 0 { TwoFilled(s[1..], i - 1, j - 1); } else { OneFilled(s[1..], j - 1); }
  }

  lemma {:induction false} OneFilled(s: Slots, j: nat)
    requires j < |s| && s[j].Some?
    ensures Filled(s) >= 1
  {
    if j > 0 { OneFilled(s[1..], j - 1); }
  }

  /** In a pool that is not pruned, the second different shard of a message claims its bucket. */
  lemma SecondShardClaims(pool: Pool, key: SpoolKey, idx: nat, j: nat, data: Bytes)
    requires Sized(pool) && |pool| <= 8192 && key in pool && idx < 3 && j < 3 && j != idx && pool[key][j].Some?
    ensures |Written(pool, key, idx, data)[key]| > 3
  {
    PrunedIff(pool, key);
    var e := pool[key][idx := Some(data)];
    TwoFilled(e, if idx < j then idx else j, if idx < j then j else idx);
  }

  /** Another bucket goes only if there are too many and it cannot be rebuilt, and is never changed. */
  lemma WrittenOthers(pool: Pool, key: SpoolKey, idx: nat, data: Bytes)
    requires Sized(pool) && idx < 3
    ensures var w := Written(pool, key, idx, data);
      && Sized(w) && key in w && w[key][idx] == Some(data)
      && (forall k :: k != key ==> (k in w <==> k in pool && (|pool| <= 8192 || Filled(pool[k]) >= 2)))
      && (forall k :: k != key && k in w ==> w[k] == pool[k])
  {
    var w := Written(pool, key, idx, data);
    forall k | k != key ensures k in w <==> k in pool && (|pool| <= 8192 || Filled(pool[k]) >= 2) {
      PrunedIff(pool, k);
    }
  }

  /** The spool with the two critical sections of `assemble` as methods. */
  class ShardSpool {
    var pool: Pool

    constructor ()
      ensures pool == map[] && Sized(pool)
    {
      pool := map[];
    }

    /** Prune, write the shard under the bucket's lock and report whether to assemble. */
    method WriteShard(key: SpoolKey, idx: nat, data: Bytes) returns (shouldAssemble: bool)
      requires idx < 3 && Sized(pool)
      modifies this
      ensures Sized(pool) && pool == Written(old(pool), key, idx, data)
      ensures shouldAssemble == (|pool[key]| > 3)
      // the shard is there, in place of one that was there before
      ensures pool[key][idx] == Some(data)
      // a bucket of another message goes only if there are too many and it cannot be rebuilt
      ensures forall k :: k != key ==>
        (k in pool <==> k in old(pool) && (|old(pool)| <= 8192 || Filled(old(pool)[k]) >= 2))
      ensures forall k :: k != key && k in pool ==> pool[k] == old(pool)[k]
      // the second different shard of a message is told to assemble
      ensures |old(pool)| <= 8192 && key in old(pool) ==>
        (exists j :: 0 <= j < 3 && j != idx && old(pool)[key][j].Some?) ==> shouldAssemble
    {
      ghost var was := pool;
      if |pool| > MAX_SPOOL_ENTRIES {
        pool := map k | k in pool && Filled(pool[k]) >= 2 :: pool[k];
      }
      var e := if key in pool then pool[key] else [None, None, None];
      e := e[idx := Some(data)];
      if Filled(e) >= 2 && |e| == 3 {
        e := e + [None];
      }
      pool := pool[key := e];
      shouldAssemble := |e| > 3;
      assert pool == Written(was, key, idx, data);
      WrittenOthers(was, key, idx, data);
      if j :| |was| <= 8192 && key in was && 0 <= j < 3 && j != idx && was[key][j].Some? {
        SecondShardClaims(was, key, idx, j, data);
      }
    }

    /** Remove the bucket, pad its shards to one length and rebuild the message. */
    method RemoveAndJoin(c: Code, key: SpoolKey) returns (message: Option<Bytes>)
      requires Sized(pool)
      modifies this
      ensures pool == old(pool) - {key} && Sized(pool)
      ensures message == Assembled(c, if key in old(pool) then old(pool)[key] else [])
    {
      var s: Slots := if key in pool then pool[key] else [];
      pool := pool - {key};
      var m := Longest(s);
      var w: Slots := [];
      for i := 0 to 3
        invariant pool == old(pool) - {key}
        invariant w == seq(i, j requires 0 <= j < i => PadTo(Get(s, j), m))
      {
        var v := PadShard(Get(s, i), m);
        w := w + [v];
      }
      message := Join(c, w);
    }
  }

  // ---- The bucket of one message ----

  /** A bucket that holds only shards of `m`, claimed as soon as two are there. */
  ghost predicate GoodBucket(c: Code, m: Bytes, b: Slots) {
    && 3 <= |b| <= 4
    && Genuine(c, m, b[..3])
    && (|b| == 4 ==> b[3] == None)
    && (|b| == 4 <==> Filled(b) >= 2)
    && Filled(b) >= 1
  }

  lemma FilledBucket(b: Slots)
    requires |b| == 3 || (|b| == 4 && b[3] == None)
    ensures Filled(b) == Filled(b[..3])
  {
    if |b| == 4 {
      assert b == b[..3] + [None];
      FilledAppend(b[..3], [None]);
    } else {
      assert b == b[..3];
    }
  }

  /** Depositing a shard of the message keeps the bucket good and fills at most one more slot. */
  lemma DepositKeeps(c: Code, m: Bytes, b: Slots, idx: nat)
    requires GoodBucket(c, m, b) || b == [None, None, None]
    requires idx < 3
    ensures var r := Deposit(b, idx, Encode(c, m)[idx]);
      && GoodBucket(c, m, r)
      && Filled(r) <= Filled(b) + 1
      && (forall j :: 0 <= j < 3 ==> r[j] == if j == idx then Some(Encode(c, m)[idx]) else b[j])
  {
    var data := Encode(c, m)[idx];
    var e := b[idx := Some(data)];
    FilledBucket(e);
    FilledBucket(b);
    FilledThree(e[..3]);
    FilledThree(b[..3]);
    var r := Deposit(b, idx, data);
    assert r[..3] == e[..3];
    FilledBucket(r);
  }

  /** A claimed bucket gives the message; a bucket that is gone gives nothing. */
  lemma AssembledIsMessage(c: Code, m: Bytes, b: Slots)
    requires Cancels(c) && m != [] && GoodBucket(c, m, b)
    ensures |b| == 4 ==> Assembled(c, b) == Some(Even(m))
    ensures |b| == 3 ==> Assembled(c, b) == None
  {
    var n := MaxLen(b);
    FilledBucket(b);
    FilledThree(b[..3]);
    var w := [PadTo(Get(b, 0), n), PadTo(Get(b, 1), n), PadTo(Get(b, 2), n)];
    MaxLenIs(c, m, b);
    assert w == b[..3];
    if |b| == 4 { AnyTwoRebuild(c, m, w); }
  }

  lemma {:induction false} MaxLenBound(b: Slots, n: nat)
    requires forall i :: 0 <= i < |b| && b[i].Some? ==> |b[i].value| <= n
    ensures MaxLen(b) <= n
  {
    if b != [] { MaxLenBound(b[..|b| - 1], n); }
  }

  lemma MaxLenIs(c: Code, m: Bytes, b: Slots)
    requires GoodBucket(c, m, b)
    ensures MaxLen(b) == |Encode(c, m)[0]|
  {
    forall i | 0 <= i < |b| && b[i].Some? ensures |b[i].value| == |Encode(c, m)[0]| {
      assert b[..3][i] == b[i];
    }
    MaxLenBound(b, |Encode(c, m)[0]|);
    FilledBucket(b);
    FilledThree(b[..3]);
    assert b[..3][0] == b[0] && b[..3][1] == b[1] && b[..3][2] == b[2];
  }
}
