/**
 Length-prefixed framing, sealing and splitting of one message, and the way back through the
 spool from any two of its three shards.
 */
module Framing {
  import opened Common
  import opened ErasureCode
  import opened Spool

  /** The u16 length of the payload, the payload, and a zero byte if that makes it even. */
  function Frame(pay: Bytes): (f: Bytes)
    ensures |f| % 2 == 0 && |f| >= 2
  {
    Even(Be16(|pay|) + pay)
  }

  /** `frame_payload`: strip the prefix and the optional pad, or refuse. */
  function FramePayload(pt: Bytes): Option<Bytes> {
    if |pt| < 2 then None else
    var n := ReadBe16(pt);
    if 2 + n == |pt| || 2 + n + 1 == |pt| then Some(pt[2..2 + n]) else None
  }

  /** The prefix is 16 bits wide, so payloads come back exactly when they fit and are refused otherwise. */
  lemma FrameRoundTrip(pay: Bytes)
    ensures FramePayload(Frame(pay)) == if |pay| <= 65535 then Some(pay) else None
  {
    FrameReads(pay);
    ModBelow(|pay|);
    StripsIff(Frame(pay), pay, |pay| % 65536);
  }

  lemma FrameReads(pay: Bytes)
    ensures var f := Frame(pay);
      |f| == 2 + |pay| + |pay| % 2 && pay <= f[2..] && ReadBe16(f) == |pay| % 65536
  {
    var rest := pay + (if |pay| % 2 == 0 then [] else [0]);
    var f := Be16(|pay|) + rest;
    assert Frame(pay) == f && f[2..] == rest;
    Be16RoundTrip(|pay|, rest);
  }

  lemma StripsIff(f: Bytes, pay: Bytes, n: nat)
    requires |f| == 2 + |pay| + |pay| % 2 && pay <= f[2..] && ReadBe16(f) == n
    requires n == |pay| || n + 65536 <= |pay|
    ensures FramePayload(f) == if n == |pay| then Some(pay) else None
  {
    if n == |pay| { assert f[2..2 + n] == f[2..][..n] == pay; }
  }

  function FrameShard(d: Bytes): Bytes {
    Be16(|d|) + d
  }

  /** `unframe`: trailing bytes of the fixed-width payload region are ignored. */
  function Unframe(b: Bytes): Option<Bytes> {
    if |b| < 2 then None else
    var n := ReadBe16(b);
    if n == 0 || 2 + n > |b| then None else Some(b[2..2 + n])
  }

  /** A framed shard comes back out of a datagram whatever fills the rest of it. */
  lemma UnframeFramed(d: Bytes, received: Bytes)
    requires 0 < |d| <= 65535 && FrameShard(d) <= received
    ensures Unframe(received) == Some(d)
  {
    var tail := received[2 + |d|..];
    assert received == Be16(|d|) + (d + tail);
    Be16RoundTrip(|d|, d + tail);
    ModBelow(|d|);
    assert received[2..2 + |d|] == d;
  }

  /** Exactly the regions that begin with the framed shard unframe to it. */
  lemma UnframeIff(b: Bytes, d: Bytes)
    ensures Unframe(b) == Some(d) <==> 0 < |d| <= 65535 && FrameShard(d) <= b
  {
    if Unframe(b) == Some(d) {
      Be16Unique(b);
      assert b[2..2 + |d|] == d && b[..2 + |d|] == b[..2] + b[2..2 + |d|];
    } else if 0 < |d| <= 65535 && FrameShard(d) <= b {
      UnframeFramed(d, b);
      assert false;
    }
  }

  /** Exactly a payload with its prefix, and at most one byte after it, is accepted. */
  lemma FramePayloadIff(pt: Bytes, d: Bytes)
    ensures FramePayload(pt) == Some(d)
            <==> |d| <= 65535 && Be16(|d|) + d <= pt && |pt| <= 3 + |d|
  {
    if FramePayload(pt) == Some(d) {
      Be16Unique(pt);
      assert pt[2..2 + |d|] == d && pt[..2 + |d|] == pt[..2] + pt[2..2 + |d|];
    } else if |d| <= 65535 && Be16(|d|) + d <= pt && |pt| <= 3 + |d| {
      PrefixReads(pt, d);
      assert false;
    }
  }

  lemma PrefixReads(pt: Bytes, d: Bytes)
    requires |d| <= 65535 && Be16(|d|) + d <= pt
    ensures ReadBe16(pt) == |d| && pt[2..2 + |d|] == d
  {
    var tail := pt[2 + |d|..];
    assert pt == Be16(|d|) + (d + tail);
    Be16RoundTrip(|d|, d + tail);
    ModBelow(|d|);
  }

  // ---- Sealing ----

  const TAG_LEN := 16

  /** An authenticated cipher under one key, nonce and direction: what it seals it opens. */
  datatype Cipher = Cipher(seal: Bytes -> Bytes, open: Bytes -> Option<Bytes>)

  ghost predicate Opens(k: Cipher) {
    forall x: Bytes :: k.open(k.seal(x)) == Some(x) && |k.seal(x)| == |x| + TAG_LEN
  }

  /** Sealing the whole frame and splitting the ciphertext. */
  function SplitSealed(c: Code, k: Cipher, pay: Bytes): (frames: seq<Bytes>)
    ensures |frames| == 3
  {
    var s := Encode(c, k.seal(Frame(pay)));
    [FrameShard(s[0]), FrameShard(s[1]), FrameShard(s[2])]
  }

  /** Splitting the plain frame and sealing every shard under its own key. */
  function SplitThenSeal(c: Code, ks: seq<Cipher>, pay: Bytes): (frames: seq<Bytes>)
    requires |ks| == 3
    ensures |frames| == 3
  {
    var s := Encode(c, Frame(pay));
    [FrameShard(ks[0].seal(s[0])), FrameShard(ks[1].seal(s[1])), FrameShard(ks[2].seal(s[2]))]
  }

  /** `enc_split` without per-shard sealing, building its buffer step by step. */
  method EncSplit(c: Code, k: Cipher, pay: Bytes) returns (frames: seq<Bytes>)
    ensures frames == SplitSealed(c, k, pay)
  {
    var framed := Be16(|pay|);
    framed := framed + pay;
    if |framed| % 2 != 0 {
      framed := framed + [0];
    }
    var raw := Encode(c, k.seal(framed));
    frames := [];
    for i := 0 to |raw|
      invariant frames == seq(i, j requires 0 <= j < i => FrameShard(raw[j]))
    {
      frames := frames + [FrameShard(raw[i])];
    }
  }

  /** `enc_split` with per-shard sealing. */
  method EncSplitShardSec(c: Code, ks: seq<Cipher>, pay: Bytes) returns (frames: seq<Bytes>)
    requires |ks| == 3
    ensures frames == SplitThenSeal(c, ks, pay)
  {
    var framed := Be16(|pay|);
    framed := framed + pay;
    if |framed| % 2 != 0 {
      framed := framed + [0];
    }
    var raw := Encode(c, framed);
    frames := [];
    for i := 0 to |raw|
      invariant frames == seq(i, j requires 0 <= j < i => FrameShard(ks[j].seal(raw[j])))
    {
      frames := frames + [FrameShard(ks[i].seal(raw[i]))];
    }
  }

  // ---- Two shards are enough ----

  /** What the spool holds and returns after the shards `x` at `i` and `y` at `j` arrived in this order. */
  function AfterTwo(c: Code, i: nat, x: Bytes, j: nat, y: Bytes): Option<Bytes>
    requires i < 3 && j < 3
  {
    var b := Deposit([None, None, None], i, x);
    if |b| > 3 then Assembled(c, b)
    else
      var b2 := Deposit(b, j, y);
      if |b2| > 3 then Assembled(c, b2) else None
  }

  lemma TwoShardsAssemble(c: Code, m: Bytes, i: nat, j: nat)
    requires Cancels(c) && m != [] && i < 3 && j < 3 && i != j
    ensures AfterTwo(c, i, Encode(c, m)[i], j, Encode(c, m)[j]) == Some(Even(m))
  {
    var e := Encode(c, m);
    var empty: Slots := [None, None, None];
    FilledThree(empty);
    DepositKeeps(c, m, empty, i);
    var b := Deposit(empty, i, e[i]);
    FilledBucket(b);
    FilledThree(b[..3]);
    DepositKeeps(c, m, b, j);
    var b2 := Deposit(b, j, e[j]);
    FilledBucket(b2);
    FilledThree(b2[..3]);
    AssembledIsMessage(c, m, b2);
  }

  // ---- One hop: three datagrams of fixed width ----

  /** How a message is sealed: as a whole before splitting, or shard by shard after it. */
  datatype Sealing = Whole(key: Cipher) | PerShard(first: Cipher, second: Cipher, third: Cipher)

  ghost predicate Usable(s: Sealing) {
    match s
    case Whole(k) => Opens(k)
    case PerShard(k0, k1, k2) => Opens(k0) && Opens(k1) && Opens(k2)
  }

  function Frames(c: Code, s: Sealing, pay: Bytes): (frames: seq<Bytes>)
    ensures |frames| == 3
  {
    match s
    case Whole(k) => SplitSealed(c, k, pay)
    case PerShard(k0, k1, k2) => SplitThenSeal(c, [k0, k1, k2], pay)
  }

  /** The datagrams as they arrive: each begins with its frame, and anything may fill the rest. */
  ghost predicate Carries(received: seq<Bytes>, frames: seq<Bytes>) {
    |received| == |frames| && forall n :: 0 <= n < |frames| ==> frames[n] <= received[n]
  }

  /** Whole-message sealing: reassemble from the shards `i` and `j` in this order, then open and strip. */
  function OpenWhole(c: Code, k: Cipher, received: seq<Bytes>, i: nat, j: nat): Option<Bytes>
    requires |received| == 3 && i < 3 && j < 3
  {
    var x, y := Unframe(received[i]), Unframe(received[j]);
    if x.None? || y.None? then None else
    var r := AfterTwo(c, i, x.value, j, y.value);
    if r.None? then None else
    var plain := k.open(r.value);
    if plain.None? then None else FramePayload(plain.value)
  }

  /** Per-shard sealing: each arriving shard is opened first, then two of them are reassembled. */
  function OpenShards(c: Code, ks: seq<Cipher>, received: seq<Bytes>, i: nat, j: nat): Option<Bytes>
    requires |ks| == 3 && |received| == 3 && i < 3 && j < 3
  {
    var x, y := Unframe(received[i]), Unframe(received[j]);
    if x.None? || y.None? then None else
    var a, b := ks[i].open(x.value), ks[j].open(y.value);
    if a.None? || b.None? then None else
    var r := AfterTwo(c, i, a.value, j, b.value);
    if r.None? then None else FramePayload(r.value)
  }

  function OpenTwo(c: Code, s: Sealing, received: seq<Bytes>, i: nat, j: nat): Option<Bytes>
    requires |received| == 3 && i < 3 && j < 3
  {
    match s
    case Whole(k) => OpenWhole(c, k, received, i, j)
    case PerShard(k0, k1, k2) => OpenShards(c, [k0, k1, k2], received, i, j)
  }

  lemma FramesOf(c: Code, k: Cipher, pay: Bytes, n: nat)
    requires Opens(k) && |pay| <= 65535 && n < 3
    ensures var d := Encode(c, k.seal(Frame(pay)))[n];
      SplitSealed(c, k, pay)[n] == FrameShard(d) && 0 < |d| <= 65535
  {
    assert |k.seal(Frame(pay))| == |Frame(pay)| + TAG_LEN;
  }

  lemma ShardFramesOf(c: Code, ks: seq<Cipher>, pay: Bytes, n: nat)
    requires |ks| == 3 && n < 3 && Opens(ks[n]) && |pay| <= 65535
    ensures var d := ks[n].seal(Encode(c, Frame(pay))[n]);
      && SplitThenSeal(c, ks, pay)[n] == FrameShard(d) && 0 < |d| <= 65535
      && ks[n].open(d) == Some(Encode(c, Frame(pay))[n])
  {
    var e := Encode(c, Frame(pay))[n];
    assert |ks[n].seal(e)| == |e| + TAG_LEN;
  }

  /** Any two frames, in either order and with any filling, give the payload back, sealed as a whole. */
  lemma SealedRoundTrip(c: Code, k: Cipher, pay: Bytes, received: seq<Bytes>, i: nat, j: nat)
    requires Cancels(c) && Opens(k) && |pay| <= 65535 && i < 3 && j < 3 && i != j
    requires Carries(received, SplitSealed(c, k, pay))
    ensures OpenWhole(c, k, received, i, j) == Some(pay)
  {
    var sealed := k.seal(Frame(pay));
    FramesOf(c, k, pay, i);
    FramesOf(c, k, pay, j);
    UnframeFramed(Encode(c, sealed)[i], received[i]);
    UnframeFramed(Encode(c, sealed)[j], received[j]);
    assert |sealed| == |Frame(pay)| + TAG_LEN && Even(sealed) == sealed;
    TwoShardsAssemble(c, sealed, i, j);
    FrameRoundTrip(pay);
  }

  /** The same with every shard sealed on its own. */
  lemma ShardSecRoundTrip(c: Code, ks: seq<Cipher>, pay: Bytes, received: seq<Bytes>, i: nat, j: nat)
    requires Cancels(c) && |ks| == 3 && |pay| <= 65535 && i < 3 && j < 3 && i != j && Opens(ks[i]) && Opens(ks[j])
    requires Carries(received, SplitThenSeal(c, ks, pay))
    ensures OpenShards(c, ks, received, i, j) == Some(pay)
  {
    var e := Encode(c, Frame(pay));
    ShardFramesOf(c, ks, pay, i);
    ShardFramesOf(c, ks, pay, j);
    UnframeFramed(ks[i].seal(e[i]), received[i]);
    UnframeFramed(ks[j].seal(e[j]), received[j]);
    assert Even(Frame(pay)) == Frame(pay);
    TwoShardsAssemble(c, Frame(pay), i, j);
    FrameRoundTrip(pay);
  }

  /** The payload region of a datagram, in which a framed shard has to fit. */
  const GTF_CAPACITY := 458

  /** A datagram is not built for a shard that is too long. */
  predicate InDatagrams(frames: seq<Bytes>) {
    forall i :: 0 <= i < |frames| ==> |frames[i]| <= GTF_CAPACITY
  }

  /** The largest payload one hop carries. */
  function HopLimit(s: Sealing): nat {
    if s.Whole? then 894 else 878
  }

  lemma WholeLengths(c: Code, k: Cipher, pay: Bytes)
    requires Opens(k)
    ensures forall n :: 0 <= n < 3 ==> |SplitSealed(c, k, pay)[n]| == 2 + (|Frame(pay)| + TAG_LEN) / 2
  {
    assert |k.seal(Frame(pay))| == |Frame(pay)| + TAG_LEN;
  }

  lemma ShardLengths(c: Code, ks: seq<Cipher>, pay: Bytes)
    requires |ks| == 3 && Opens(ks[0]) && Opens(ks[1]) && Opens(ks[2])
    ensures forall n :: 0 <= n < 3 ==> |SplitThenSeal(c, ks, pay)[n]| == 2 + (|Frame(pay)| / 2 + TAG_LEN)
  {
    var e := Encode(c, Frame(pay));
    assert |ks[0].seal(e[0])| == |ks[1].seal(e[1])| == |ks[2].seal(e[2])| == |Frame(pay)| / 2 + TAG_LEN;
  }

  lemma FitsIff(c: Code, s: Sealing, pay: Bytes)
    requires Usable(s)
    ensures InDatagrams(Frames(c, s, pay)) <==> |pay| <= HopLimit(s)
  {
    FrameReads(pay);
    var frames := Frames(c, s, pay);
    match s {
      case Whole(k) => WholeLengths(c, k, pay);
      case PerShard(k0, k1, k2) => ShardLengths(c, [k0, k1, k2], pay);
    }
    assert InDatagrams(frames) <==> |frames[0]| <= GTF_CAPACITY;
  }

  /** One hop over the shards `i` and `j`: nothing is sent unless every shard fits its datagram. */
  function Hop(c: Code, s: Sealing, pay: Bytes, i: nat, j: nat): Option<Bytes>
    requires i < 3 && j < 3
  {
    if InDatagrams(Frames(c, s, pay)) then OpenTwo(c, s, Frames(c, s, pay), i, j) else None
  }

  /** A hop carries a payload unchanged exactly when it is within the limit, and otherwise not at all. */
  lemma HopCarriesIff(c: Code, s: Sealing, pay: Bytes, i: nat, j: nat)
    requires Cancels(c) && Usable(s) && i < 3 && j < 3 && i != j
    ensures Hop(c, s, pay, i, j) == if |pay| <= HopLimit(s) then Some(pay) else None
  {
    FitsIff(c, s, pay);
    if |pay| <= HopLimit(s) { TwoDatagramsOpen(c, s, pay, i, j); }
  }

  lemma TwoDatagramsOpen(c: Code, s: Sealing, pay: Bytes, i: nat, j: nat)
    requires Cancels(c) && Usable(s) && i < 3 && j < 3 && i != j && |pay| <= 65535
    ensures OpenTwo(c, s, Frames(c, s, pay), i, j) == Some(pay)
  {
    match s {
      case Whole(k) =>
        CarriesItself(SplitSealed(c, k, pay));
        SealedRoundTrip(c, k, pay, SplitSealed(c, k, pay), i, j);
      case PerShard(k0, k1, k2) =>
        var ks := [k0, k1, k2];
        assert Opens(ks[i]) && Opens(ks[j]);
        ShardDatagramsOpen(c, ks, pay, SplitThenSeal(c, ks, pay), i, j);
    }
  }

  lemma ShardDatagramsOpen(c: Code, ks: seq<Cipher>, pay: Bytes, received: seq<Bytes>, i: nat, j: nat)
    requires Cancels(c) && |ks| == 3 && i < 3 && j < 3 && i != j && Opens(ks[i]) && Opens(ks[j])
    requires |pay| <= 65535 && received == SplitThenSeal(c, ks, pay)
    ensures OpenShards(c, ks, received, i, j) == Some(pay)
  {
    CarriesItself(received);
    ShardSecRoundTrip(c, ks, pay, received, i, j);
  }

  lemma CarriesItself(frames: seq<Bytes>)
    ensures Carries(frames, frames)
  {
  }

  /** The hop over the two data shards, as a function of the payload. */
  function HopOf(c: Code, s: Sealing): Bytes -> Option<Bytes> {
    (pay: Bytes) => Hop(c, s, pay, 0, 1)
  }

  /** Payloads within the limit arrive as they are, and others do not arrive. */
  ghost predicate CarriesUpTo(carry: Bytes -> Option<Bytes>, limit: nat) {
    forall pay :: carry(pay) == if |pay| <= limit then Some(pay) else None
  }

  lemma HopAt(c: Code, s: Sealing, pay: Bytes, limit: nat)
    requires Cancels(c) && Usable(s) && limit == HopLimit(s)
    ensures HopOf(c, s)(pay) == if |pay| <= limit then Some(pay) else None
  {
    HopCarriesIff(c, s, pay, 0, 1);
  }

  lemma HopLaw(c: Code, s: Sealing)
    requires Cancels(c) && Usable(s)
    ensures CarriesUpTo(HopOf(c, s), HopLimit(s))
  {
    var hop, limit := HopOf(c, s), HopLimit(s);
    forall pay: Bytes ensures hop(pay) == if |pay| <= limit then Some(pay) else None {
      HopAt(c, s, pay, limit);
    }
    assert CarriesUpTo(hop, limit);
  }
}
