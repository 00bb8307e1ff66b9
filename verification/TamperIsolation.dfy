/**
 Joining three shards of which some may have been altered on the way.  The cipher is ideal:
 under the message's key and counter it opens the one ciphertext that was sealed and nothing else.
 */
module TamperIsolation {
  import opened Common
  import opened ErasureCode
  import opened Spool
  import opened Framing

  /** One sent message: its payload and its ciphertext. */
  datatype Message = Message(pay: Bytes, sealed: Bytes)

  ghost predicate Sendable(m: Message) {
    |m.pay| <= 65535 && |m.sealed| % 2 == 0 && m.sealed != []
  }

  function Open(m: Message, x: Bytes): Option<Bytes> {
    if x == m.sealed then Some(Frame(m.pay)) else None
  }

  /** Pad the two shards to one length, rebuild, open and strip the length prefix. */
  function TryPair(c: Code, m: Message, s: Slots, a: nat, b: nat): Option<Bytes>
    requires |s| == 3 && a < b < 3
  {
    var empty: Slots := [None, None, None];
    var pair := empty[a := s[a]][b := s[b]];
    var n := MaxLen(pair);
    var merged := Join(c, [PadTo(pair[0], n), PadTo(pair[1], n), PadTo(pair[2], n)]);
    if merged.None? then None else
    var plain := Open(m, merged.value);
    if plain.None? || |plain.value| < 2 then None else
    var len := ReadBe16(plain.value);
    if 2 + len <= |plain.value| then Some(plain.value[2..2 + len]) else None
  }

  /** The payload and the index of the shard that was singled out. */
  function JoinShards(c: Code, m: Message, s: Slots): (Option<Bytes>, Option<nat>)
    requires |s| == 3
  {
    if s[0].Some? && s[1].Some? && s[2].Some? then
      var r01, r02, r12 := TryPair(c, m, s, 0, 1), TryPair(c, m, s, 0, 2), TryPair(c, m, s, 1, 2);
      if r01.Some? && r02.Some? && r12.Some? then (r01, None)
      else if r02.Some? && r01.None? && r12.None? then (r02, Some(1))
      else if r12.Some? && r01.None? && r02.None? then (r12, Some(0))
      else if r01.Some? && r02.None? && r12.None? then (r01, Some(2))
      else (None, None)
    else if s[0].Some? && s[1].Some? then (TryPair(c, m, s, 0, 1), None)
    else if s[0].Some? && s[2].Some? then (TryPair(c, m, s, 0, 2), None)
    else if s[1].Some? && s[2].Some? then (TryPair(c, m, s, 1, 2), None)
    else (None, None)
  }

  /** `try_pair`, padding its copies of the two shards. */
  method TryPadded(c: Code, m: Message, s: Slots, a: nat, b: nat) returns (r: Option<Bytes>)
    requires |s| == 3 && a < b < 3
    ensures r == TryPair(c, m, s, a, b)
  {
    var pair: Slots := [None, None, None];
    pair := pair[a := s[a]][b := s[b]];
    var n := Longest(pair);
    var x := PadShard(pair[0], n);
    var y := PadShard(pair[1], n);
    var z := PadShard(pair[2], n);
    var merged := Join(c, [x, y, z]);
    if merged.None? { return None; }
    var plain := Open(m, merged.value);
    if plain.None? || |plain.value| < 2 { return None; }
    var len := ReadBe16(plain.value);
    if 2 + len > |plain.value| { return None; }
    r := Some(plain.value[2..2 + len]);
  }

  /** `dec_join_tamper_resistant`: all three pairs when all shards arrived, else the one pair there is. */
  method DecJoin(c: Code, m: Message, s: Slots) returns (payload: Option<Bytes>, altered: Option<nat>)
    requires |s| == 3
    ensures (payload, altered) == JoinShards(c, m, s)
  {
    if s[0].Some? && s[1].Some? && s[2].Some? {
      var r01 := TryPadded(c, m, s, 0, 1);
      var r02 := TryPadded(c, m, s, 0, 2);
      var r12 := TryPadded(c, m, s, 1, 2);
      if r01.Some? && r02.Some? && r12.Some? { return r01, None; }
      if r02.Some? && r01.None? && r12.None? { return r02, Some(1); }
      if r12.Some? && r01.None? && r02.None? { return r12, Some(0); }
      if r01.Some? && r02.None? && r12.None? { return r01, Some(2); }
      return None, None;
    }
    payload, altered := None, None;
    if s[0].Some? && s[1].Some? {
      payload := TryPadded(c, m, s, 0, 1);
    } else if s[0].Some? && s[2].Some? {
      payload := TryPadded(c, m, s, 0, 2);
    } else if s[1].Some? && s[2].Some? {
      payload := TryPadded(c, m, s, 1, 2);
    }
  }

  /** The shard with index `i` that was sent. */
  function Sent(c: Code, m: Message, i: nat): Bytes
    requires i < 3
  {
    Encode(c, m.sealed)[i]
  }

  lemma OpenedPayload(m: Message)
    requires Sendable(m)
    ensures var plain := Frame(m.pay);
      2 + ReadBe16(plain) <= |plain| && plain[2..2 + ReadBe16(plain)] == m.pay
  {
    FrameRoundTrip(m.pay);
  }

  /** A pair never yields anything but the payload, whatever the shards are. */
  lemma PairNeverWrong(c: Code, m: Message, s: Slots, a: nat, b: nat)
    requires |s| == 3 && a < b < 3 && Sendable(m)
    ensures TryPair(c, m, s, a, b).Some? ==> TryPair(c, m, s, a, b).value == m.pay
  {
    OpenedPayload(m);
  }

  /** Whatever happened to however many shards, no wrong payload ever comes out. */
  lemma NeverWrongPayload(c: Code, m: Message, s: Slots)
    requires |s| == 3 && Sendable(m)
    ensures JoinShards(c, m, s).0.Some? ==> JoinShards(c, m, s).0.value == m.pay
  {
    PairNeverWrong(c, m, s, 0, 1);
    PairNeverWrong(c, m, s, 0, 2);
    PairNeverWrong(c, m, s, 1, 2);
  }

  lemma ZipInjective(f: (Byte, Byte) -> Byte, g: (Byte, Byte) -> Byte, a: Bytes, p: Bytes, b: Bytes)
    requires |a| == |p| == |b| && Zip(f, a, p) == b
    requires forall x: Byte, y: Byte :: g(x, f(x, y)) == y
    ensures p == Zip(g, a, b)
  {
  }

  /** Both shards of a pair as the joiner sees them, after padding to their common length. */
  function Padded(s: Slots, a: nat, b: nat, i: nat): Option<Bytes>
    requires |s| == 3 && a < b < 3 && i < 3
  {
    var empty: Slots := [None, None, None];
    PadTo(s[i], MaxLen(empty[a := s[a]][b := s[b]]))
  }

  /** A pair joins exactly when, padded to one length, both of its shards are the ones that were sent. */
  lemma PairJoinsIff(c: Code, m: Message, s: Slots, a: nat, b: nat)
    requires Cancels(c) && Sendable(m) && |s| == 3 && a < b < 3 && s[a].Some? && s[b].Some?
    ensures TryPair(c, m, s, a, b).Some?
            <==> Padded(s, a, b, a) == Some(Sent(c, m, a)) && Padded(s, a, b, b) == Some(Sent(c, m, b))
  {
    OpenedPayload(m);
    var x, y := Padded(s, a, b, a).value, Padded(s, a, b, b).value;
    var empty: Slots := [None, None, None];
    var pair := empty[a := s[a]][b := s[b]];
    var n := MaxLen(pair);
    assert pair[a] == s[a] && pair[b] == s[b];
    assert |x| == n && |y| == n;
    var w: Slots := [PadTo(pair[0], n), PadTo(pair[1], n), PadTo(pair[2], n)];
    assert w == empty[a := Some(x)][b := Some(y)];
    JoinedIff(c, m.sealed, a, b, x, y);
  }

  /** Two shards of equal length rebuild `data` exactly when both are shards of `data`. */
  lemma JoinedIff(c: Code, data: Bytes, a: nat, b: nat, x: Bytes, y: Bytes)
    requires Cancels(c) && a < b < 3 && |x| == |y| && |data| % 2 == 0 && data != []
    ensures
      var empty: Slots := [None, None, None];
      Join(c, empty[a := Some(x)][b := Some(y)]) == Some(data)
      <==> x == Encode(c, data)[a] && y == Encode(c, data)[b]
  {
    var e := Encode(c, data);
    assert e[0] + e[1] == data;
    RecoverFirst(c, e[0], e[1]);
    RecoverSecond(c, e[0], e[1]);
    var empty: Slots := [None, None, None];
    var r := Join(c, empty[a := Some(x)][b := Some(y)]);
    if r == Some(data) {
      if b == 1 {
        assert x == data[..|x|] && y == data[|x|..];
      } else if a == 0 {
        assert x == data[..|x|] && Zip(c.second, x, y) == data[|x|..];
        ZipInjective(c.second, c.parity, x, y, e[1]);
      } else {
        assert Zip(c.first, x, y) == data[..|x|] && x == data[|x|..];
        ZipInjective(c.first, (p: Byte, q: Byte) => c.parity(q, p), x, y, e[0]);
      }
    }
  }

  /** Shard `i` arrived unaltered. */
  ghost predicate Clean(c: Code, m: Message, s: Slots, i: nat)
    requires |s| == 3 && i < 3
  {
    s[i] == Some(Sent(c, m, i))
  }

  /** Shard `i` arrived with nothing altered but, at most, some trailing zero bytes cut off. */
  ghost predicate Trimmed(c: Code, m: Message, s: Slots, i: nat)
    requires |s| == 3 && i < 3
  {
    && s[i].Some? && |s[i].value| <= |Sent(c, m, i)|
    && s[i].value + Zeros(|Sent(c, m, i)| - |s[i].value|) == Sent(c, m, i)
  }

  lemma CleanIsTrimmed(c: Code, m: Message, s: Slots, i: nat)
    requires |s| == 3 && i < 3
    ensures Clean(c, m, s, i) <==> Trimmed(c, m, s, i) && |s[i].value| == |Sent(c, m, i)|
  {
    if s[i].Some? && |s[i].value| == |Sent(c, m, i)| { assert s[i].value + Zeros(0) == s[i].value; }
  }

  /** What a pair contributes: both shards trimmed at most, and one of them whole. */
  ghost predicate Sufficient(c: Code, m: Message, s: Slots, a: nat, b: nat)
    requires |s| == 3 && a < b < 3
  {
    Trimmed(c, m, s, a) && Trimmed(c, m, s, b) && (Clean(c, m, s, a) || Clean(c, m, s, b))
  }

  /** The longer one of two shards. */
  lemma PairLength(s: Slots, a: nat, b: nat)
    requires |s| == 3 && a < b < 3 && s[a].Some? && s[b].Some?
    ensures
      var empty: Slots := [None, None, None];
      var x, y := |s[a].value|, |s[b].value|;
      MaxLen(empty[a := s[a]][b := s[b]]) == if x > y then x else y
  {
    var empty: Slots := [None, None, None];
    var pair := empty[a := s[a]][b := s[b]];
    var x, y := |s[a].value|, |s[b].value|;
    MaxLenBound(pair, if x > y then x else y);
    assert pair[a] == s[a] && pair[b] == s[b];
  }

  /** Padding to `n` gives the sent shard exactly when `n` is its length and nothing but zeros was cut off. */
  lemma PaddedIff(c: Code, m: Message, s: Slots, i: nat, n: nat)
    requires |s| == 3 && i < 3 && s[i].Some? && |s[i].value| <= n
    ensures PadTo(s[i], n) == Some(Sent(c, m, i)) <==> n == |Sent(c, m, i)| && Trimmed(c, m, s, i)
  {
    var v := s[i].value;
    assert v + Zeros(0) == v;
    assert PadTo(s[i], n) == Some(v + Zeros(n - |v|));
  }

  /** A pair yields the payload exactly when it suffices, for shards of any lengths. */
  lemma PairYieldsIff(c: Code, m: Message, s: Slots, a: nat, b: nat)
    requires Cancels(c) && Sendable(m) && |s| == 3 && a < b < 3 && s[a].Some? && s[b].Some?
    ensures TryPair(c, m, s, a, b) == if Sufficient(c, m, s, a, b) then Some(m.pay) else None
  {
    PairJoinsIff(c, m, s, a, b);
    PairNeverWrong(c, m, s, a, b);
    PairLength(s, a, b);
    var n := if |s[a].value| > |s[b].value| then |s[a].value| else |s[b].value|;
    PaddedIff(c, m, s, a, n);
    PaddedIff(c, m, s, b, n);
    CleanIsTrimmed(c, m, s, a);
    CleanIsTrimmed(c, m, s, b);
  }

  /**
   What the joiner should give for any three slots, by which shards are whole and which are trimmed:
   the payload if one pair suffices and the two others do not, or if all do; and the index left out.
   */
  ghost function Verdict(c: Code, m: Message, s: Slots): (Option<Bytes>, Option<nat>)
    requires |s| == 3
  {
    Ruling(m.pay, s[0].Some? && s[1].Some? && s[2].Some?,
           Sufficient(c, m, s, 0, 1), Sufficient(c, m, s, 0, 2), Sufficient(c, m, s, 1, 2))
  }

  ghost function Ruling(pay: Bytes, here: bool, j01: bool, j02: bool, j12: bool): (Option<Bytes>, Option<nat>) {
    if !here then (if j01 || j02 || j12 then Some(pay) else None, None)
    else if j01 && j02 && j12 then (Some(pay), None)
    else if j01 && !j02 && !j12 then (Some(pay), Some(2))
    else if j02 && !j01 && !j12 then (Some(pay), Some(1))
    else if j12 && !j01 && !j02 then (Some(pay), Some(0))
    else (None, None)
  }

  lemma JoinIsVerdict(c: Code, m: Message, s: Slots)
    requires Cancels(c) && Sendable(m) && |s| == 3
    ensures JoinShards(c, m, s) == Verdict(c, m, s)
  {
    if s[0].Some? && s[1].Some? { PairYieldsIff(c, m, s, 0, 1); }
    if s[0].Some? && s[2].Some? { PairYieldsIff(c, m, s, 0, 2); }
    if s[1].Some? && s[2].Some? { PairYieldsIff(c, m, s, 1, 2); }
  }

  /** Two of the three shards are whole. */
  ghost predicate TwoClean(c: Code, m: Message, s: Slots)
    requires |s| == 3
  {
    var c0, c1, c2 := Clean(c, m, s, 0), Clean(c, m, s, 1), Clean(c, m, s, 2);
    (c0 && c1) || (c0 && c2) || (c1 && c2)
  }

  /** The two shards other than `i` suffice. */
  ghost predicate OthersSuffice(c: Code, m: Message, s: Slots, i: nat)
    requires |s| == 3 && i < 3
  {
    if i == 0 then Sufficient(c, m, s, 1, 2)
    else if i == 1 then Sufficient(c, m, s, 0, 2)
    else Sufficient(c, m, s, 0, 1)
  }

  /**
   For any three shards of any lengths: shard `i` is singled out exactly when it is altered beyond
   trimmed zeros and the two others suffice; the payload comes without an index exactly when all
   three are trimmed at most and two are whole; and in every other case nothing comes.
   */
  lemma JoinIff(c: Code, m: Message, s: Slots, i: nat)
    requires Cancels(c) && Sendable(m) && |s| == 3 && s[0].Some? && s[1].Some? && s[2].Some? && i < 3
    ensures var r := JoinShards(c, m, s);
      var all := Trimmed(c, m, s, 0) && Trimmed(c, m, s, 1) && Trimmed(c, m, s, 2);
      && (r == (Some(m.pay), Some(i)) <==> !Trimmed(c, m, s, i) && OthersSuffice(c, m, s, i))
      && (r == (Some(m.pay), None) <==> all && TwoClean(c, m, s))
      && (r == (None, None) || r.0 == Some(m.pay))
  {
    JoinIsVerdict(c, m, s);
    CleanIsTrimmed(c, m, s, 0);
    CleanIsTrimmed(c, m, s, 1);
    CleanIsTrimmed(c, m, s, 2);
  }

  ghost predicate AllPresent(c: Code, m: Message, s: Slots) {
    |s| == 3 && forall i :: 0 <= i < 3 ==> s[i].Some? && |s[i].value| == |m.sealed| / 2
  }

  /**
   Three shards whose lengths were not changed: with all clean the payload and no index, with
   exactly one altered the payload and its index, and with two or more altered nothing.
   */
  lemma AlteredShardIsSingledOut(c: Code, m: Message, s: Slots)
    requires Cancels(c) && Sendable(m) && AllPresent(c, m, s)
    ensures JoinShards(c, m, s) ==
      var c0, c1, c2 := Clean(c, m, s, 0), Clean(c, m, s, 1), Clean(c, m, s, 2);
      if c0 && c1 && c2 then (Some(m.pay), None)
      else if c1 && c2 then (Some(m.pay), Some(0))
      else if c0 && c2 then (Some(m.pay), Some(1))
      else if c0 && c1 then (Some(m.pay), Some(2))
      else (None, None)
  {
    JoinIsVerdict(c, m, s);
    CleanIsTrimmed(c, m, s, 0);
    CleanIsTrimmed(c, m, s, 1);
    CleanIsTrimmed(c, m, s, 2);
  }

  /** With one shard missing, the other two give the payload exactly when they suffice. */
  lemma TwoShardsJoinIff(c: Code, m: Message, s: Slots, a: nat, b: nat)
    requires Cancels(c) && Sendable(m) && |s| == 3 && a < b < 3 && s[3 - a - b] == None
    ensures JoinShards(c, m, s) == (if Sufficient(c, m, s, a, b) then Some(m.pay) else None, None)
  {
    JoinIsVerdict(c, m, s);
    var k := 3 - a - b;
    assert !Trimmed(c, m, s, k);
    assert (k == 2 && a == 0 && b == 1) || (k == 1 && a == 0 && b == 2) || (k == 0 && a == 1 && b == 2);
    OnePairLeft(m.pay, Sufficient(c, m, s, 0, 1), Sufficient(c, m, s, 0, 2), Sufficient(c, m, s, 1, 2));
  }

  lemma OnePairLeft(pay: Bytes, j01: bool, j02: bool, j12: bool)
    ensures Ruling(pay, false, j01, j02, j12) == (if j01 || j02 || j12 then Some(pay) else None, None)
  {
  }

  /** Two whole shards and a third that lost only zeros: the payload comes, but the trimmed one is not named. */
  lemma TrimmedShardIsNotNamed(c: Code, m: Message, s: Slots, i: nat)
    requires Cancels(c) && Sendable(m) && |s| == 3 && i < 3 && Trimmed(c, m, s, i) && !Clean(c, m, s, i)
    requires forall j :: 0 <= j < 3 && j != i ==> Clean(c, m, s, j)
    ensures JoinShards(c, m, s) == (Some(m.pay), None)
  {
    CleanIsTrimmed(c, m, s, 0);
    CleanIsTrimmed(c, m, s, 1);
    CleanIsTrimmed(c, m, s, 2);
    JoinIff(c, m, s, i);
  }

  /** One whole shard and two that lost only zeros: two of three pairs join, and nothing is returned. */
  lemma TwoTrimmedShardsAreRefused(c: Code, m: Message, s: Slots, i: nat)
    requires Cancels(c) && Sendable(m) && |s| == 3 && i < 3 && Clean(c, m, s, i)
    requires forall j :: 0 <= j < 3 && j != i ==> Trimmed(c, m, s, j) && !Clean(c, m, s, j)
    ensures JoinShards(c, m, s) == (None, None)
  {
    CleanIsTrimmed(c, m, s, 0);
    CleanIsTrimmed(c, m, s, 1);
    CleanIsTrimmed(c, m, s, 2);
    JoinIff(c, m, s, i);
    JoinIsVerdict(c, m, s);
  }
}
