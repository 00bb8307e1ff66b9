/**
 The 2+1 erasure code: two data shards of equal length and one parity shard, any two of
 which rebuild the third.

 Everything is proved for every bytewise parity that is invertible in each argument;
 the coefficients of the Reed-Solomon library behind it are one choice, `XOR_CODE` is another.
 */
module ErasureCode {
  import opened Common

  /** Parity of two bytes, and how either data byte is recovered from the other one and the parity. */
  datatype Code = Code(
    parity: (Byte, Byte) -> Byte,
    first: (Byte, Byte) -> Byte,   // from (second data byte, parity)
    second: (Byte, Byte) -> Byte)  // from (first data byte, parity)

  ghost predicate Cancels(c: Code) {
    && (forall a: Byte, b: Byte {:trigger c.first(b, c.parity(a, b))} :: c.first(b, c.parity(a, b)) == a)
    && (forall a: Byte, b: Byte {:trigger c.second(a, c.parity(a, b))} :: c.second(a, c.parity(a, b)) == b)
    && (forall b: Byte, p: Byte {:trigger c.parity(c.first(b, p), b)} :: c.parity(c.first(b, p), b) == p)
    && (forall a: Byte, p: Byte {:trigger c.parity(a, c.second(a, p))} :: c.parity(a, c.second(a, p)) == p)
  }

  function Zip(f: (Byte, Byte) -> Byte, a: Bytes, b: Bytes): (z: Bytes)
    requires |a| == |b|
    ensures |z| == |a|
    ensures forall i :: 0 <= i < |z| ==> z[i] == f(a[i], b[i])
  {
    seq(|a|, i requires 0 <= i < |a| => f(a[i], b[i]))
  }

  /** Data of odd length gets one zero byte. */
  function Even(data: Bytes): (e: Bytes)
    ensures |e| % 2 == 0 && data <= e && |e| <= |data| + 1
  {
    if |data| % 2 == 0 then data else data + [0]
  }

  lemma EvenPadsWithZero(data: Bytes)
    ensures Even(data) == data || Even(data) == data + [0]
  {
  }

  function Encode(c: Code, data: Bytes): (shards: seq<Bytes>)
    ensures |shards| == 3
    ensures |shards[0]| == |shards[1]| == |shards[2]| == |Even(data)| / 2
    ensures shards[0] + shards[1] == Even(data)
  {
    var e := Even(data);
    var mid := |e| / 2;
    [e[..mid], e[mid..], Zip(c.parity, e[..mid], e[mid..])]
  }

  type Slots = seq<Option<Bytes>>

  /** Slots that were filled. */
  function Filled(s: Slots): (n: nat) {
    if s == [] then 0 else (if s[0].Some? then 1 else 0) + Filled(s[1..])
  }

  lemma FilledThree(s: Slots)
    requires |s| == 3
    ensures Filled(s) == (if s[0].Some? then 1 else 0) + (if s[1].Some? then 1 else 0) + (if s[2].Some? then 1 else 0)
  {
    assert s[1..][1..] == [s[2]];
    assert Filled(s[1..][1..]) == (if s[2].Some? then 1 else 0) + Filled([s[2]][1..]);
  }

  lemma {:induction false} FilledAppend(s: Slots, t: Slots)
    ensures Filled(s + t) == Filled(s) + Filled(t)
  {
    if s == [] {
      assert s + t == t;
    } else {
      assert (s + t)[1..] == s[1..] + t;
      FilledAppend(s[1..], t);
    }
  }

  /** `reconstruct` followed by concatenating the two data shards. */
  function Join(c: Code, s: Slots): Option<Bytes> {
    if |s| != 3 then None
    else if s[0].Some? && s[1].Some? then Some(s[0].value + s[1].value)
    else if s[0].Some? && s[2].Some? && |s[0].value| == |s[2].value| > 0 then
      Some(s[0].value + Zip(c.second, s[0].value, s[2].value))
    else if s[1].Some? && s[2].Some? && |s[1].value| == |s[2].value| > 0 then
      Some(Zip(c.first, s[1].value, s[2].value) + s[1].value)
    else None
  }

  /** Each slot is empty or holds the shard of `data` with its index. */
  ghost predicate Genuine(c: Code, data: Bytes, s: Slots) {
    |s| == 3 && forall i :: 0 <= i < 3 && s[i].Some? ==> s[i].value == Encode(c, data)[i]
  }

  lemma RecoverFirst(c: Code, a: Bytes, b: Bytes)
    requires Cancels(c) && |a| == |b|
    ensures Zip(c.first, b, Zip(c.parity, a, b)) == a
  {
  }

  lemma RecoverSecond(c: Code, a: Bytes, b: Bytes)
    requires Cancels(c) && |a| == |b|
    ensures Zip(c.second, a, Zip(c.parity, a, b)) == b
  {
  }

  /** Any two of the three shards give the data back. */
  lemma AnyTwoRebuild(c: Code, data: Bytes, s: Slots)
    requires Cancels(c) && data != [] && Genuine(c, data, s) && Filled(s) >= 2
    ensures Join(c, s) == Some(Even(data))
  {
    FilledThree(s);
    var e := Encode(c, data);
    RecoverFirst(c, e[0], e[1]);
    RecoverSecond(c, e[0], e[1]);
  }

  /** Fewer than two shards, or a parity of another length or of no bytes, rebuild nothing. */
  lemma TooLittleRebuildsNothing(c: Code, s: Slots)
    requires |s| == 3
    ensures Filled(s) < 2 ==> Join(c, s) == None
    ensures s[2].Some? && s[0].Some? != s[1].Some? ==>
      var data := if s[0].Some? then s[0].value else s[1].value;
      Join(c, s) == None <==> |data| != |s[2].value| || data == []
  {
    FilledThree(s);
  }

  // ---- One such parity: exclusive or ----

  function Pow2(k: nat): (p: nat)
    ensures p >= 1
  {
    if k == 0 then 1 else 2 * Pow2(k - 1)
  }

  /** Exclusive or of the low `k` bits. */
  function Xor(a: nat, b: nat, k: nat): (r: nat)
    ensures r < Pow2(k)
    decreases k
  {
    if k == 0 then 0 else (a + b) % 2 + 2 * Xor(a / 2, b / 2, k - 1)
  }

  lemma LowBit(a: nat, b: nat, y: nat)
    ensures var x := (a + b) % 2 + 2 * y; x / 2 == y && (x + b) % 2 == a % 2
  {
  }

  lemma {:induction false} XorCancels(a: nat, b: nat, k: nat)
    requires a < Pow2(k)
    ensures Xor(Xor(a, b, k), b, k) == a
    decreases k
  {
    if k > 0 {
      LowBit(a, b, Xor(a / 2, b / 2, k - 1));
      XorCancels(a / 2, b / 2, k - 1);
    }
  }

  lemma {:induction false} XorSelf(a: nat, k: nat)
    ensures Xor(a, a, k) == 0
    decreases k
  {
    if k > 0 { XorSelf(a / 2, k - 1); }
  }

  function XorByte(a: Byte, b: Byte): Byte {
    assert Pow2(8) == 256;
    Xor(a, b, 8)
  }

  const XOR_CODE: Code := Code(XorByte, (b: Byte, p: Byte) => XorByte(p, b), (a: Byte, p: Byte) => XorByte(p, a))

  /** Flipping bits changes a byte, and flipping them again changes it back. */
  lemma XorByteFlips(a: Byte, b: Byte)
    ensures XorByte(XorByte(a, b), b) == a && (b != 0 ==> XorByte(a, b) != a)
  {
    assert Pow2(8) == 256;
    XorCancels(a, b, 8);
    XorCancels(b, a, 8);
    XorCommutes(a, b, 8);
    XorSelf(a, 8);
  }

  /** So nothing below is vacuous: a parity that is invertible in each argument exists. */
  lemma XorCodeCancels()
    ensures Cancels(XOR_CODE)
  {
    assert Pow2(8) == 256;
    forall a: Byte, b: Byte ensures XorByte(XorByte(a, b), b) == a && XorByte(a, b) == XorByte(b, a) {
      XorCancels(a, b, 8);
      XorCommutes(a, b, 8);
    }
  }

  lemma {:induction false} XorCommutes(a: nat, b: nat, k: nat)
    ensures Xor(a, b, k) == Xor(b, a, k)
    decreases k
  {
    if k > 0 { XorCommutes(a / 2, b / 2, k - 1); }
  }
}
