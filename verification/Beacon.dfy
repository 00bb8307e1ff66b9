/** The discovery beacon: a signed 112-byte prefix followed by self-describing optional sections. */
module Beacon {
  import opened Common

  const PREFIX_LEN := 112
  const MAGIC_LEN := 4
  const ZK_CONTEXT_LEN := 32
  const ZK_PROOF_LEN := 64
  const COMMIT_LEN := 32

  const ZK: Bytes := [90, 75, 80, 82]
  const ICE: Bytes := [73, 67, 69, 79]
  const RELAY: Bytes := [82, 76, 89, 67]
  const PQ: Bytes := [80, 81, 75, 33]

  datatype Proof = Proof(context: Bytes, proof: Bytes)

  datatype Sections = Sections(zk: Option<Proof>, offer: Option<Bytes>, relay: bool, commitment: Option<Bytes>)

  const BARE := Sections(None, None, false, None)

  /** One section as it is read: which one, and its contents. */
  datatype Sec = Sec(magic: Bytes, body: Bytes)

  /** A section the parser accepts; `utf8` says which offers are text. */
  predicate Accepted(utf8: Bytes -> bool, s: Sec) {
    || (s.magic == ZK && |s.body| == ZK_CONTEXT_LEN + ZK_PROOF_LEN)
    || (s.magic == ICE && utf8(s.body))
    || (s.magic == RELAY && s.body == [])
    || (s.magic == PQ && |s.body| == COMMIT_LEN)
  }

  /** A later section of a kind replaces an earlier one. */
  function Apply(acc: Sections, s: Sec): Sections {
    if s.magic == ZK && |s.body| >= ZK_CONTEXT_LEN then
      acc.(zk := Some(Proof(s.body[..ZK_CONTEXT_LEN], s.body[ZK_CONTEXT_LEN..])))
    else if s.magic == ICE then acc.(offer := Some(s.body))
    else if s.magic == RELAY then acc.(relay := true)
    else acc.(commitment := Some(s.body))
  }

  function ParseRest(utf8: Bytes -> bool, rest: Bytes, acc: Sections): (r: Option<Sections>)
    decreases |rest|
  {
    if rest == [] then Some(acc)
    else if |rest| < 6 then None
    else
      var len := ReadBe16(rest[4..6]);
      if 6 + len > |rest| then None
      else
        var s := Sec(rest[..4], rest[6..6 + len]);
        if Accepted(utf8, s) then ParseRest(utf8, rest[6 + len..], Apply(acc, s)) else None
  }

  /** `parse_beacon_sections` on the bytes received. */
  function Parse(utf8: Bytes -> bool, b: Bytes): Option<Sections> {
    if |b| <= PREFIX_LEN then Some(BARE) else ParseRest(utf8, b[PREFIX_LEN..], BARE)
  }

  datatype Cursor = Cursor(pos: nat, acc: Sections)

  /** One turn of the loop: the section at `pos`, or `None` to give up. */
  function Turn(utf8: Bytes -> bool, buf: Bytes, amt: nat, at: Cursor): (next: Option<Cursor>)
    requires at.pos < amt <= |buf|
    ensures next.Some? ==> at.pos + 6 <= next.value.pos <= amt
  {
    if at.pos + 6 > amt then None
    else
      var end := at.pos + 6 + ReadBe16(buf[at.pos + 4..at.pos + 6]);
      if end > amt then None
      else
        var s := Sec(buf[at.pos..at.pos + 4], buf[at.pos + 6..end]);
        if Accepted(utf8, s) then Some(Cursor(end, Apply(at.acc, s))) else None
  }

  /** What is left to parse from a position. */
  function Remaining(utf8: Bytes -> bool, buf: Bytes, amt: nat, at: Cursor): Option<Sections>
    requires amt <= |buf|
  {
    if at.pos <= amt then ParseRest(utf8, buf[at.pos..amt], at.acc) else Some(at.acc)
  }

  lemma ParseTurn(utf8: Bytes -> bool, buf: Bytes, amt: nat, at: Cursor)
    requires at.pos < amt <= |buf|
    ensures var next := Turn(utf8, buf, amt, at);
      Remaining(utf8, buf, amt, at) == if next.None? then None else Remaining(utf8, buf, amt, next.value)
  {
    var pos := at.pos;
    if pos + 6 <= amt {
      Slice(buf, pos, amt, 0, 4);
      Slice(buf, pos, amt, 4, 6);
      var len := ReadBe16(buf[pos + 4..pos + 6]);
      if pos + 6 + len <= amt {
        Slice(buf, pos, amt, 6, 6 + len);
        Slice(buf, pos, amt, 6 + len, amt - pos);
        var rest, end := buf[pos..amt], pos + 6 + len;
        assert rest[..4] == buf[pos..pos + 4] && rest[6 + len..] == buf[end..amt];
      }
    }
  }

  method ReadTurn(utf8: Bytes -> bool, buf: Bytes, amt: nat, at: Cursor) returns (next: Option<Cursor>)
    requires at.pos < amt <= |buf|
    ensures next == Turn(utf8, buf, amt, at)
  {
    if at.pos + 6 > amt { return None; }
    var len := ReadBe16(buf[at.pos + 4..at.pos + 6]);
    var start := at.pos + 6;
    var end := start + len;
    if end > amt { return None; }
    var acc := ReadSection(utf8, Sec(buf[at.pos..at.pos + 4], buf[start..end]), at.acc);
    if acc.None? { return None; }
    next := Some(Cursor(end, acc.value));
  }

  method ReadSection(utf8: Bytes -> bool, s: Sec, acc: Sections) returns (r: Option<Sections>)
    ensures r == if Accepted(utf8, s) then Some(Apply(acc, s)) else None
  {
    if s.magic == ZK {
      if |s.body| != ZK_CONTEXT_LEN + ZK_PROOF_LEN { return None; }
      return Some(acc.(zk := Some(Proof(s.body[..ZK_CONTEXT_LEN], s.body[ZK_CONTEXT_LEN..]))));
    } else if s.magic == ICE {
      if !utf8(s.body) { return None; }
      return Some(acc.(offer := Some(s.body)));
    } else if s.magic == RELAY {
      if |s.body| != 0 { return None; }
      return Some(acc.(relay := true));
    } else if s.magic == PQ {
      if |s.body| != COMMIT_LEN { return None; }
      return Some(acc.(commitment := Some(s.body)));
    }
    return None;
  }

  lemma ParseStart(utf8: Bytes -> bool, buf: Bytes, amt: nat)
    requires amt <= |buf|
    ensures Parse(utf8, buf[..amt]) == Remaining(utf8, buf, amt, Cursor(PREFIX_LEN, BARE))
  {
    if PREFIX_LEN <= amt {
      Slice(buf, 0, amt, PREFIX_LEN, amt);
      assert buf[..amt][PREFIX_LEN..] == buf[PREFIX_LEN..amt];
    }
  }

  /** The loop as it walks the datagram. */
  method ParseBeaconSections(utf8: Bytes -> bool, buf: Bytes, amt: nat) returns (r: Option<Sections>)
    requires amt <= |buf|
    ensures r == Parse(utf8, buf[..amt])
  {
    ParseStart(utf8, buf, amt);
    var at := Cursor(PREFIX_LEN, BARE);
    while at.pos < amt
      invariant Parse(utf8, buf[..amt]) == Remaining(utf8, buf, amt, at)
      decreases amt - at.pos
    {
      ParseTurn(utf8, buf, amt, at);
      var next := ReadTurn(utf8, buf, amt, at);
      if next.None? { return None; }
      at := next.value;
    }
    assert at.pos == amt ==> buf[at.pos..amt] == [];
    r := Some(at.acc);
  }

  // ---- Printing ----

  function Print(s: Sec): (b: Bytes)
    ensures |b| == |s.magic| + 2 + |s.body|
  {
    s.magic + Be16(|s.body|) + s.body
  }

  function PrintAll(secs: seq<Sec>): (b: Bytes) {
    if secs == [] then [] else Print(secs[0]) + PrintAll(secs[1..])
  }

  function OfProof(z: Option<Proof>): seq<Sec> {
    if z.Some? then [Sec(ZK, z.value.context + z.value.proof)] else []
  }

  function OfBytes(magic: Bytes, b: Option<Bytes>): seq<Sec> {
    if b.Some? then [Sec(magic, b.value)] else []
  }

  /** The sections a beacon carries, in the order the builder writes them. */
  function Listed(s: Sections): seq<Sec> {
    OfProof(s.zk) + OfBytes(ICE, s.offer) + OfBytes(RELAY, if s.relay then Some([]) else None)
    + OfBytes(PQ, s.commitment)
  }

  function Build(prefix: Bytes, s: Sections): Bytes
    requires |prefix| == PREFIX_LEN
  {
    prefix + PrintAll(Listed(s))
  }

  /** `build_beacon_packet` after the signed prefix. */
  method BuildBeaconPacket(prefix: Bytes, s: Sections) returns (buf: Bytes)
    requires |prefix| == PREFIX_LEN
    ensures buf == Build(prefix, s)
  {
    buf := prefix;
    if s.zk.Some? {
      var section := s.zk.value.context;
      section := section + s.zk.value.proof;
      buf := PushSection(buf, ZK, section);
      PrintOne(Sec(ZK, section));
    }
    assert buf == prefix + PrintAll(OfProof(s.zk));
    buf := PushOptional(buf, ICE, s.offer);
    buf := PushOptional(buf, RELAY, if s.relay then Some([]) else None);
    buf := PushOptional(buf, PQ, s.commitment);
    PrintFour(prefix, OfProof(s.zk), OfBytes(ICE, s.offer), OfBytes(RELAY, if s.relay then Some([]) else None),
              OfBytes(PQ, s.commitment));
  }

  method PushOptional(buf: Bytes, magic: Bytes, payload: Option<Bytes>) returns (r: Bytes)
    ensures r == buf + PrintAll(OfBytes(magic, payload))
  {
    r := buf;
    if payload.Some? {
      r := PushSection(buf, magic, payload.value);
      PrintOne(Sec(magic, payload.value));
    }
  }

  method PushSection(buf: Bytes, magic: Bytes, payload: Bytes) returns (r: Bytes)
    ensures r == buf + Print(Sec(magic, payload))
  {
    r := buf + magic;
    r := r + Be16(|payload|);
    r := r + payload;
  }

  lemma PrintFour(p: Bytes, a: seq<Sec>, b: seq<Sec>, c: seq<Sec>, d: seq<Sec>)
    ensures p + PrintAll(a) + PrintAll(b) + PrintAll(c) + PrintAll(d) == p + PrintAll(a + b + c + d)
  {
    PrintAppend(a + b + c, d);
    PrintAppend(a + b, c);
    PrintAppend(a, b);
    Associate(p, PrintAll(a), PrintAll(b), PrintAll(c), PrintAll(d));
  }

  lemma Associate(p: Bytes, a: Bytes, b: Bytes, c: Bytes, d: Bytes)
    ensures p + a + b + c + d == p + (a + b + c + d)
  {
  }

  lemma PrintOne(s: Sec)
    ensures PrintAll([s]) == Print(s) && PrintAll([]) == []
  {
    assert Print(s) + [] == Print(s);
    assert PrintAll([s]) == Print(s) + PrintAll([s][1..]);
  }

  lemma {:induction false} PrintAppend(a: seq<Sec>, b: seq<Sec>)
    ensures PrintAll(a + b) == PrintAll(a) + PrintAll(b)
  {
    if a == [] {
      assert a + b == b;
    } else {
      assert (a + b)[1..] == a[1..] + b;
      PrintAppend(a[1..], b);
    }
  }

  // ---- Parsing and printing undo each other ----

  /** Reading one printed section. */
  lemma ParsePrinted(utf8: Bytes -> bool, s: Sec, tail: Bytes, acc: Sections)
    requires |s.magic| == MAGIC_LEN && |s.body| <= 65535
    ensures ParseRest(utf8, Print(s) + tail, acc)
            == if Accepted(utf8, s) then ParseRest(utf8, tail, Apply(acc, s)) else None
  {
    PrintedParts(s, tail);
    ParseFirst(utf8, Print(s) + tail, s, tail, acc);
  }

  lemma PrintedParts(s: Sec, tail: Bytes)
    requires |s.magic| == MAGIC_LEN && |s.body| <= 65535
    ensures var rest, n := Print(s) + tail, |s.body|;
      && |rest| == 6 + n + |tail| && rest[..4] == s.magic && ReadBe16(rest[4..6]) == n
      && rest[6..6 + n] == s.body && rest[6 + n..] == tail
  {
    var rest, n := Print(s) + tail, |s.body|;
    assert rest[4..6] == Be16(n) + [];
    Be16RoundTrip(n, []);
    ModBelow(n);
  }

  lemma ParseFirst(utf8: Bytes -> bool, rest: Bytes, s: Sec, tail: Bytes, acc: Sections)
    requires |rest| == 6 + |s.body| + |tail| && rest[..4] == s.magic && ReadBe16(rest[4..6]) == |s.body|
    requires rest[6..6 + |s.body|] == s.body && rest[6 + |s.body|..] == tail
    ensures ParseRest(utf8, rest, acc)
            == if Accepted(utf8, s) then ParseRest(utf8, tail, Apply(acc, s)) else None
  {
  }

  ghost predicate Sound(utf8: Bytes -> bool, secs: seq<Sec>) {
    forall i :: 0 <= i < |secs| ==> |secs[i].magic| == MAGIC_LEN && |secs[i].body| <= 65535 && Accepted(utf8, secs[i])
  }

  ghost function ApplyAll(acc: Sections, secs: seq<Sec>): Sections
    decreases |secs|
  {
    if secs == [] then acc else ApplyAll(Apply(acc, secs[0]), secs[1..])
  }

  lemma {:induction false} ParseTiled(utf8: Bytes -> bool, secs: seq<Sec>, acc: Sections)
    requires Sound(utf8, secs)
    ensures ParseRest(utf8, PrintAll(secs), acc) == Some(ApplyAll(acc, secs))
    decreases |secs|
  {
    if secs != [] {
      ParsePrinted(utf8, secs[0], PrintAll(secs[1..]), acc);
      ParseTiled(utf8, secs[1..], Apply(acc, secs[0]));
    }
  }

  lemma FirstSection(rest: Bytes)
    requires |rest| >= 6 && 6 + ReadBe16(rest[4..6]) <= |rest|
    ensures var len := ReadBe16(rest[4..6]); rest == Print(Sec(rest[..4], rest[6..6 + len])) + rest[6 + len..]
  {
    Be16Unique(rest[4..6]);
  }

  /** An accepted tail is tiled by accepted sections, which give the result. */
  lemma {:induction false} AcceptedIsTiled(utf8: Bytes -> bool, rest: Bytes, acc: Sections) returns (secs: seq<Sec>)
    requires ParseRest(utf8, rest, acc).Some?
    ensures Sound(utf8, secs) && PrintAll(secs) == rest && ParseRest(utf8, rest, acc) == Some(ApplyAll(acc, secs))
    decreases |rest|
  {
    if rest == [] {
      secs := [];
    } else {
      var len := ReadBe16(rest[4..6]);
      var s := Sec(rest[..4], rest[6..6 + len]);
      var more := AcceptedIsTiled(utf8, rest[6 + len..], Apply(acc, s));
      FirstSection(rest);
      secs := [s] + more;
      assert secs[1..] == more;
    }
  }

  ghost predicate Tiles(utf8: Bytes -> bool, b: Bytes, secs: seq<Sec>) {
    Sound(utf8, secs) && PrintAll(secs) == b
  }

  /** The parser accepts exactly the inputs that accepted sections tile. */
  lemma AcceptsIffTiled(utf8: Bytes -> bool, b: Bytes)
    requires |b| >= PREFIX_LEN
    ensures Parse(utf8, b).Some? <==> exists secs :: Tiles(utf8, b[PREFIX_LEN..], secs)
  {
    var rest := b[PREFIX_LEN..];
    if Parse(utf8, b).Some? {
      var secs := AcceptedIsTiled(utf8, rest, BARE);
      assert Tiles(utf8, rest, secs);
    }
    if exists secs :: Tiles(utf8, rest, secs) {
      var secs :| Tiles(utf8, rest, secs);
      ParseTiled(utf8, secs, BARE);
    }
  }

  /** Field sizes and text as the sender has them; the offer may be of any length. */
  ghost predicate WellTyped(utf8: Bytes -> bool, s: Sections) {
    && (s.zk.Some? ==> |s.zk.value.context| == 32 && |s.zk.value.proof| == 64)
    && (s.offer.Some? ==> utf8(s.offer.value))
    && (s.commitment.Some? ==> |s.commitment.value| == 32)
  }

  ghost predicate OfferFits(s: Sections) {
    s.offer.Some? ==> |s.offer.value| <= 65535
  }

  lemma ListedApplies(s: Sections, utf8: Bytes -> bool)
    requires WellTyped(utf8, s) && OfferFits(s)
    ensures Sound(utf8, Listed(s)) && ApplyAll(BARE, Listed(s)) == s
  {
    var l1, l2 := OfProof(s.zk), OfBytes(ICE, s.offer);
    var l3, l4 := OfBytes(RELAY, if s.relay then Some([]) else None), OfBytes(PQ, s.commitment);
    if s.zk.Some? {
      var z := s.zk.value;
      assert (z.context + z.proof)[..ZK_CONTEXT_LEN] == z.context && (z.context + z.proof)[ZK_CONTEXT_LEN..] == z.proof;
    }
    assert ApplyAll(BARE, l1) == BARE.(zk := s.zk);
    ApplyAppend(BARE, l1, l2);
    assert ApplyAll(BARE, l1 + l2) == s.(relay := false, commitment := None);
    ApplyAppend(BARE, l1 + l2, l3);
    assert ApplyAll(BARE, l1 + l2 + l3) == s.(commitment := None);
    ApplyAppend(BARE, l1 + l2 + l3, l4);
  }

  lemma {:induction false} ApplyAppend(acc: Sections, a: seq<Sec>, b: seq<Sec>)
    ensures ApplyAll(acc, a + b) == ApplyAll(ApplyAll(acc, a), b)
    decreases |a|
  {
    if a == [] {
      assert a + b == b;
    } else {
      assert (a + b)[1..] == a[1..] + b;
      ApplyAppend(Apply(acc, a[0]), a[1..], b);
    }
  }

  /** Every combination of proof, offer, relay bit and commitment survives, exactly when the offer fits 16 bits. */
  lemma BuildThenParse(utf8: Bytes -> bool, prefix: Bytes, s: Sections)
    requires |prefix| == PREFIX_LEN && WellTyped(utf8, s)
    ensures Parse(utf8, Build(prefix, s)) == Some(s) <==> OfferFits(s)
  {
    var b := Build(prefix, s);
    assert b[PREFIX_LEN..] == PrintAll(Listed(s));
    if OfferFits(s) {
      ListedApplies(s, utf8);
      ParseTiled(utf8, Listed(s), BARE);
      if Listed(s) == [] { assert s == BARE; }
    } else if Parse(utf8, b) == Some(s) {
      ParsedIsWellTyped(utf8, b);
    }
  }

  lemma ApplyIsWellTyped(utf8: Bytes -> bool, s: Sec, acc: Sections)
    requires WellTyped(utf8, acc) && OfferFits(acc) && Accepted(utf8, s) && |s.body| <= 65535
    ensures WellTyped(utf8, Apply(acc, s)) && OfferFits(Apply(acc, s))
  {
  }

  lemma {:induction false} RestIsWellTyped(utf8: Bytes -> bool, rest: Bytes, acc: Sections)
    requires WellTyped(utf8, acc) && OfferFits(acc) && ParseRest(utf8, rest, acc).Some?
    ensures var s := ParseRest(utf8, rest, acc).value; WellTyped(utf8, s) && OfferFits(s)
    decreases |rest|
  {
    if rest != [] {
      var len := ReadBe16(rest[4..6]);
      var s := Sec(rest[..4], rest[6..6 + len]);
      ApplyIsWellTyped(utf8, s, acc);
      RestIsWellTyped(utf8, rest[6 + len..], Apply(acc, s));
    }
  }

  lemma ParsedIsWellTyped(utf8: Bytes -> bool, b: Bytes)
    requires Parse(utf8, b).Some?
    ensures WellTyped(utf8, Parse(utf8, b).value) && OfferFits(Parse(utf8, b).value)
  {
    if |b| > PREFIX_LEN { RestIsWellTyped(utf8, b[PREFIX_LEN..], BARE); }
  }

  /** Re-printing whatever was accepted, from whomever, parses to the same sections. */
  lemma ParseThenBuild(utf8: Bytes -> bool, b: Bytes, prefix: Bytes)
    requires |prefix| == PREFIX_LEN && Parse(utf8, b).Some?
    ensures Parse(utf8, Build(prefix, Parse(utf8, b).value)) == Parse(utf8, b)
  {
    ParsedIsWellTyped(utf8, b);
    BuildThenParse(utf8, prefix, Parse(utf8, b).value);
  }

  /** The parser accepts exactly the sections that some well-typed beacon prints: no other kind, size or text. */
  lemma AcceptedIffPrintable(utf8: Bytes -> bool, s: Sec)
    requires |s.body| <= 65535
    ensures Accepted(utf8, s) <==> exists w :: WellTyped(utf8, w) && Listed(w) == [s]
  {
    if Accepted(utf8, s) {
      var w := Apply(BARE, s);
      if s.magic == ZK { assert s.body[..ZK_CONTEXT_LEN] + s.body[ZK_CONTEXT_LEN..] == s.body; }
      assert WellTyped(utf8, w) && Listed(w) == [s];
    }
    if w :| WellTyped(utf8, w) && Listed(w) == [s] {
      PrintedIsAccepted(utf8, w, s);
    }
  }

  lemma PrintedIsAccepted(utf8: Bytes -> bool, w: Sections, s: Sec)
    requires WellTyped(utf8, w) && Listed(w) == [s] && |s.body| <= 65535
    ensures Accepted(utf8, s)
  {
    assert w.offer.Some? ==> Sec(ICE, w.offer.value) in OfBytes(ICE, w.offer);
    assert w.offer.Some? ==> Sec(ICE, w.offer.value) in Listed(w);
    ListedApplies(w, utf8);
    assert Sound(utf8, [s]) && [s][0] == s;
  }

  /** The layout of a full beacon: proof, offer, relay bit and commitment, in this order and with these names. */
  lemma FullBeacon(prefix: Bytes, context: Bytes, proof: Bytes, offer: Bytes, commitment: Bytes)
    requires |prefix| == 112
    ensures Build(prefix, Sections(Some(Proof(context, proof)), Some(offer), true, Some(commitment))) ==
      prefix
      + (([90, 75, 80, 82] + Be16(|context + proof|) + (context + proof))
         + (([73, 67, 69, 79] + Be16(|offer|) + offer)
            + (([82, 76, 89, 67] + [0, 0]) + ([80, 81, 75, 33] + Be16(|commitment|) + commitment))))
  {
    var a, b, c, d := Sec(ZK, context + proof), Sec(ICE, offer), Sec(RELAY, []), Sec(PQ, commitment);
    var s := Sections(Some(Proof(context, proof)), Some(offer), true, Some(commitment));
    assert Listed(s) == [a, b, c, d];
    PrintsFour(a, b, c, d);
    assert Print(c) == [82, 76, 89, 67] + [0, 0];
  }

  lemma PrintsFour(a: Sec, b: Sec, c: Sec, d: Sec)
    ensures PrintAll([a, b, c, d]) == Print(a) + (Print(b) + (Print(c) + Print(d)))
  {
    assert [a, b, c, d][1..] == [b, c, d] && [b, c, d][1..] == [c, d] && [c, d][1..] == [d] && [d][1..] == [];
    assert PrintAll([d]) == Print(d) + PrintAll([]) == Print(d);
    assert PrintAll([c, d]) == Print(c) + Print(d);
    assert PrintAll([b, c, d]) == Print(b) + (Print(c) + Print(d));
  }
}
