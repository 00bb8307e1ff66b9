/**
 One direction's per-message key chain.  The sealing side steps it once per message; the opening
 side plans a key for a claimed counter without touching the chain and commits only after the
 frame has authenticated, keeping the keys it jumped over for stragglers.
 */
module MsgChain {
  import opened Common

  const MAX_SKIP := 1024

  /** One chain step: the next chain key and the message key, whatever the derivation is. */
  datatype Kdf = Kdf(next: Bytes -> Bytes, key: Bytes -> Bytes)

  function ChainAt(k: Kdf, c: Bytes, n: nat): Bytes {
    if n == 0 then c else k.next(ChainAt(k, c, n - 1))
  }

  /** The key of the `n`th message of a chain seeded with `c`. */
  function KeyAt(k: Kdf, c: Bytes, n: nat): Bytes {
    k.key(ChainAt(k, c, n))
  }

  datatype Chain = Chain(chain: Bytes, pos: nat, skipped: map<nat, Bytes>)

  function Seed(seed: Bytes): Chain { Chain(seed, 0, map[]) }

  datatype Skip = Skip(counter: nat, key: Bytes)

  datatype Plan =
    | Forward(key: Bytes, newChain: Bytes, newPos: nat, cache: seq<Skip>)
    | Cached(counter: nat, key: Bytes)
    | Refused

  function Jumped(k: Kdf, c: Bytes, pos: nat, gap: nat): (s: seq<Skip>)
    ensures |s| == gap
  {
    seq(gap, i requires 0 <= i < gap => Skip(pos + i, KeyAt(k, c, i)))
  }

  function PlanFor(k: Kdf, m: Chain, counter: nat): Plan {
    if counter < m.pos then
      if counter in m.skipped then Cached(counter, m.skipped[counter]) else Refused
    else
      var gap := counter - m.pos;
      if gap > MAX_SKIP then Refused
      else Forward(KeyAt(k, m.chain, gap), ChainAt(k, m.chain, gap + 1), counter + 1, Jumped(k, m.chain, m.pos, gap))
  }

  function InsertAll(s: map<nat, Bytes>, cache: seq<Skip>): map<nat, Bytes>
    decreases |cache|
  {
    if cache == [] then s
    else
      var e := cache[0];
      InsertAll(if e.counter in s then s else s[e.counter := e.key], cache[1..])
  }

  ghost predicate Least(s: set<nat>, c: nat) {
    c in s && forall d :: d in s ==> c <= d
  }

  lemma {:induction false} LeastExists(s: set<nat>)
    requires s != {}
    ensures exists c :: Least(s, c)
    decreases |s|
  {
    var x :| x in s;
    if s == {x} {
      assert Least(s, x);
    } else {
      var t := s - {x};
      assert s == t + {x};
      LeastExists(t);
      var c :| Least(t, c);
      assert Least(s, if x < c then x else c);
    }
  }

  /** The smallest key of a non-empty map. */
  ghost function Oldest(s: map<nat, Bytes>): (c: nat)
    requires s != map[]
    ensures Least(s.Keys, c)
  {
    LeastExists(s.Keys);
    var c :| Least(s.Keys, c);
    c
  }

  ghost function Evict(s: map<nat, Bytes>): (r: map<nat, Bytes>)
    ensures r.Keys <= s.Keys && (forall c :: c in r ==> r[c] == s[c]) && |r| <= MAX_SKIP
    ensures |s| <= MAX_SKIP ==> r == s
    decreases |s|
  {
    if |s| <= MAX_SKIP then s
    else
      var t := s - {Oldest(s)};
      assert t.Keys == s.Keys - {Oldest(s)};
      assert |t.Keys| == |s.Keys| - 1;
      Evict(t)
  }

  ghost function Commit(m: Chain, p: Plan): Chain {
    match p
    case Forward(_, newChain, newPos, cache) =>
      if newPos > m.pos then Chain(newChain, newPos, Evict(InsertAll(m.skipped, cache)))
      else m.(skipped := Evict(m.skipped))
    case Cached(counter, _) => m.(skipped := m.skipped - {counter})
    case Refused => m
  }

  /** One step of the sealing side. */
  function Stepped(k: Kdf, m: Chain): Chain { m.(chain := k.next(m.chain), pos := m.pos + 1) }

  ghost function SteppedTimes(k: Kdf, m: Chain, n: nat): Chain {
    if n == 0 then m else Stepped(k, SteppedTimes(k, m, n - 1))
  }

  /** The message sealed `n`th is sealed under the key that opening computes for counter `n`. */
  lemma {:induction false} SealerUsesKeyAt(k: Kdf, seed: Bytes, n: nat)
    ensures var m := SteppedTimes(k, Seed(seed), n);
      m.pos == n && m.chain == ChainAt(k, seed, n) && k.key(m.chain) == KeyAt(k, seed, n)
  {
    if n > 0 { SealerUsesKeyAt(k, seed, n - 1); }
  }

  class MessageChain {
    var chain: Bytes
    var pos: nat
    var skipped: map<nat, Bytes>

    ghost function State(): Chain
      reads this
    {
      Chain(chain, pos, skipped)
    }

    constructor (seed: Bytes)
      ensures State() == Seed(seed)
    {
      chain, pos, skipped := seed, 0, map[];
    }

    /** The sealing side: the key of the current position, and one step forward. */
    method Advance(k: Kdf) returns (key: Bytes)
      modifies this
      ensures key == k.key(old(chain)) && State() == Stepped(k, old(State()))
    {
      key := k.key(chain);
      chain := k.next(chain);
      pos := pos + 1;
    }

    method PlanOpen(k: Kdf, counter: nat) returns (p: Plan)
      ensures p == PlanFor(k, State(), counter)
    {
      if counter < pos {
        if counter in skipped { return Cached(counter, skipped[counter]); }
        return Refused;
      }
      var gap := counter - pos;
      if gap > MAX_SKIP { return Refused; }
      var c, cache, key := chain, [], [];
      for i := 0 to gap + 1
        invariant c == ChainAt(k, chain, i)
        invariant cache == Jumped(k, chain, pos, if i <= gap then i else gap)
        invariant i > gap ==> key == KeyAt(k, chain, gap)
      {
        var step := k.key(c);
        if i < gap {
          cache := cache + [Skip(pos + i, step)];
        } else {
          key := step;
        }
        c := k.next(c);
      }
      p := Forward(key, c, counter + 1, cache);
    }

    method CommitOpen(p: Plan)
      modifies this
      ensures State() == Commit(old(State()), p)
    {
      match p {
        case Forward(_, newChain, newPos, cache) =>
          if newPos > pos {
            chain := newChain;
            pos := newPos;
            for i := 0 to |cache|
              invariant InsertAll(old(skipped), cache) == InsertAll(skipped, cache[i..])
              invariant chain == newChain && pos == newPos
            {
              assert cache[i..][1..] == cache[i + 1..];
              if cache[i].counter !in skipped { skipped := skipped[cache[i].counter := cache[i].key]; }
            }
          }
          EvictOldest();
        case Cached(counter, _) =>
          skipped := skipped - {counter};
        case Refused =>
      }
    }

    method EvictOldest()
      modifies this`skipped
      ensures skipped == Evict(old(skipped))
    {
      while |skipped| > MAX_SKIP
        invariant Evict(skipped) == Evict(old(skipped))
        decreases |skipped|
      {
        LeastExists(skipped.Keys);
        var oldest :| oldest in skipped && forall d :: d in skipped ==> oldest <= d by {
          var c :| Least(skipped.Keys, c);
          assert c in skipped && forall d :: d in skipped ==> c <= d;
        }
        assert Least(skipped.Keys, oldest);
        assert (skipped - {oldest}).Keys == skipped.Keys - {oldest};
        assert |(skipped - {oldest}).Keys| == |skipped.Keys| - 1;
        assert oldest == Oldest(skipped);
        skipped := skipped - {oldest};
      }
    }
  }

  // ---- What a chain holds ----

  /** The chain is at its position, and everything kept is the key the sealing side uses. */
  ghost predicate Right(k: Kdf, seed: Bytes, m: Chain) {
    && m.chain == ChainAt(k, seed, m.pos)
    && (forall c :: c in m.skipped ==> c < m.pos && m.skipped[c] == KeyAt(k, seed, c))
    && |m.skipped| <= MAX_SKIP
  }

  /** The right keys for the counters from `lo` on. */
  ghost predicate Skips(k: Kdf, seed: Bytes, cache: seq<Skip>, lo: nat) {
    forall i :: 0 <= i < |cache| ==> cache[i] == Skip(lo + i, KeyAt(k, seed, lo + i))
  }

  /** A plan for `counter` that was right when it was made, whenever that was. */
  ghost predicate Sound(k: Kdf, seed: Bytes, p: Plan, counter: nat) {
    match p
    case Forward(key, newChain, newPos, cache) =>
      && key == KeyAt(k, seed, counter) && newChain == ChainAt(k, seed, counter + 1) && newPos == counter + 1
      && |cache| <= counter && |cache| <= MAX_SKIP && Skips(k, seed, cache, counter - |cache|)
    case Cached(c, key) => c == counter && key == KeyAt(k, seed, counter)
    case Refused => true
  }

  lemma {:induction false} ChainAdds(k: Kdf, c: Bytes, a: nat, b: nat)
    ensures ChainAt(k, ChainAt(k, c, a), b) == ChainAt(k, c, a + b)
    decreases b
  {
    if b > 0 { ChainAdds(k, c, a, b - 1); }
  }

  lemma JumpedIsRight(k: Kdf, seed: Bytes, pos: nat, gap: nat)
    ensures Skips(k, seed, Jumped(k, ChainAt(k, seed, pos), pos, gap), pos)
  {
    forall i | 0 <= i < gap ensures KeyAt(k, ChainAt(k, seed, pos), i) == KeyAt(k, seed, pos + i) {
      ChainAdds(k, seed, pos, i);
    }
  }

  lemma JumpIsSound(k: Kdf, seed: Bytes, pos: nat, gap: nat)
    requires gap <= MAX_SKIP
    ensures var c := ChainAt(k, seed, pos);
      var p := Forward(KeyAt(k, c, gap), ChainAt(k, c, gap + 1), pos + gap + 1, Jumped(k, c, pos, gap));
      Sound(k, seed, p, pos + gap)
  {
    var c := ChainAt(k, seed, pos);
    assert KeyAt(k, c, gap) == KeyAt(k, seed, pos + gap) by { ChainAdds(k, seed, pos, gap); }
    assert ChainAt(k, c, gap + 1) == ChainAt(k, seed, pos + (gap + 1)) by { ChainAdds(k, seed, pos, gap + 1); }
    JumpedIsRight(k, seed, pos, gap);
  }

  /** Whatever the plan is, its key is the key the message with that counter was sealed under. */
  lemma PlannedKeyIsRight(k: Kdf, seed: Bytes, m: Chain, counter: nat)
    requires Right(k, seed, m)
    ensures var p := PlanFor(k, m, counter);
      && Sound(k, seed, p, counter)
      && (!p.Refused? ==> p.key == KeyAt(k, seed, counter))
      && (p.Forward? ==> counter - |p.cache| == m.pos) && (p.Cached? ==> counter < m.pos)
  {
    if m.pos <= counter <= m.pos + MAX_SKIP { JumpIsSound(k, seed, m.pos, counter - m.pos); }
  }

  /** A chain offers a key for a counter exactly when it is within reach ahead, or kept. */
  lemma PlansIff(k: Kdf, m: Chain, counter: nat)
    ensures !PlanFor(k, m, counter).Refused? <==>
      m.pos <= counter <= m.pos + 1024 || (counter < m.pos && counter in m.skipped)
  {
  }

  lemma {:induction false} Inserted(s: map<nat, Bytes>, cache: seq<Skip>, lo: nat)
    requires forall i :: 0 <= i < |cache| ==> cache[i].counter == lo + i
    ensures var r := InsertAll(s, cache);
      && (forall c :: c in r <==> c in s || lo <= c < lo + |cache|)
      && (forall c :: c in s ==> r[c] == s[c])
      && (forall i :: 0 <= i < |cache| && lo + i !in s ==> r[lo + i] == cache[i].key)
    decreases |cache|
  {
    if cache != [] {
      var s2 := if lo in s then s else s[lo := cache[0].key];
      Inserted(s2, cache[1..], lo + 1);
      var r := InsertAll(s2, cache[1..]);
      forall i | 0 <= i < |cache| && lo + i !in s ensures r[lo + i] == cache[i].key {
        if i > 0 { assert cache[1..][i - 1] == cache[i] && lo + 1 + (i - 1) !in s2; }
      }
    }
  }

  /** What a jump adds: the right keys for exactly the counters from the planned position on. */
  lemma JumpStores(k: Kdf, seed: Bytes, s: map<nat, Bytes>, cache: seq<Skip>, lo: nat)
    requires Skips(k, seed, cache, lo) && forall c :: c in s ==> s[c] == KeyAt(k, seed, c)
    ensures var r := InsertAll(s, cache);
      && (forall c :: c in r <==> c in s || lo <= c < lo + |cache|)
      && (forall c :: c in r ==> r[c] == KeyAt(k, seed, c))
  {
    Inserted(s, cache, lo);
    var r := InsertAll(s, cache);
    forall c | c in r ensures r[c] == KeyAt(k, seed, c) {
      if c !in s { assert lo + (c - lo) !in s && cache[c - lo].key == r[lo + (c - lo)]; }
    }
  }

  /** Evicting and moving on keeps what is right. */
  lemma EvictIsRight(k: Kdf, seed: Bytes, s: map<nat, Bytes>, pos: nat)
    requires forall c :: c in s ==> c < pos && s[c] == KeyAt(k, seed, c)
    ensures Right(k, seed, Chain(ChainAt(k, seed, pos), pos, Evict(s)))
  {
    var e := Evict(s);
    assert forall c :: c in e ==> c in s && e[c] == s[c];
  }

  lemma CommitForward(m: Chain, p: Plan)
    requires p.Forward?
    ensures p.newPos > m.pos ==> Commit(m, p) == Chain(p.newChain, p.newPos, Evict(InsertAll(m.skipped, p.cache)))
    ensures p.newPos <= m.pos && |m.skipped| <= MAX_SKIP ==> Commit(m, p) == m
  {
  }

  lemma ForwardKeepsRight(k: Kdf, seed: Bytes, m: Chain, p: Plan, counter: nat, r: Chain, all: map<nat, Bytes>)
    requires Right(k, seed, m) && Sound(k, seed, p, counter) && p.Forward? && counter >= m.pos
    requires all == InsertAll(m.skipped, p.cache) && r == Chain(p.newChain, p.newPos, Evict(all))
    ensures Right(k, seed, r) && r.pos == counter + 1
  {
    JumpStores(k, seed, m.skipped, p.cache, counter - |p.cache|);
    EvictIsRight(k, seed, all, counter + 1);
  }

  /** Committing any sound plan, fresh or stale, leaves only right keys. */
  lemma CommitKeepsRight(k: Kdf, seed: Bytes, m: Chain, p: Plan, counter: nat)
    requires Right(k, seed, m) && Sound(k, seed, p, counter)
    ensures Right(k, seed, Commit(m, p))
    ensures Commit(m, p).pos == if p.Forward? && counter >= m.pos then counter + 1 else m.pos
  {
    match p {
      case Forward(_, _, _, _) =>
        CommitForward(m, p);
        if counter >= m.pos { ForwardKeepsRight(k, seed, m, p, counter, Commit(m, p), InsertAll(m.skipped, p.cache)); }
      case Cached(c, _) =>
        assert (m.skipped - {c}).Keys == m.skipped.Keys - {c};
        Fewer((m.skipped - {c}).Keys, m.skipped.Keys);
      case Refused =>
    }
  }

  // ---- What the cap evicts ----

  ghost function Above(s: set<nat>, d: nat): set<nat> {
    set c | c in s && c > d
  }

  lemma Fewer(s: set<nat>, t: set<nat>)
    requires s <= t
    ensures |s| <= |t|
  {
    assert t == s + (t - s);
  }

  /** Eviction keeps exactly the keys that have fewer than the cap above them. */
  lemma {:induction false} EvictKeepsIff(s: map<nat, Bytes>, d: nat)
    ensures d in Evict(s) <==> d in s && |Above(s.Keys, d)| < MAX_SKIP
    decreases |s|
  {
    if |s| <= MAX_SKIP {
      if d in s {
        Fewer(Above(s.Keys, d) + {d}, s.Keys);
        assert |Above(s.Keys, d) + {d}| == |Above(s.Keys, d)| + 1;
        assert |s.Keys| == |s|;
      }
    } else {
      var c := Oldest(s);
      var t := s - {c};
      assert t.Keys == s.Keys - {c};
      assert |t.Keys| == |s.Keys| - 1;
      EvictKeepsIff(t, d);
      if d == c {
        assert Above(s.Keys, d) == s.Keys - {d};
      } else if d in s {
        assert Above(t.Keys, d) == Above(s.Keys, d);
      }
    }
  }
}
