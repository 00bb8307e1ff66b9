/** The control center's request reader: read segments until headers and `Content-Length` bytes are there. */
module HttpReader {
  import opened Common

  const REQUEST_CAP := 1_048_576

  const BLANK_LINE: Bytes := [13, 10, 13, 10]

  ghost predicate BlankAt(b: Bytes, i: int) {
    0 <= i && i + 4 <= |b| && b[i..i + 4] == [13, 10, 13, 10]
  }

  /** `windows(4).position`: where the header block ends. */
  function HeaderEnd(b: Bytes): (h: Option<nat>)
    ensures h.Some? ==> BlankAt(b, h.value) && forall i :: 0 <= i < h.value ==> !BlankAt(b, i)
    ensures h.None? ==> forall i :: !BlankAt(b, i)
  {
    HeaderEndFrom(b, 0)
  }

  function HeaderEndFrom(b: Bytes, from: nat): (h: Option<nat>)
    ensures h.Some? ==> from <= h.value && BlankAt(b, h.value) && forall i :: from <= i < h.value ==> !BlankAt(b, i)
    ensures h.None? ==> forall i :: from <= i ==> !BlankAt(b, i)
    decreases |b| - from
  {
    if from + 4 > |b| then None
    else if b[from..from + 4] == BLANK_LINE then Some(from)
    else HeaderEndFrom(b, from + 1)
  }

  /** The reader is satisfied: `need` finds the announced body length in a header block. */
  ghost predicate Complete(need: Bytes -> nat, b: Bytes) {
    var h := HeaderEnd(b);
    h.Some? && |b| - (h.value + 4) >= need(b[..h.value])
  }

  function Concat(segs: seq<Bytes>): Bytes {
    if segs == [] then [] else Concat(segs[..|segs| - 1]) + segs[|segs| - 1]
  }

  /**
   The read loop.  Each segment is what one `read` returns; running out of segments is the end of
   the stream, an error or the timeout.  The buffer grows until it is complete, over the cap, or
   nothing more comes.
   */
  method ReadRequest(need: Bytes -> nat, segs: seq<Bytes>) returns (buf: Bytes, n: nat)
    requires forall i :: 0 <= i < |segs| ==> segs[i] != []
    ensures n <= |segs| && buf == Concat(segs[..n])
    ensures n == |segs| || Complete(need, buf) || |buf| > REQUEST_CAP
    ensures forall i :: 0 <= i < n ==> !Complete(need, Concat(segs[..i])) && |Concat(segs[..i])| <= REQUEST_CAP
  {
    buf, n := [], 0;
    while true
      invariant n <= |segs| && buf == Concat(segs[..n]) && |buf| <= REQUEST_CAP
      invariant forall i :: 0 <= i < n ==> !Complete(need, Concat(segs[..i])) && |Concat(segs[..i])| <= REQUEST_CAP
      decreases |segs| - n
    {
      var end := HeaderEnd(buf);
      if end.Some? {
        var wanted := need(buf[..end.value]);
        var have: nat := |buf| - (end.value + 4);
        if have >= wanted { break; }
      }
      if n == |segs| { break; }
      assert segs[..n + 1][..n] == segs[..n];
      buf := buf + segs[n];
      n := n + 1;
      if |buf| > REQUEST_CAP { break; }
    }
  }

  // ---- However a request is cut ----

  /** One request: a header block, the blank line, and exactly the announced number of body bytes. */
  datatype Request = Request(head: Bytes, body: Bytes) {
    function Wire(): Bytes { head + [13, 10, 13, 10] + body }
  }

  /** The blank line after the header block is the first one on the wire. */
  ghost predicate WellFormed(need: Bytes -> nat, r: Request) {
    HeaderEnd(r.Wire()) == Some(|r.head|) && |r.body| == need(r.head)
  }

  lemma HeaderEndOfPrefix(b: Bytes, n: nat)
    requires n <= |b|
    ensures var h := HeaderEnd(b[..n]); h.Some? ==> HeaderEnd(b) == h
  {
    var p := b[..n];
    forall i ensures BlankAt(p, i) <==> i + 4 <= n && BlankAt(b, i) {
      if 0 <= i && i + 4 <= n { Slice(b, 0, n, i, i + 4); }
    }
    var h := HeaderEnd(p);
    if h.Some? {
      assert BlankAt(b, h.value);
      assert forall i :: 0 <= i < h.value ==> !BlankAt(p, i) && !BlankAt(b, i);
      assert HeaderEnd(b).Some? && HeaderEnd(b).value == h.value;
    }
  }

  /** No proper prefix of a request satisfies the reader; the whole request does. */
  lemma OnlyTheWholeIsComplete(need: Bytes -> nat, r: Request, n: nat)
    requires WellFormed(need, r) && n <= |r.Wire()|
    ensures Complete(need, r.Wire()[..n]) <==> n == |r.Wire()|
  {
    var w := r.Wire();
    HeaderEndOfPrefix(w, n);
    assert w[..|w|] == w;
    assert w[..|r.head|] == r.head;
    if HeaderEnd(w[..n]).Some? { assert w[..n][..|r.head|] == r.head; }
  }

  lemma {:induction false} ConcatPrefix(segs: seq<Bytes>, i: nat, n: nat)
    requires i <= n <= |segs|
    ensures |Concat(segs[..i])| <= |Concat(segs[..n])|
    ensures Concat(segs[..i]) == Concat(segs[..n])[..|Concat(segs[..i])|]
    ensures i < n && (forall j :: 0 <= j < n ==> segs[j] != []) ==> |Concat(segs[..i])| < |Concat(segs[..n])|
    decreases n - i
  {
    if i < n {
      ConcatPrefix(segs, i, n - 1);
      assert segs[..n][..n - 1] == segs[..n - 1];
      assert Concat(segs[..n]) == Concat(segs[..n - 1]) + segs[n - 1];
    }
  }

  /**
   A request of at most the cap, cut into non-empty segments in any way, with or without more behind
   it: a reader that stops as `ReadRequest` does stops with exactly the request.
   */
  lemma StopsWithTheRequest(need: Bytes -> nat, r: Request, segs: seq<Bytes>, m: nat, n: nat)
    requires WellFormed(need, r) && |r.Wire()| <= 1_048_576
    requires m <= |segs| && Concat(segs[..m]) == r.Wire() && forall i :: 0 <= i < |segs| ==> segs[i] != []
    requires n <= |segs| && (n == |segs| || Complete(need, Concat(segs[..n])) || |Concat(segs[..n])| > REQUEST_CAP)
    requires forall i :: 0 <= i < n ==> !Complete(need, Concat(segs[..i])) && |Concat(segs[..i])| <= REQUEST_CAP
    ensures n == m && Concat(segs[..n]) == r.Wire()
  {
    var w := r.Wire();
    OnlyTheWholeIsComplete(need, r, |w|);
    assert w[..|w|] == w;
    if n < m {
      ConcatPrefix(segs, n, m);
      OnlyTheWholeIsComplete(need, r, |Concat(segs[..n])|);
      assert false;
    }
  }

  /** The reader and the theorem about it, put together. */
  method ReadWholeRequest(need: Bytes -> nat, r: Request, segs: seq<Bytes>, ghost m: nat) returns (buf: Bytes)
    requires WellFormed(need, r) && |r.Wire()| <= 1_048_576
    requires m <= |segs| && Concat(segs[..m]) == r.Wire() && forall i :: 0 <= i < |segs| ==> segs[i] != []
    ensures buf == r.Wire()
  {
    var n: nat;
    buf, n := ReadRequest(need, segs);
    StopsWithTheRequest(need, r, segs, m, n);
  }
}
