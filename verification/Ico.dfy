/**
 The icon file: the script that writes it (DIB entries with bottom-up BGRA rows and an AND mask) and
 the decoder that reads it back.  All stored numbers are little-endian.
 */
module Ico {
  import opened Common

  const U16 := 65536
  const U32 := 4294967296

  // ---- Numbers ----

  function Le16(n: nat): (b: Bytes)
    requires n < U16
    ensures |b| == 2
  {
    [n % 256, n / 256]
  }

  function Le32(n: nat): (b: Bytes)
    requires n < U32
    ensures |b| == 4
  {
    [n % 256, n / 256 % 256, n / 65536 % 256, n / 16777216]
  }

  function ReadLe16(data: Bytes, off: nat): (n: Option<nat>)
    ensures n.Some? <==> off + 2 <= |data|
  {
    if off + 2 > |data| then None else
    var a: nat, b: nat := data[off], data[off + 1];
    Some(a + 256 * b)
  }

  function ReadLe32(data: Bytes, off: nat): (n: Option<nat>)
    ensures n.Some? <==> off + 4 <= |data|
    ensures n.Some? ==> n.value < U32
  {
    if off + 4 > |data| then None else
    var a: nat, b: nat, c: nat, d: nat := data[off], data[off + 1], data[off + 2], data[off + 3];
    Some(a + 256 * b + 65536 * c + 16777216 * d)
  }

  /** The two's complement reading of 32 bits. */
  function AsI32(n: nat): int { if n < U32 / 2 then n else n - U32 }

  /** The byte that counts for one comes first. */
  lemma LeDigits(a: Byte, b: Byte, c: Byte, d: Byte)
    ensures Le16(256 * b + a) == [a, b]
    ensures Le32(0x100_0000 * d + 0x1_0000 * c + 0x100 * b + a) == [a, b, c, d]
  {
    var low: nat := 0x1_0000 * c + 0x100 * b + a;
    var n := 0x100_0000 * d + low;
    assert n / 0x100_0000 == d && n / 0x1_0000 == 256 * d + c && n / 256 == 65536 * d + 256 * c + b;
  }

  lemma Le16Read(data: Bytes, off: nat, n: nat)
    requires n < U16 && off + 2 <= |data| && data[off..off + 2] == Le16(n)
    ensures ReadLe16(data, off) == Some(n)
  {
    assert data[off] == data[off..off + 2][0] && data[off + 1] == data[off..off + 2][1];
  }

  lemma Le32Read(data: Bytes, off: nat, n: nat)
    requires n < U32 && off + 4 <= |data| && data[off..off + 4] == Le32(n)
    ensures ReadLe32(data, off) == Some(n)
  {
    var f := data[off..off + 4];
    assert data[off] == f[0] && data[off + 1] == f[1] && data[off + 2] == f[2] && data[off + 3] == f[3];
    var q := n / 256;
    var r := q / 256;
    assert n / 65536 == r && n / 16777216 == r / 256;
  }

  // ---- Pixels: rows upside down, red and blue exchanged ----

  /** The bytes of `h` rows of `n` bytes. */
  function Area(n: nat, h: nat): nat {
    if h == 0 then 0 else Area(n, h - 1) + n
  }

  lemma {:induction false} AreaIs(w: nat, h: nat)
    ensures Area(4 * w, h) == w * h * 4
  {
    if h > 0 {
      AreaIs(w, h - 1);
      assert w * h == w * (h - 1) + w;
    }
  }

  lemma RowStart(w: nat, y: nat)
    ensures Area(4 * w, y) == y * w * 4
  {
    AreaIs(w, y);
    assert y * w == w * y;
  }

  lemma {:induction false} AreaSplits(n: nat, a: nat, b: nat)
    ensures Area(n, a + b) == Area(n, a) + Area(n, b)
  {
    if b > 0 { AreaSplits(n, a, b - 1); }
  }

  /** The first and third byte of a pixel stand in for each other. */
  function Partner(i: nat): nat {
    if i % 4 == 0 then i + 2 else if i % 4 == 2 then i - 2 else i
  }

  /** Whole pixels with red and blue exchanged. */
  function Swap(row: Bytes): (r: Bytes)
    ensures |r| == |row|
  {
    seq(|row|, i requires 0 <= i < |row| => if Partner(i) < |row| then row[Partner(i)] else row[i])
  }

  /** `h` rows of `n` bytes, last row first, every row swapped. */
  function Flip(b: Bytes, n: nat, h: nat): (r: Bytes)
    requires |b| == Area(n, h)
    ensures |r| == |b|
    decreases h
  {
    if h == 0 then [] else Flip(b[n..], n, h - 1) + Swap(b[..n])
  }

  lemma SwapTwice(row: Bytes)
    ensures Swap(Swap(row)) == row
  {
    forall i | 0 <= i < |row| ensures Swap(Swap(row))[i] == row[i] {
      assert Partner(Partner(i)) == i;
    }
  }

  lemma SwapPixel(row: Bytes, a: Byte, b: Byte, c: Byte, d: Byte)
    requires |row| % 4 == 0
    ensures Swap(row + [a, b, c, d]) == Swap(row) + [c, b, a, d]
  {
    var l, m := row + [a, b, c, d], |row|;
    forall i | 0 <= i < m ensures Swap(l)[i] == Swap(row)[i] {
      assert Partner(i) < m;
    }
    assert Swap(l)[m] == c && Swap(l)[m + 1] == b && Swap(l)[m + 2] == a && Swap(l)[m + 3] == d;
  }

  lemma SwapNext(b: Bytes, lo: nat, i: nat)
    requires lo <= i && i + 4 <= |b| && (i - lo) % 4 == 0
    ensures Swap(b[lo..i + 4]) == Swap(b[lo..i]) + [b[i + 2], b[i + 1], b[i], b[i + 3]]
  {
    SwapPixel(b[lo..i], b[i], b[i + 1], b[i + 2], b[i + 3]);
    assert b[lo..i + 4] == b[lo..i] + [b[i], b[i + 1], b[i + 2], b[i + 3]];
  }

  lemma {:induction false} FlipLastRow(b: Bytes, row: Bytes, n: nat, h: nat)
    requires |b| == Area(n, h) && |row| == n
    ensures Flip(b + row, n, h + 1) == Swap(row) + Flip(b, n, h)
    decreases h
  {
    var all := b + row;
    if h == 0 {
      assert all[..n] == row && all[n..] == [];
    } else {
      assert all[n..] == b[n..] + row && all[..n] == b[..n];
      FlipLastRow(b[n..], row, n, h - 1);
      var s, f, g := Swap(row), Flip(b[n..], n, h - 1), Swap(b[..n]);
      assert (s + f) + g == s + (f + g);
    }
  }

  /** Flipping undoes itself. */
  lemma {:induction false} FlipTwice(b: Bytes, n: nat, h: nat)
    requires |b| == Area(n, h)
    ensures Flip(Flip(b, n, h), n, h) == b
    decreases h
  {
    if h > 0 {
      FlipTwice(b[n..], n, h - 1);
      SwapTwice(b[..n]);
      FlipLastRow(Flip(b[n..], n, h - 1), Swap(b[..n]), n, h - 1);
      assert b[..n] + b[n..] == b;
    }
  }

  /** The last `k + 1` rows flip to the last `k` rows' flip and one row more. */
  lemma FlipNext(b: Bytes, n: nat, h: nat, k: nat)
    requires |b| == Area(n, h) && k < h
    ensures Area(n, h - k - 1) + n == Area(n, h - k) <= |b|
    ensures |b| - Area(n, h - k) == Area(n, k) && |b| - Area(n, h - k - 1) == Area(n, k + 1)
    ensures var lo, hi := Area(n, h - k - 1), Area(n, h - k);
      Flip(b[lo..], n, k + 1) == Flip(b[hi..], n, k) + Swap(b[lo..hi])
  {
    AreaSplits(n, h - k, k);
    var lo, hi := Area(n, h - k - 1), Area(n, h - k);
    assert b[lo..][n..] == b[hi..] && b[lo..][..n] == b[lo..hi];
  }

  // ---- The writer ----

  /** A square render: top-down rows of RGBA pixels. */
  datatype Square = Square(size: nat, rgba: Bytes)
  type Image = im: Square | |im.rgba| == Area(4 * im.size, im.size) witness Square(0, [])

  /** What the header can hold; beyond it the writer's packing raises. */
  predicate SizeFits(size: nat) { size * 2 < U32 / 2 && size * size * 4 < U32 }

  function DibHeader(size: nat): (h: Bytes)
    requires SizeFits(size)
    ensures |h| == 40
  {
    Le32(40) + Le32(size) + Le32(size * 2) + Le16(1) + Le16(32) + Le32(0) + Le32(size * size * 4) + Zeros(16)
  }

  function MaskLen(size: nat): nat { (size + 31) / 32 * 4 * size }

  /** The mask has one row per row of the picture: the least whole number of 32-bit words with a bit per pixel. */
  lemma MaskRows(size: nat)
    ensures exists words: nat :: MaskLen(size) == words * 4 * size && size <= 32 * words < size + 32
  {
    var words := (size + 31) / 32;
    assert MaskLen(size) == words * 4 * size && size <= 32 * words < size + 32;
  }

  /** Bottom-up BGRA rows, then the empty mask. */
  function Pixels(im: Image): (p: Bytes)
    ensures |p| == |im.rgba| + MaskLen(im.size)
  {
    Flip(im.rgba, 4 * im.size, im.size) + Zeros(MaskLen(im.size))
  }

  method ToBgraDib(im: Image) returns (out: Bytes)
    ensures out == Pixels(im)
  {
    out := BgraRows(im.rgba, im.size);
    out := out + Zeros(MaskLen(im.size));
  }

  /** The outer loop, from the last row up. */
  method BgraRows(buf: Bytes, size: nat) returns (out: Bytes)
    requires |buf| == Area(4 * size, size)
    ensures out == Flip(buf, 4 * size, size)
  {
    out := [];
    ghost var n := 4 * size;
    assert buf[|buf|..] == [];
    var y: nat := size;
    while y > 0
      invariant y <= size && Area(n, y) <= |buf| && |buf| - Area(n, y) == Area(n, size - y)
      invariant out == Flip(buf[Area(n, y)..], n, size - y)
    {
      FlipNext(buf, n, size, size - y);
      y := y - 1;
      var row := BgraRow(buf, size, y);
      out := out + row;
    }
    assert buf[0..] == buf;
  }

  /** The inner loop: one row's pixels, blue first. */
  method BgraRow(buf: Bytes, size: nat, y: nat) returns (row: Bytes)
    requires Area(4 * size, y + 1) <= |buf|
    ensures row == Swap(buf[Area(4 * size, y)..Area(4 * size, y + 1)])
  {
    row := [];
    ghost var lo := Area(4 * size, y);
    RowStart(size, y);
    for x := 0 to size
      invariant row == Swap(buf[lo..lo + 4 * x])
    {
      var i := (y * size + x) * 4;
      assert i == y * size * 4 + x * 4 == lo + 4 * x;
      SwapNext(buf, lo, i);
      row := row + [buf[i + 2], buf[i + 1], buf[i], buf[i + 3]];
    }
  }

  function Dib(im: Image): (d: Bytes)
    requires SizeFits(im.size)
    ensures |d| == 40 + |im.rgba| + MaskLen(im.size)
  {
    DibHeader(im.size) + Pixels(im)
  }

  // ---- The container: a header, a directory of 16-byte entries, the entries' bytes ----

  /** One part of the file: the size its directory entry shows, and its bytes. */
  datatype Part = Part(size: nat, bytes: Bytes)

  function Body(parts: seq<Part>, k: nat): Bytes
    requires k <= |parts|
  {
    if k == 0 then [] else Body(parts, k - 1) + parts[k - 1].bytes
  }

  function OffsetOf(parts: seq<Part>, k: nat): nat
    requires k <= |parts|
  {
    6 + 16 * |parts| + |Body(parts, k)|
  }

  predicate EntryFits(parts: seq<Part>, k: nat)
    requires k < |parts|
  {
    |parts[k].bytes| < U32 && OffsetOf(parts, k) < U32
  }

  /** Everything the directory packs is in range. */
  predicate Packable(parts: seq<Part>) {
    |parts| < U16 && forall k :: 0 <= k < |parts| ==> EntryFits(parts, k)
  }

  function Entry(size: nat, len: nat, off: nat): (e: Bytes)
    requires len < U32 && off < U32
    ensures |e| == 16 && e[8..12] == Le32(len) && e[12..] == Le32(off)
    ensures e[2..4] == [0, 0] && e[4..6] == Le16(1) && e[6..8] == Le16(32)
    ensures size < 256 ==> e[0] == size && e[1] == size
    ensures size >= 256 ==> e[0] == 0 && e[1] == 0
  {
    var dim: Byte := if size >= 256 then 0 else size;
    [dim, dim, 0, 0] + Le16(1) + Le16(32) + Le32(len) + Le32(off)
  }

  /** One after the other. */
  function Joined(blocks: seq<Bytes>): (j: Bytes) {
    if blocks == [] then [] else Joined(blocks[..|blocks| - 1]) + blocks[|blocks| - 1]
  }

  /** The directory entries of the first `k` parts. */
  function Entries(parts: seq<Part>, k: nat): (es: seq<Bytes>)
    requires k <= |parts| && forall i :: 0 <= i < k ==> EntryFits(parts, i)
    ensures |es| == k && forall i :: 0 <= i < k ==> |es[i]| == 16
  {
    if k == 0 then [] else
    assert EntryFits(parts, k - 1);
    Entries(parts, k - 1) + [Entry(parts[k - 1].size, |parts[k - 1].bytes|, OffsetOf(parts, k - 1))]
  }

  function Directory(parts: seq<Part>, k: nat): (d: Bytes)
    requires k <= |parts| && forall i :: 0 <= i < k ==> EntryFits(parts, i)
  {
    Joined(Entries(parts, k))
  }

  function FileHeader(count: nat): (h: Bytes)
    requires count < U16
    ensures |h| == 6 && h[0..2] == Le16(0) && h[2..4] == Le16(1) && h[4..6] == Le16(count)
  {
    Le16(0) + Le16(1) + Le16(count)
  }

  function File(parts: seq<Part>): (f: Bytes)
    requires Packable(parts)
  {
    FileHeader(|parts|) + Directory(parts, |parts|) + Body(parts, |parts|)
  }

  /** The part of `write_ico` after the renders; `None` where packing a field raises. */
  method Pack(parts: seq<Part>) returns (file: Option<Bytes>)
    ensures file.Some? <==> Packable(parts)
    ensures file.Some? ==> file.value == File(parts)
  {
    if |parts| >= U16 { return None; }
    var offset := 6 + 16 * |parts|;
    var directory: Bytes := [];
    for i := 0 to |parts|
      invariant offset == OffsetOf(parts, i)
      invariant forall k :: 0 <= k < i ==> EntryFits(parts, k)
      invariant directory == Directory(parts, i)
    {
      var size, dib := parts[i].size, parts[i].bytes;
      if |dib| >= U32 || offset >= U32 {
        assert !EntryFits(parts, i);
        return None;
      }
      JoinedMore(Entries(parts, i), Entry(size, |dib|, offset));
      directory := directory + Entry(size, |dib|, offset);
      offset := offset + |dib|;
    }
    var body: Bytes := [];
    for i := 0 to |parts|
      invariant body == Body(parts, i)
    {
      body := body + parts[i].bytes;
    }
    file := Some(FileHeader(|parts|) + directory + body);
  }

  lemma {:induction false} EntryIs(parts: seq<Part>, k: nat, n: nat)
    requires k < n <= |parts| && EntryFits(parts, k) && forall i :: 0 <= i < n ==> EntryFits(parts, i)
    ensures Entries(parts, n)[k] == Entry(parts[k].size, |parts[k].bytes|, OffsetOf(parts, k))
  {
    if k < n - 1 { EntryIs(parts, k, n - 1); }
  }

  lemma {:induction false} BlockInJoined(blocks: seq<Bytes>, k: nat)
    requires k < |blocks| && forall i :: 0 <= i < |blocks| ==> |blocks[i]| == 16
    ensures |Joined(blocks)| == 16 * |blocks| && Joined(blocks)[16 * k..16 * k + 16] == blocks[k]
    decreases |blocks|
  {
    var n := |blocks| - 1;
    var front, last := blocks[..n], blocks[n];
    JoinedLength(front);
    if k < n {
      BlockInJoined(front, k);
      InFront(Joined(front), last, 16 * k, 16 * k + 16);
    } else {
      Behind(Joined(front), last, 0);
      assert last[0..] == last;
    }
  }

  lemma {:induction false} JoinedLength(blocks: seq<Bytes>)
    requires forall i :: 0 <= i < |blocks| ==> |blocks[i]| == 16
    ensures |Joined(blocks)| == 16 * |blocks|
    decreases |blocks|
  {
    if blocks != [] { JoinedLength(blocks[..|blocks| - 1]); }
  }

  lemma JoinedMore(blocks: seq<Bytes>, last: Bytes)
    ensures Joined(blocks + [last]) == Joined(blocks) + last
  {
    assert (blocks + [last])[..|blocks|] == blocks;
  }

  lemma Behind(a: Bytes, b: Bytes, i: nat)
    requires i <= |b|
    ensures (a + b)[|a| + i..|a| + |b|] == b[i..]
  {
  }

  lemma InFront(a: Bytes, b: Bytes, lo: nat, hi: nat)
    requires lo <= hi <= |a|
    ensures (a + b)[lo..hi] == a[lo..hi]
  {
  }

  lemma {:induction false} PartInBody(parts: seq<Part>, k: nat, n: nat)
    requires k < n <= |parts|
    ensures var lo := |Body(parts, k)|; var hi := lo + |parts[k].bytes|;
      hi <= |Body(parts, n)| && Body(parts, n)[lo..hi] == parts[k].bytes
  {
    var b := Body(parts, n);
    assert b == Body(parts, n - 1) + parts[n - 1].bytes;
    var lo := |Body(parts, k)|;
    var hi := lo + |parts[k].bytes|;
    if k < n - 1 {
      PartInBody(parts, k, n - 1);
      InFront(Body(parts, n - 1), parts[n - 1].bytes, lo, hi);
    }
  }

  /** The three stretches of a file, cut back out of it. */
  lemma Stretches(head: Bytes, dir: Bytes, body: Bytes, i: nat, lo: nat, hi: nat)
    requires i + 16 <= |dir| && lo <= hi <= |body|
    ensures var f := head + dir + body; var h, d := |head|, |head| + |dir|;
      f[..h] == head && f[h + i..h + i + 16] == dir[i..i + 16] && f[d + lo..d + hi] == body[lo..hi]
  {
  }

  /** A block of the directory and a stretch of the body, cut back out of the file. */
  lemma BlockAndStretch(head: Bytes, blocks: seq<Bytes>, body: Bytes, k: nat, lo: nat, hi: nat)
    requires |head| == 6 && k < |blocks| && lo <= hi <= |body| && forall i :: 0 <= i < |blocks| ==> |blocks[i]| == 16
    ensures var f, d := head + Joined(blocks) + body, 6 + 16 * |blocks|;
      && |f| == d + |body| && f[6 + 16 * k..6 + 16 * k + 16] == blocks[k] && f[d + lo..d + hi] == body[lo..hi]
  {
    BlockInJoined(blocks, k);
    Stretches(head, Joined(blocks), body, 16 * k, lo, hi);
  }

  /** Whatever the blocks are: block `k` stands at its place in the file, and part `k` at its offset. */
  lemma PartStands(head: Bytes, blocks: seq<Bytes>, parts: seq<Part>, k: nat)
    requires |head| == 6 && |blocks| == |parts| && forall i :: 0 <= i < |blocks| ==> |blocks[i]| == 16
    requires k < |parts|
    ensures var f, off, d := head + Joined(blocks) + Body(parts, |parts|), OffsetOf(parts, k), parts[k].bytes;
      && 6 + 16 * k + 16 <= |f| && f[6 + 16 * k..6 + 16 * k + 16] == blocks[k]
      && off + |d| <= |f| && f[off..off + |d|] == d
  {
    var lo := |Body(parts, k)|;
    PartInBody(parts, k, |parts|);
    BlockAndStretch(head, blocks, Body(parts, |parts|), k, lo, lo + |parts[k].bytes|);
  }

  /** The entry at `at` shows this size (0 for 256 and above), one plane of 32 bits, this length and offset. */
  ghost predicate Shows(f: Bytes, at: nat, size: nat, len: nat, off: nat) {
    && at + 16 <= |f|
    && f[at] == f[at + 1] == (if size >= 256 then 0 else size)
    && ReadLe16(f, at + 4) == Some(1) && ReadLe16(f, at + 6) == Some(32)
    && ReadLe32(f, at + 8) == Some(len) && ReadLe32(f, at + 12) == Some(off)
  }

  /** Every directory entry shows its image's size, and offset and length of exactly its image's bytes. */
  lemma OffsetsPoint(parts: seq<Part>, k: nat)
    requires k < |parts| && Packable(parts)
    ensures var f, off, d := File(parts), OffsetOf(parts, k), parts[k].bytes;
      Shows(f, 6 + 16 * k, parts[k].size, |d|, off) && off + |d| <= |f| && f[off..off + |d|] == d
  {
    assert EntryFits(parts, k);
    EntryIs(parts, k, |parts|);
    OffsetsPointIn(FileHeader(|parts|), Entries(parts, |parts|), parts, k);
  }

  lemma OffsetsPointIn(head: Bytes, blocks: seq<Bytes>, parts: seq<Part>, k: nat)
    requires |head| == 6 && |blocks| == |parts| && forall i :: 0 <= i < |blocks| ==> |blocks[i]| == 16
    requires k < |parts| && EntryFits(parts, k)
    requires blocks[k] == Entry(parts[k].size, |parts[k].bytes|, OffsetOf(parts, k))
    ensures var f, off, d := head + Joined(blocks) + Body(parts, |parts|), OffsetOf(parts, k), parts[k].bytes;
      Shows(f, 6 + 16 * k, parts[k].size, |d|, off) && off + |d| <= |f| && f[off..off + |d|] == d
  {
    var f := head + Joined(blocks) + Body(parts, |parts|);
    PartStands(head, blocks, parts, k);
    EntryReads(f, 6 + 16 * k, parts[k].size, |parts[k].bytes|, OffsetOf(parts, k));
  }

  lemma EntryReads(f: Bytes, at: nat, size: nat, len: nat, off: nat)
    requires len < U32 && off < U32 && at + 16 <= |f| && f[at..at + 16] == Entry(size, len, off)
    ensures Shows(f, at, size, len, off)
  {
    var e := Entry(size, len, off);
    Slice(f, at, at + 16, 12, 16);
    assert e[12..16] == e[12..];
    Le32Read(f, at + 12, off);
    Slice(f, at, at + 16, 8, 12);
    Le32Read(f, at + 8, len);
    Slice(f, at, at + 16, 4, 6);
    Le16Read(f, at + 4, 1);
    Slice(f, at, at + 16, 6, 8);
    Le16Read(f, at + 6, 32);
    assert f[at] == f[at..at + 16][0] && f[at + 1] == f[at..at + 16][1];
  }

  lemma FileHeaderReads(parts: seq<Part>)
    requires Packable(parts)
    ensures var f := File(parts);
      ReadLe16(f, 0) == Some(0) && ReadLe16(f, 2) == Some(1) && ReadLe16(f, 4) == Some(|parts|)
  {
    var f, h := File(parts), FileHeader(|parts|);
    assert f[0..2] == h[0..2] && f[2..4] == h[2..4] && f[4..6] == h[4..6];
    Le16Read(f, 0, 0);
    Le16Read(f, 2, 1);
    Le16Read(f, 4, |parts|);
  }

  // ---- The decoder ----

  datatype Icon = Icon(width: nat, height: nat, rgba: Bytes)

  /** One entry: an icon, skipped, or a pixel count beyond 32 bits, which the decoder's arithmetic cannot hold. */
  datatype Outcome = Decoded(icon: Icon) | Skipped | Overflow

  const PNG: Bytes := [137, 80, 78, 71, 13, 10, 26, 10]

  /** What the header says: its own length, the width and the height of the picture. */
  datatype Shape = Shape(header: nat, width: nat, height: nat)

  /** The fields that decide: a 32-bit uncompressed DIB of positive width and height. */
  function ShapeAt(data: Bytes, off: nat): (s: Option<Shape>)
    ensures s.Some? ==> s.value.header >= 40 && s.value.width > 0 && s.value.height > 0
  {
    if off + 8 <= |data| && data[off..off + 8] == PNG then None else
    var header, wide, doubled, bits, compression :=
      ReadLe32(data, off), ReadLe32(data, off + 4), ReadLe32(data, off + 8),
      ReadLe16(data, off + 14), ReadLe32(data, off + 16);
    if header.None? || header.value < 40 || compression.None? then None else
    var w, d := AsI32(wide.value), AsI32(doubled.value);
    if w <= 0 || d <= 0 || compression.value != 0 || bits.value != 32 || d / 2 == 0 then None
    else Some(Shape(header.value, w, d / 2))
  }

  /** What is skipped: the end of the data, PNG, a short header, no picture, other depths, compression. */
  lemma UnsupportedIsSkipped(data: Bytes, off: nat)
    requires
      || off + 20 > |data|
      || data[off..off + 8] == [137, 80, 78, 71, 13, 10, 26, 10]
      || ReadLe32(data, off).value < 40
      || ReadLe32(data, off + 4).value == 0 || ReadLe32(data, off + 4).value >= 0x8000_0000
      || ReadLe32(data, off + 8).value < 2 || ReadLe32(data, off + 8).value >= 0x8000_0000
      || ReadLe16(data, off + 14).value != 32
      || ReadLe32(data, off + 16).value != 0
    ensures DibAt(data, off) == Skipped
  {
  }

  /** A picture overflows exactly when its bytes cannot be counted in 32 bits. */
  lemma OverflowsIff(data: Bytes, off: nat)
    ensures var s := ShapeAt(data, off);
      DibAt(data, off) == Overflow <==> s.Some? && s.value.width * s.value.height * 4 >= 0x1_0000_0000
  {
    var s := ShapeAt(data, off);
    if s.Some? { AreaIs(s.value.width, s.value.height); }
  }

  function Picture(data: Bytes, off: nat, w: nat, h: nat): Outcome {
    var n := Area(4 * w, h);
    if n >= U32 then Overflow
    else if off + n > |data| then Skipped
    else Decoded(Icon(w, h, Flip(data[off..off + n], 4 * w, h)))
  }

  function DibAt(data: Bytes, off: nat): Outcome {
    Shaped(data, off, ShapeAt(data, off))
  }

  function Shaped(data: Bytes, off: nat, s: Option<Shape>): Outcome {
    if s.None? then Skipped else Picture(data, off + s.value.header, s.value.width, s.value.height)
  }

  /** The first `y` rows of the picture are there. */
  ghost predicate RowsDone(pixels: Bytes, out: Bytes, n: nat, h: nat, y: nat) {
    && y <= h && |pixels| == Area(n, h) == |out|
    && Area(n, h - y) <= |pixels| && |pixels| - Area(n, h - y) == Area(n, y)
    && out[..Area(n, y)] == Flip(pixels[Area(n, h - y)..], n, y)
  }

  lemma RowsBegin(pixels: Bytes, out: Bytes, n: nat, h: nat)
    requires |pixels| == Area(n, h) == |out|
    ensures RowsDone(pixels, out, n, h, 0)
  {
    assert pixels[|pixels|..] == [] && out[..0] == [];
  }

  lemma RowsStep(pixels: Bytes, out: Bytes, next: Bytes, n: nat, h: nat, y: nat)
    requires RowsDone(pixels, out, n, h, y) && y < h && |next| == |out| && Area(n, y + 1) <= |out|
    requires Area(n, h - 1 - y) <= Area(n, h - y)
    requires next[..Area(n, y + 1)] == out[..Area(n, y)] + Swap(pixels[Area(n, h - 1 - y)..Area(n, h - y)])
    ensures RowsDone(pixels, next, n, h, y + 1)
  {
    FlipNext(pixels, n, h, y);
  }

  lemma RowsEnd(pixels: Bytes, out: Bytes, n: nat, h: nat)
    requires RowsDone(pixels, out, n, h, h)
    ensures out == Flip(pixels, n, h)
  {
    assert pixels[0..] == pixels && out[..|out|] == out;
  }

  /** The nested loops: destination rows top-down from source rows bottom-up. */
  method DecodeRows(pixels: Bytes, w: nat, h: nat) returns (out: Bytes)
    requires |pixels| == Area(4 * w, h)
    ensures out == Flip(pixels, 4 * w, h)
  {
    var rgba := new Byte[|pixels|](_ => 0);
    RowsBegin(pixels, rgba[..], 4 * w, h);
    var y := 0;
    while y < h
      invariant y <= h && RowsDone(pixels, rgba[..], 4 * w, h, y)
    {
      DecodeRow(pixels, rgba, w, h, y);
      y := y + 1;
    }
    RowsEnd(pixels, rgba[..], 4 * w, h);
    out := rgba[..];
  }

  /** The inner loop: row `y` of the picture, red first, from its row counted from the bottom. */
  method DecodeRow(pixels: Bytes, rgba: array<Byte>, w: nat, h: nat, y: nat)
    requires y < h && RowsDone(pixels, rgba[..], 4 * w, h, y)
    modifies rgba
    ensures RowsDone(pixels, rgba[..], 4 * w, h, y + 1)
  {
    ghost var was := rgba[..];
    var src, dst := (h - 1 - y) * w * 4, y * w * 4;
    RowStart(w, y);
    RowStart(w, h - 1 - y);
    AreaSplits(4 * w, h - 1 - y, y + 1);
    assert Area(4 * w, h - y) == src + 4 * w && Area(4 * w, y + 1) == dst + 4 * w;
    CopyRow(pixels, rgba, src, dst, w);
    assert was[..dst] == old(rgba[..dst]);
    RowsStep(pixels, was, rgba[..], 4 * w, h, y);
  }

  method CopyRow(pixels: Bytes, rgba: array<Byte>, src: nat, dst: nat, w: nat)
    requires src + 4 * w <= |pixels| && dst + 4 * w <= rgba.Length
    modifies rgba
    ensures rgba[..dst + 4 * w] == old(rgba[..dst]) + Swap(pixels[src..src + 4 * w])
  {
    for x := 0 to w
      invariant rgba[..dst + 4 * x] == old(rgba[..dst]) + Swap(pixels[src..src + 4 * x])
    {
      var s, d := src + x * 4, dst + x * 4;
      CopyPixel(pixels, rgba, s, d);
      SwapNext(pixels, src, s);
    }
  }

  method CopyPixel(pixels: Bytes, rgba: array<Byte>, s: nat, d: nat)
    requires s + 4 <= |pixels| && d + 4 <= rgba.Length
    modifies rgba
    ensures rgba[..d + 4] == old(rgba[..d]) + [pixels[s + 2], pixels[s + 1], pixels[s], pixels[s + 3]]
  {
    rgba[d] := pixels[s + 2];
    rgba[d + 1] := pixels[s + 1];
    rgba[d + 2] := pixels[s];
    rgba[d + 3] := pixels[s + 3];
  }

  /** The pixels after the header, if they are all there. */
  method DecodePicture(data: Bytes, start: nat, w: nat, h: nat) returns (r: Outcome)
    ensures r == Picture(data, start, w, h)
  {
    var n := w * h * 4;
    AreaIs(w, h);
    if n >= U32 { return Overflow; }
    if start + n > |data| { return Skipped; }
    var rgba := DecodeRows(data[start..start + n], w, h);
    r := Decoded(Icon(w, h, rgba));
  }

  method DecodeDib(data: Bytes, off: nat) returns (r: Outcome)
    ensures r == DibAt(data, off)
  {
    r := DecodeShaped(data, off, ShapeAt(data, off));
  }

  method DecodeShaped(data: Bytes, off: nat, s: Option<Shape>) returns (r: Outcome)
    ensures r == Shaped(data, off, s)
  {
    if s.None? { return Skipped; }
    r := DecodePicture(data, off + s.value.header, s.value.width, s.value.height);
  }

  function EntryAt(data: Bytes, i: nat): Outcome {
    var off := ReadLe32(data, 6 + 16 * i + 12);
    if off.None? then Skipped else DibAt(data, off.value)
  }

  /** The icons among the outcomes, in order; `None` if an entry overflows. */
  function Collect(os: seq<Outcome>): Option<seq<Icon>> {
    if os == [] then Some([]) else
    var before := Collect(os[..|os| - 1]);
    if before.None? then None else
    match os[|os| - 1]
    case Decoded(icon) => Some(before.value + [icon])
    case Skipped => before
    case Overflow => None
  }

  ghost predicate IsIcoHeader(data: Bytes) {
    |data| >= 6 && ReadLe16(data, 0) == Some(0) && ReadLe16(data, 2) == Some(1)
  }

  ghost function Outcomes(data: Bytes, n: nat): seq<Outcome> {
    seq(n, i requires i >= 0 => EntryAt(data, i))
  }

  lemma {:induction false} CollectOverflow(os: seq<Outcome>, i: nat)
    requires i < |os| && os[i].Overflow?
    ensures Collect(os) == None
    decreases |os|
  {
    if i < |os| - 1 { CollectOverflow(os[..|os| - 1], i); }
  }

  /** What decoding a file gives: all directory entries' icons, or nothing if the file header is wrong. */
  ghost function Decoding(data: Bytes): Option<seq<Icon>> {
    if IsIcoHeader(data) then Collect(Outcomes(data, ReadLe16(data, 4).value)) else Some([])
  }

  method DecodeIco(data: Bytes) returns (icons: Option<seq<Icon>>)
    ensures icons == Decoding(data)
  {
    var count := ReadLe16(data, 4);
    if count.None? || ReadLe16(data, 0) != Some(0) || ReadLe16(data, 2) != Some(1) { return Some([]); }
    var out: seq<Icon> := [];
    for i := 0 to count.value
      invariant Collect(Outcomes(data, i)) == Some(out)
    {
      var r := DecodeEntry(data, i);
      CollectNext(data, i, r);
      if r.Overflow? {
        CollectOverflow(Outcomes(data, count.value), i);
        return None;
      }
      if r.Decoded? { out := out + [r.icon]; }
    }
    icons := Some(out);
  }

  method DecodeEntry(data: Bytes, i: nat) returns (r: Outcome)
    ensures r == EntryAt(data, i)
  {
    var off := ReadLe32(data, 6 + i * 16 + 12);
    if off.None? { return Skipped; }
    r := DecodeDib(data, off.value);
  }

  lemma CollectNext(data: Bytes, i: nat, o: Outcome)
    requires o == EntryAt(data, i)
    ensures Collect(Outcomes(data, i + 1)) == Collected(Collect(Outcomes(data, i)), o)
  {
    var os, next := Outcomes(data, i), Outcomes(data, i + 1);
    assert next == os + [o];
    CollectLast(os, o);
  }

  /** What one more outcome makes of the icons before it. */
  function Collected(before: Option<seq<Icon>>, o: Outcome): Option<seq<Icon>> {
    if before.None? || o.Overflow? then None else if o.Decoded? then Some(before.value + [o.icon]) else before
  }

  lemma CollectLast(os: seq<Outcome>, o: Outcome)
    ensures Collect(os + [o]) == Collected(Collect(os), o)
  {
    assert (os + [o])[..|os|] == os;
  }

  // ---- Reading back what was written ----

  lemma HeaderFields(size: nat)
    requires SizeFits(size)
    ensures var h := DibHeader(size);
      && h[0..4] == Le32(40) && h[4..8] == Le32(size) && h[8..12] == Le32(size * 2)
      && h[12..14] == Le16(1) && h[14..16] == Le16(32) && h[16..20] == Le32(0)
      && h[20..24] == Le32(size * size * 4) && h[24..40] == Zeros(16) && h[0] == 40
  {
  }

  lemma FieldsRead(data: Bytes, off: nat, size: nat)
    requires SizeFits(size) && off + 40 <= |data| && data[off..off + 40] == DibHeader(size)
    ensures ReadLe32(data, off) == Some(40) && ReadLe32(data, off + 4) == Some(size)
    ensures ReadLe32(data, off + 8) == Some(size * 2)
    ensures ReadLe16(data, off + 14) == Some(32) && ReadLe32(data, off + 16) == Some(0) && data[off] == 40
  {
    HeaderFields(size);
    Slice(data, off, off + 40, 0, 4);
    Le32Read(data, off, 40);
    Slice(data, off, off + 40, 4, 8);
    Le32Read(data, off + 4, size);
    Slice(data, off, off + 40, 8, 12);
    Le32Read(data, off + 8, size * 2);
    Slice(data, off, off + 40, 14, 16);
    Le16Read(data, off + 14, 32);
    Slice(data, off, off + 40, 16, 20);
    Le32Read(data, off + 16, 0);
    assert data[off] == data[off..off + 40][0];
  }

  /** The header as the decoder reads it. */
  lemma HeaderReads(data: Bytes, off: nat, size: nat)
    requires SizeFits(size) && off + 40 <= |data| && data[off..off + 40] == DibHeader(size)
    ensures ShapeAt(data, off) == if size == 0 then None else Some(Shape(40, size, size))
  {
    FieldsRead(data, off, size);
    assert data[off..off + 8][0] == 40;
  }

  lemma PictureReads(data: Bytes, off: nat, im: Image)
    requires im.size * im.size * 4 < U32 && off + |im.rgba| <= |data|
    requires data[off..off + |im.rgba|] == Flip(im.rgba, 4 * im.size, im.size)
    ensures Picture(data, off, im.size, im.size) == Decoded(Icon(im.size, im.size, im.rgba))
  {
    AreaIs(im.size, im.size);
    FlipTwice(im.rgba, 4 * im.size, im.size);
  }

  /** What one image comes back as: an empty one is skipped. */
  function Back(im: Image): Outcome {
    if im.size == 0 then Skipped else Decoded(Icon(im.size, im.size, im.rgba))
  }

  lemma ThreeParts(data: Bytes, off: nat, a: Bytes, b: Bytes, c: Bytes)
    requires off + |a| + |b| + |c| <= |data| && data[off..off + |a| + |b| + |c|] == a + (b + c)
    ensures data[off..off + |a|] == a && data[off + |a|..off + |a| + |b|] == b
  {
    var n := |a| + |b| + |c|;
    Slice(data, off, off + n, 0, |a|);
    Slice(data, off, off + n, |a|, |a| + |b|);
    assert (a + (b + c))[0..|a|] == a && (a + (b + c))[|a|..|a| + |b|] == b;
  }

  /** One written entry decodes to its image, wherever in the data it stands. */
  lemma DibReadsBack(data: Bytes, off: nat, im: Image)
    requires SizeFits(im.size) && off + |Dib(im)| <= |data| && data[off..off + |Dib(im)|] == Dib(im)
    ensures DibAt(data, off) == Back(im)
  {
    var h, p, z := DibHeader(im.size), Flip(im.rgba, 4 * im.size, im.size), Zeros(MaskLen(im.size));
    assert Dib(im) == h + (p + z);
    ThreeParts(data, off, h, p, z);
    HeaderReads(data, off, im.size);
    PictureReads(data, off + 40, im);
  }

  /** The images that come back: an empty one does not. */
  function Visible(images: seq<Image>): seq<Icon> {
    if images == [] then [] else
    var im := images[|images| - 1];
    Visible(images[..|images| - 1]) + if im.size == 0 then [] else [Icon(im.size, im.size, im.rgba)]
  }

  lemma {:induction false} CollectBack(images: seq<Image>, os: seq<Outcome>)
    requires |os| == |images| && forall i :: 0 <= i < |os| ==> os[i] == Back(images[i])
    ensures Collect(os) == Some(Visible(images))
    decreases |os|
  {
    if images != [] {
      var n := |images| - 1;
      CollectBack(images[..n], os[..n]);
      assert os[n] == Back(images[n]);
      var before := Visible(images[..n]);
      assert before + [] == before;
    }
  }

  lemma {:induction false} AllVisible(images: seq<Image>)
    ensures |Visible(images)| <= |images|
    ensures |Visible(images)| == |images| <==> forall i :: 0 <= i < |images| ==> images[i].size > 0
    ensures |Visible(images)| == |images| ==>
      forall i :: 0 <= i < |images| ==> Visible(images)[i] == Icon(images[i].size, images[i].size, images[i].rgba)
  {
    if images != [] {
      var n := |images| - 1;
      var before := images[..n];
      AllVisible(before);
      assert forall i :: 0 <= i < n ==> images[i] == before[i];
    }
  }

  predicate SizesFit(images: seq<Image>) {
    forall i :: 0 <= i < |images| ==> SizeFits(images[i].size)
  }

  /** The images, rendered. */
  function Parts(images: seq<Image>): seq<Part>
    requires SizesFit(images)
  {
    seq(|images|, i requires 0 <= i < |images| => Part(images[i].size, Dib(images[i])))
  }

  /** The format's bounds: 16-bit count, 31-bit heights, 32-bit lengths and offsets. */
  ghost predicate Writable(images: seq<Image>) {
    SizesFit(images) && Packable(Parts(images))
  }

  /** `write_ico`; `None` where packing a field raises. */
  method WriteIco(images: seq<Image>) returns (file: Option<Bytes>)
    ensures file.Some? <==> Writable(images)
    ensures file.Some? ==> file.value == File(Parts(images))
  {
    var parts: seq<Part> := [];
    for i := 0 to |images|
      invariant |parts| == i
      invariant forall j :: 0 <= j < i ==> SizeFits(images[j].size) && parts[j] == Part(images[j].size, Dib(images[j]))
    {
      if !SizeFits(images[i].size) { return None; }
      var pixels := ToBgraDib(images[i]);
      parts := parts + [Part(images[i].size, DibHeader(images[i].size) + pixels)];
    }
    assert parts == Parts(images);
    file := Pack(parts);
  }

  /**
   Whatever the writer writes, the decoder returns the same images in the same order.  The one thing
   it does not give back is an image of size zero, so the lists agree exactly when there is none.
   */
  lemma WriteThenDecode(images: seq<Image>)
    requires Writable(images)
    ensures Decoding(File(Parts(images))) == Some(Visible(images))
    ensures |Visible(images)| == |images| <==> forall i :: 0 <= i < |images| ==> images[i].size > 0
    ensures |Visible(images)| == |images| ==>
      forall i :: 0 <= i < |images| ==> Visible(images)[i] == Icon(images[i].size, images[i].size, images[i].rgba)
  {
    var parts := Parts(images);
    FileHeaderReads(parts);
    var os := Outcomes(File(parts), |parts|);
    forall i | 0 <= i < |os| ensures os[i] == Back(images[i]) {
      OffsetsPoint(parts, i);
      DibReadsBack(File(parts), OffsetOf(parts, i), images[i]);
    }
    CollectBack(images, os);
    AllVisible(images);
  }
}
