/** Small shared vocabulary: bytes, options and big-endian length prefixes. */
module Common {

  type Byte = b: nat | b < 256
  type Bytes = seq<Byte>

  datatype Option<+T> = None | Some(value: T)

  /** The two big-endian bytes of `n as u16`; the cast drops everything above bit 15. */
  function Be16(n: nat): (b: Bytes)
    ensures |b| == 2
  {
    [(n / 256) % 256, n % 256]
  }

  /** `u16::from_be_bytes` of the first two bytes. */
  function ReadBe16(b: Bytes): (n: nat)
    requires |b| >= 2
    ensures n < 65536
  {
    var hi: nat, lo: nat := b[0], b[1];
    hi * 256 + lo
  }

  lemma LowTwoDigits(n: nat)
    ensures n / 256 % 256 * 256 + n % 256 == n % 65536
  {
    var q := n / 256;
    var a, b, r := q / 256, q % 256, n % 256;
    assert n == 65536 * a + (256 * b + r);
  }

  /** The byte that counts for 256 comes first. */
  lemma Be16Digits(hi: Byte, lo: Byte)
    ensures Be16(256 * hi + lo) == [hi, lo] && ReadBe16([hi, lo]) == 256 * hi + lo
  {
    TwoDigits(hi, lo);
  }

  /** Reading back a written length gives it modulo 2^16, so exactly for lengths below 2^16. */
  lemma Be16RoundTrip(n: nat, rest: Bytes)
    ensures ReadBe16(Be16(n) + rest) == n % 65536
  {
    LowTwoDigits(n);
  }

  /** Writing back a length that was read gives the bytes it was read from. */
  lemma Be16Unique(b: Bytes)
    requires |b| >= 2
    ensures Be16(ReadBe16(b)) == b[..2]
  {
    var hi: nat, lo: nat := b[0], b[1];
    TwoDigits(hi, lo);
  }

  lemma TwoDigits(hi: nat, lo: nat)
    requires hi < 256 && lo < 256
    ensures (hi * 256 + lo) / 256 % 256 == hi && (hi * 256 + lo) % 256 == lo
  {
  }

  lemma ModBelow(n: nat)
    ensures n <= 65535 ==> n % 65536 == n
    ensures n > 65535 ==> n % 65536 <= n - 65536
  {
  }

  lemma Slice(b: Bytes, lo: nat, hi: nat, i: nat, j: nat)
    requires lo <= hi <= |b| && i <= j <= hi - lo
    ensures b[lo..hi][i..j] == b[lo + i..lo + j]
  {
    var x, y := b[lo..hi][i..j], b[lo + i..lo + j];
    assert forall k :: 0 <= k < j - i ==> x[k] == b[lo + i + k] == y[k];
  }

  function Zeros(n: nat): (z: Bytes)
    ensures |z| == n
  {
    seq(n, i => 0)
  }

  lemma ZerosAreZero(n: nat, i: nat)
    requires i < n
    ensures Zeros(n)[i] == 0
  {
  }
}
