/** Bytes as bit-vectors, and the big-endian integers of Go's `encoding/binary`. */
module Bytes {

  type byte = bv8

  /** The number of values that `width` bytes can hold. */
  function Capacity(width: nat): (c: nat)
    ensures c > 0
  {
    if width == 0 then 1 else 256 * Capacity(width - 1)
  }

  /** Narrowing to a byte. */
  function LowByte(n: nat): byte {
    (n % 256) as byte
  }

  /** The low `width` bytes of `n`, most significant byte first. */
  function BigEndian(n: nat, width: nat): (s: seq<byte>)
    ensures |s| == width
  {
    if width == 0 then [] else BigEndian(n / 256, width - 1) + [LowByte(n)]
  }

  function FromBigEndian(s: seq<byte>): (n: nat)
    ensures n < Capacity(|s|)
  {
    if s == [] then 0 else 256 * FromBigEndian(s[..|s| - 1]) + s[|s| - 1] as nat
  }

  /** The byte that stands `n` steps after zero. */
  function NthByte(n: nat): (b: byte)
    requires n < 256
    ensures b as nat == n
  {
    if n == 0 then 0
    else
      var b := NthByte(n - 1);
      NextByte(b);
      b + 1
  }

  lemma NextByte(b: byte)
    requires b != 255
    ensures (b + 1) as nat == b as nat + 1
  {
  }

  lemma NatOfByte(b: byte)
    ensures (b as nat) as byte == b
  {
  }

  /** Narrowing a small integer to a byte loses nothing. */
  lemma ByteOfNat(n: nat)
    requires n < 256
    ensures (n as byte) as nat == n
  {
    NatOfByte(NthByte(n));
  }

  lemma LowByteValue(n: nat)
    ensures LowByte(n) as nat == n % 256
  {
    ByteOfNat(n % 256);
  }

  lemma FromBigEndianAppend(s: seq<byte>, b: byte)
    ensures FromBigEndian(s + [b]) == 256 * FromBigEndian(s) + b as nat
  {
    assert (s + [b])[..|s|] == s;
  }

  lemma {:induction false} BigEndianRoundTrip(n: nat, width: nat)
    requires n < Capacity(width)
    ensures FromBigEndian(BigEndian(n, width)) == n
  {
    hide LowByte, FromBigEndian;
    if width > 0 {
      DivMod(n, 256);
      LowByteValue(n);
      BigEndianRoundTrip(n / 256, width - 1);
      FromBigEndianAppend(BigEndian(n / 256, width - 1), LowByte(n));
    } else {
      NoBytes();
    }
  }

  lemma NoBytes()
    ensures FromBigEndian([]) == 0
  {
  }

  /** Byte `i` counts multiples of 256 to the power of the bytes after it. */
  lemma {:induction false} BigEndianAt(n: nat, width: nat, i: nat)
    requires i < width
    ensures BigEndian(n, width)[i] as nat == n / Capacity(width - 1 - i) % 256
    decreases width
  {
    LowByteValue(n);
    hide LowByte;
    if i == width - 1 {
      assert Capacity(0) == 1;
    } else {
      BigEndianAt(n / 256, width - 1, i);
      DivideTwice(n, 256, Capacity(width - 2 - i));
    }
  }

  lemma DivideTwice(n: nat, a: nat, b: nat)
    requires a > 0 && b > 0
    ensures a * b > 0 && n / a / b == n / (a * b)
  {
    var q, r := n / a, n % a;
    var p, t := q / b, q % b;
    Product(a, b);
    DivMod(n, a);
    DivMod(q, b);
    Nest(a, b, p, t, r);
    QuotientIs(n, a * b, p, a * t + r);
  }

  lemma Product(a: nat, b: nat)
    requires a > 0 && b > 0
    ensures a * b > 0
  {
  }

  lemma DivMod(n: nat, k: nat)
    requires k > 0
    ensures n == k * (n / k) + n % k && 0 <= n % k < k
  {
  }

  lemma Nest(a: nat, b: nat, p: nat, t: nat, r: nat)
    requires r < a && t < b
    ensures a * (b * p + t) + r == (a * b) * p + (a * t + r)
    ensures 0 <= a * t + r < a * b
  {
    Larger(a, t, b - 1);
    assert a * (b - 1) == a * b - a;
    assert a * (b * p + t) == a * (b * p) + a * t;
    assert a * (b * p) == (a * b) * p;
  }

  lemma Larger(a: nat, t: nat, u: nat)
    requires t <= u
    ensures a * t <= a * u
  {
  }

  lemma QuotientIs(n: nat, k: nat, q: nat, r: nat)
    requires k > 0 && n == k * q + r && r < k
    ensures n / k == q
  {
    DivMod(n, k);
    var d, x := n / k - q, r - n % k;
    assert k * d == k * (n / k) - k * q;
    SmallMultiple(k, d, x);
  }

  lemma SmallMultiple(k: int, d: int, x: int)
    requires k > 0 && k * d == x && -k < x < k
    ensures d == 0
  {
  }

  lemma BigEndianInjective(m: nat, n: nat, width: nat)
    requires m < Capacity(width) && n < Capacity(width)
    requires BigEndian(m, width) == BigEndian(n, width)
    ensures m == n
  {
    BigEndianRoundTrip(m, width);
    BigEndianRoundTrip(n, width);
  }

  /** The four widths the repository uses. */
  lemma Capacities()
    ensures Capacity(2) == 0x1_0000
    ensures Capacity(4) == 0x1_0000_0000
    ensures Capacity(8) == 0x1_0000_0000_0000_0000
  {
    assert Capacity(2) == 0x1_0000;
    assert Capacity(4) == 0x1_0000 * Capacity(2);
    assert Capacity(6) == 0x1_0000 * Capacity(4);
    assert Capacity(8) == 0x1_0000 * Capacity(6);
  }

  function Concat<T>(parts: seq<seq<T>>): seq<T> {
    if parts == [] then [] else parts[0] + Concat(parts[1..])
  }
}
