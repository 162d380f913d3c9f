/** Bytes, 16-bit words, and the number/byte conversions every codec of the repository shares. */
module Bytes {
  type byte = b: int | 0 <= b < 0x100
  type word = w: int | 0 <= w < 0x1_0000

  /** A checksum is only ever compared, so every theorem below holds for all of them. */
  type Checksum = seq<byte> -> word

  datatype Option<+T> = None | Some(value: T)

  datatype Result<+T, +E> = Ok(value: T) | Err(error: E)

  /** `b ^ 0xff` on a byte; FlipIsXor justifies the subtraction. */
  function Flip(b: byte): byte {
    0xff - b
  }

  lemma XorIsComplement(x: bv8)
    ensures x ^ 0xff == 0xff - x
  {
  }

  lemma FlipIsXor(x: bv8)
    ensures (x ^ 0xff) as int == Flip(x as int)
  {
    XorIsComplement(x);
  }

  /** `s[lo:hi]` for non-negative bounds. */
  function Slice(s: seq<byte>, lo: nat, hi: nat): seq<byte> {
    var h := if hi <= |s| then hi else |s|;
    if lo <= h then s[lo..h] else []
  }

  function Hi(w: word): byte {
    w / 0x100
  }

  function Lo(w: word): byte {
    w % 0x100
  }

  function Word(hi: byte, lo: byte): word {
    hi as int * 0x100 + lo
  }

  lemma WordRoundTrip(w: word)
    ensures Word(Hi(w), Lo(w)) == w
  {
  }

  lemma WordParts(hi: byte, lo: byte)
    ensures Hi(Word(hi, lo)) == hi && Lo(Word(hi, lo)) == lo
  {
    DivModUnique(Word(hi, lo), 0x100, hi, lo);
  }

  function Pow256(n: nat): nat
    ensures Pow256(n) > 0
  {
    if n == 0 then 1 else 0x100 * Pow256(n - 1)
  }

  /** The number a big-endian byte sequence denotes. */
  function FromBigEndian(s: seq<byte>): nat {
    if s == [] then 0 else FromBigEndian(s[..|s| - 1]) * 0x100 + s[|s| - 1]
  }

  /** The low `n` bytes of `v`, most significant first; `v` may be negative (two's complement). */
  function ToBigEndian(v: int, n: nat): (s: seq<byte>)
    ensures |s| == n
    decreases n
  {
    if n == 0 then [] else ToBigEndian(v / 0x100, n - 1) + [v % 0x100]
  }

  lemma ModOfProduct(v: int, k: nat)
    requires k > 0
    ensures 0 <= v % 0x100 + 0x100 * ((v / 0x100) % k) < 0x100 * k
    ensures v % (0x100 * k) == v % 0x100 + 0x100 * ((v / 0x100) % k)
  {
    var q, r := (v / 0x100) / k, v % 0x100 + 0x100 * ((v / 0x100) % k);
    assert v / 0x100 == k * q + (v / 0x100) % k;
    assert v == 0x100 * k * q + r by {
      assert 0x100 * (k * q) == 0x100 * k * q;
    }
    assert 0 <= r < 0x100 * k;
    DivModUnique(v, 0x100 * k, q, r);
  }

  lemma DivModUnique(v: int, d: int, q: int, r: int)
    requires 0 <= r < d && v == d * q + r
    ensures v % d == r && v / d == q
  {
    var k := v / d - q;
    assert d * (v / d - q) == d * (v / d) - d * q;
    assert d * k == r - v % d;
    if k >= 1 {
      ProductBound(d, k);
      assert false;
    } else if k <= -1 {
      ProductBound(d, -k);
      assert false;
    } else {
      assert v / d == q;
    }
  }

  lemma ProductBound(d: int, k: int)
    requires d > 0 && k >= 1
    ensures d * k >= d
  {
  }

  lemma {:induction false} BigEndianRoundTrip(v: int, n: nat)
    ensures FromBigEndian(ToBigEndian(v, n)) == v % Pow256(n)
    decreases n
  {
    if n == 0 {
      assert Pow256(0) == 1;
    } else {
      BigEndianRoundTrip(v / 0x100, n - 1);
      var s := ToBigEndian(v, n);
      assert s[..n - 1] == ToBigEndian(v / 0x100, n - 1);
      ModOfProduct(v, Pow256(n - 1));
    }
  }

  lemma Pow256Step(n: nat, high: nat, b: byte)
    ensures (high * 0x100 + b) * Pow256(n) == high * Pow256(n + 1) + b * Pow256(n)
  {
    assert Pow256(n + 1) == 0x100 * Pow256(n);
    assert high * 0x100 * Pow256(n) == high * (0x100 * Pow256(n));
  }

  /** `sum(msg[start + p] << (8 * ((length - p) - 1)) for p in range(length))` */
  method SumShifted(msg: seq<byte>, start: nat, length: nat) returns (value: nat)
    requires start + length <= |msg|
    ensures value == FromBigEndian(msg[start..start + length])
  {
    value := 0;
    for p := 0 to length
      invariant value == FromBigEndian(msg[start..start + p]) * Pow256(length - p)
    {
      var done := msg[start..start + p + 1];
      assert done[..p] == msg[start..start + p];
      Pow256Step(length - p - 1, FromBigEndian(done[..p]), msg[start + p]);
      value := value + msg[start + p] * Pow256(length - p - 1);
    }
  }
}
