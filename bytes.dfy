/** Bytes, big-endian fixed-width integers and the integer casts the wire format relies on. */
module Bytes {

  /** One octet on the wire. */
  type byte = x: int | 0 <= x < 256

  datatype Option<+T> = None | Some(value: T)

  const U16_LIMIT: nat := 0x1_0000
  const U64_LIMIT: nat := 0x1_0000_0000_0000_0000
  const U128_LIMIT: nat := 0x1_0000_0000_0000_0000_0000_0000_0000_0000

  /** 256 to the power w: the number of distinct values of a w-byte integer. */
  function Pow256(w: nat): (r: nat)
    ensures r > 0
  {
    if w == 0 then 1 else 256 * Pow256(w - 1)
  }

  /** The low w bytes of n, most significant first: what a Rust `to_be_bytes` of n cast to w bytes gives. */
  function BigEndian(n: nat, w: nat): (r: seq<byte>)
    ensures |r| == w
    decreases n, w
  {
    if w == 0 then [] else BigEndian(n / 256, w - 1) + [n % 256]
  }

  /** The unsigned integer whose big-endian representation is bs. */
  function FromBigEndian(bs: seq<byte>): (r: nat)
    ensures r < Pow256(|bs|)
  {
    if bs == [] then 0 else FromBigEndian(bs[..|bs| - 1]) * 256 + bs[|bs| - 1]
  }

  /** Division is unique: a quotient and a remainder in range are the ones `/` and `%` give. */
  lemma DivModUnique(n: nat, d: nat, q: nat, r: nat)
    requires 0 <= r < d && n == d * q + r
    ensures n / d == q && n % d == r
  {
    var q', r' := n / d, n % d;
    if q' < q {
      MulSplit(d, q', q - q');
      MulAtLeast(d, q - q');
    } else if q' > q {
      MulSplit(d, q, q' - q);
      MulAtLeast(d, q' - q);
    }
  }

  lemma MulSplit(d: nat, a: nat, k: nat)
    ensures d * (a + k) == d * a + d * k
  {
  }

  lemma MulAtLeast(d: nat, k: nat)
    requires k >= 1
    ensures d * k >= d
  {
    MulSplit(d, 1, k - 1);
  }

  /** Cutting n to w + 1 bytes: the cut of n / 256 to w bytes, then n's last byte. */
  lemma ModPow256Step(n: nat, p: nat)
    requires p > 0
    ensures (n / 256 % p) * 256 + n % 256 == n % (256 * p)
  {
    var q, r := n / 256, n % 256;
    var a, b := q / p, q % p;
    assert n == (256 * p) * a + (256 * b + r);
    DivModUnique(n, 256 * p, a, 256 * b + r);
  }

  /** Reading back a big-endian representation yields the number written, cut to w bytes. */
  lemma {:induction false} FromBigEndianInverse(n: nat, w: nat)
    ensures FromBigEndian(BigEndian(n, w)) == n % Pow256(w)
    decreases w
  {
    if w > 0 {
      var bs := BigEndian(n, w);
      assert bs[..w - 1] == BigEndian(n / 256, w - 1);
      FromBigEndianInverse(n / 256, w - 1);
      ModPow256Step(n, Pow256(w - 1));
    }
  }

  /** Every byte string is the big-endian representation of the number it denotes. */
  lemma {:induction false} BigEndianInverse(bs: seq<byte>)
    ensures BigEndian(FromBigEndian(bs), |bs|) == bs
  {
    if bs != [] {
      var init, last := bs[..|bs| - 1], bs[|bs| - 1];
      var n := FromBigEndian(bs);
      assert n / 256 == FromBigEndian(init) && n % 256 == last;
      BigEndianInverse(init);
      assert bs == init + [last];
    }
  }

  /** `(n as u16).to_be_bytes()` in Rust, `setUint16(_, n, false)` in JavaScript: n is cut to 16 bits. */
  function U16(n: nat): (r: seq<byte>)
    ensures |r| == 2
  {
    BigEndian(n, 2)
  }

  /** `(n as u64).to_be_bytes()`: n is cut to 64 bits. */
  function U64(n: nat): (r: seq<byte>)
    ensures |r| == 8
  {
    BigEndian(n, 8)
  }

  /** `n.to_be_bytes()` of a u128. */
  function U128(n: nat): (r: seq<byte>)
    ensures |r| == 16
  {
    BigEndian(n, 16)
  }

  /** The two bytes of a u16 read back as the value cut to 16 bits. */
  lemma ReadU16(n: nat)
    ensures FromBigEndian(U16(n)) == n % U16_LIMIT
  {
    FromBigEndianInverse(n, 2);
  }

  /** The eight bytes of a u64 read back as the value cut to 64 bits. */
  lemma ReadU64(n: nat)
    ensures FromBigEndian(U64(n)) == n % U64_LIMIT
  {
    FromBigEndianInverse(n, 8);
    assert Pow256(8) == U64_LIMIT;
  }

  /** U16 written out byte by byte: the high byte first. */
  lemma U16Bytes(n: nat)
    ensures U16(n) == [n / 256 % 256, n % 256]
  {
    assert BigEndian(n, 2) == BigEndian(n / 256, 1) + [n % 256];
  }
}
