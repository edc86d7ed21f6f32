/** Bytes, powers of 256 and big-endian (network order) fixed-width
    integers, with the division facts the encoder and decoder proofs need. */
module BigEndian {

  /** One octet of a wire buffer. */
  type Byte = b: int | 0 <= b < 256

  type Bytes = seq<Byte>

  /** 256 to the power `n`: the number of distinct values of an `n`-byte integer. */
  function Pow256(n: nat): (p: nat)
    ensures p >= 1
  {
    if n == 0 then 1 else 256 * Pow256(n - 1)
  }

  /** The `width` least significant bytes of `v`, most significant first.
      Euclidean `/` and `%` make a negative `v` come out in two's complement. */
  function ToBigEndian(v: int, width: nat): (r: Bytes)
    ensures |r| == width
    decreases width
  {
    if width == 0 then [] else ToBigEndian(v / 256, width - 1) + [v % 256]
  }

  /** Reads a big-endian unsigned integer. */
  function FromBigEndian(bs: Bytes): (n: nat)
    ensures n < Pow256(|bs|)
  {
    if |bs| == 0 then 0 else FromBigEndian(bs[..|bs| - 1]) * 256 + bs[|bs| - 1]
  }

  /** Two's complement reading of an unsigned `width`-byte value. */
  function ToSigned(u: nat, width: nat): int
  {
    if u >= Pow256(width) / 2 then u - Pow256(width) else u
  }

  /** Division by a positive number is determined by any quotient/remainder pair. */
  lemma DivModUnique(v: int, m: int, a: int, c: int)
    requires m > 0 && 0 <= c < m && v == m * a + c
    ensures v / m == a && v % m == c
  {
    var q, r := v / m, v % m;
    assert m * (q - a) == c - r;
    if q - a >= 1 {
      MulAtLeast(m, q - a);
    } else if q - a <= -1 {
      MulAtLeast(m, a - q);
    }
  }

  lemma MulAtLeast(m: int, k: int)
    requires m > 0 && k >= 1
    ensures m * k >= m
  {
  }

  lemma MulDistributes(a: int, b: int, c: int)
    ensures a * (b + c) == a * b + a * c
  {
  }

  lemma MulAssociates(a: int, b: int, c: int)
    ensures a * (b * c) == (a * b) * c
  {
  }

  lemma MulMonotone(a: nat, b: int, c: int)
    requires b <= c
    ensures a * b <= a * c
  {
    MulDistributes(a, b, c - b);
  }

  /** Writing `x` as `(m * k) * a + (m * b + r)` from two nested divisions. */
  lemma NestedDivision(x: int, m: nat, k: nat, q: int, r: int, a: int, b: int)
    requires m > 0 && k > 0
    requires x == m * q + r && 0 <= r < m
    requires q == k * a + b && 0 <= b < k
    ensures x == (m * k) * a + (m * b + r)
    ensures 0 <= m * b + r < m * k
  {
    MulDistributes(m, k * a, b);
    MulAssociates(m, k, a);
    MulMonotone(m, b, k - 1);
    MulDistributes(m, k - 1, 1);
    assert m * b >= 0 by {
      MulMonotone(m, 0, b);
    }
  }

  /** Dividing by `p` and then by 256 is dividing by `p * 256`. */
  lemma DivDiv256(x: int, p: nat)
    requires p > 0
    ensures (x / p) / 256 == x / (p * 256)
  {
    var q, r := x / p, x % p;
    NestedDivision(x, p, 256, q, r, q / 256, q % 256);
    DivModUnique(x, p * 256, q / 256, p * (q % 256) + r);
  }

  /** Splitting off the least significant byte of `v` modulo `256 * p`. */
  lemma ModStep(v: int, p: nat)
    requires p > 0
    ensures v % (256 * p) == 256 * ((v / 256) % p) + v % 256
    ensures (v % (256 * p)) / 256 == (v / 256) % p
    ensures (v % (256 * p)) % 256 == v % 256
  {
    var q, r0 := v / 256, v % 256;
    NestedDivision(v, 256, p, q, r0, q / p, q % p);
    DivModUnique(v, 256 * p, q / p, 256 * (q % p) + r0);
    DivModUnique(v % (256 * p), 256, q % p, r0);
  }

  /** Decoding the bytes recovers the value modulo 256^width. */
  lemma {:induction false} FromToBigEndian(v: int, width: nat)
    ensures FromBigEndian(ToBigEndian(v, width)) == v % Pow256(width)
    decreases width
  {
    if width > 0 {
      var k := width - 1;
      var q, r0 := v / 256, v % 256;
      var r := ToBigEndian(v, width);
      assert FromBigEndian(r) == FromBigEndian(ToBigEndian(q, k)) * 256 + r0 by {
        assert r[..|r| - 1] == ToBigEndian(q, k) && r[|r| - 1] == r0;
      }
      FromToBigEndian(q, k);
      ModStep(v, Pow256(k));
    }
  }

  /** The bytes of a value only depend on the value modulo 256^width. */
  lemma {:induction false} ToBigEndianMod(v: int, width: nat)
    ensures ToBigEndian(v % Pow256(width), width) == ToBigEndian(v, width)
    decreases width
  {
    if width > 0 {
      var k := width - 1;
      ModStep(v, Pow256(k));
      ToBigEndianMod(v / 256, k);
    }
  }

  /** A two's complement value in range survives the unsigned round trip. */
  lemma SignedRoundTrip(v: int, width: nat)
    requires -(Pow256(width) / 2) <= v < Pow256(width) / 2
    ensures ToSigned(v % Pow256(width), width) == v
  {
    var p := Pow256(width);
    if v < 0 {
      DivModUnique(v, p, -1, v + p);
    } else {
      DivModUnique(v, p, 0, v);
    }
  }

  lemma Pow256Values()
    ensures Pow256(1) == 0x100 && Pow256(2) == 0x1_0000
    ensures Pow256(4) == 0x1_0000_0000 && Pow256(8) == 0x1_0000_0000_0000_0000
  {
  }
}
