/** Java's fixed-width integers, nullable references, strings and growable arrays as the
    other modules see them: two's complement patterns, arithmetic that wraps, the
    big-endian byte layout that ByteStream writes, and arrays that grow by doubling. */
module JavaInt {

  /** A Java reference that may be null. */
  datatype Option<T> = None | Some(value: T)

  type uint8 = x: int | 0 <= x < 0x100
  type int8 = x: int | -0x80 <= x < 0x80
  type uint16 = x: int | 0 <= x < 0x1_0000
  type int16 = x: int | -0x8000 <= x < 0x8000
  type int32 = x: int | -0x8000_0000 <= x < 0x8000_0000
  type int64 = x: int | -0x8000_0000_0000_0000 <= x < 0x8000_0000_0000_0000

  /** A Java String: its sequence of 16-bit code units (Java `char`s). */
  type JString = seq<uint16>

  function Pow256(n: nat): (r: nat)
    ensures r >= 1
  {
    if n == 0 then 1 else 256 * Pow256(n - 1)
  }

  function Pow2(n: nat): (r: nat)
    ensures r >= 1
  {
    if n == 0 then 1 else 2 * Pow2(n - 1)
  }

  lemma PowValues()
    ensures Pow256(1) == 0x100 && Pow256(2) == 0x1_0000 && Pow256(4) == 0x1_0000_0000
    ensures Pow256(8) == 0x1_0000_0000_0000_0000
  {
  }

  /** Euclidean division is determined by its quotient and remainder. */
  lemma DivModUnique(x: int, d: int, q: int, r: int)
    requires d > 0 && x == d * q + r && 0 <= r < d
    ensures x / d == q && x % d == r
  {
    var q', r' := x / d, x % d;
    assert x == d * q' + r' && 0 <= r' < d;
    if q' > q {
      MulAtLeast(d, q' - q);
      assert false;
    } else if q' < q {
      MulAtLeast(d, q - q');
      assert false;
    }
  }

  lemma MulAtLeast(d: int, k: int)
    requires d > 0 && k >= 1
    ensures d * k >= d
  {
  }

  /** Dividing by a and then by m is dividing by a * m, and the remainders nest. */
  lemma DivModNested(x: int, a: int, m: int)
    requires a > 0 && m > 0
    ensures x / a / m == x / (a * m)
    ensures (x / a % m) * a + x % a == x % (a * m)
  {
    var q1, r1 := x / a, x % a;
    var q2, r2 := q1 / m, q1 % m;
    MulAddNested(a, m, q2, r2);
    MulBelow(a, r2, m - 1);
    DivModUnique(x, a * m, q2, a * r2 + r1);
  }

  lemma MulAddNested(a: int, m: int, q: int, r: int)
    ensures a * (m * q + r) == (a * m) * q + a * r
  {
  }

  /** A product of a positive a with r <= b stays below a * (b + 1). */
  lemma MulBelow(a: int, r: int, b: int)
    requires a > 0 && 0 <= r <= b
    ensures a * r <= a * b && a * b + a == a * (b + 1)
  {
  }

  /** The n-byte two's complement pattern of x, read as an unsigned number
      (a Java narrowing cast keeps exactly these bits). */
  function Unsigned(x: int, n: nat): (u: nat)
    ensures u < Pow256(n)
  {
    x % Pow256(n)
  }

  /** The value of an n-byte two's complement pattern. */
  function Signed(u: nat, n: nat): (x: int)
    requires 0 < n && u < Pow256(n)
    ensures -128 * Pow256(n - 1) <= x < 128 * Pow256(n - 1)
  {
    if u >= 128 * Pow256(n - 1) then u - Pow256(n) else u
  }

  lemma SignedOfUnsigned(x: int, n: nat)
    requires 0 < n && -128 * Pow256(n - 1) <= x < 128 * Pow256(n - 1)
    ensures Signed(Unsigned(x, n), n) == x
  {
    var p := Pow256(n);
    if x >= 0 {
      DivModUnique(x, p, 0, x);
    } else {
      DivModUnique(x, p, -1, x + p);
    }
  }

  lemma UnsignedOfSigned(u: nat, n: nat)
    requires 0 < n && u < Pow256(n)
    ensures Unsigned(Signed(u, n), n) == u
  {
    var p := Pow256(n);
    if u >= 128 * Pow256(n - 1) {
      DivModUnique(u - p, p, -1, u);
    } else {
      DivModUnique(u, p, 0, u);
    }
  }

  /** Java `int` arithmetic: the result of an operation whose exact value is x. */
  function Wrap32(x: int): (r: int32)
    ensures -0x8000_0000 <= x < 0x8000_0000 ==> r == x
  {
    PowValues();
    var r := Signed(Unsigned(x, 4), 4);
    assert -0x8000_0000 <= x < 0x8000_0000 ==> r == x by {
      if -0x8000_0000 <= x < 0x8000_0000 { SignedOfUnsigned(x, 4); }
    }
    r
  }

  /** Wrap32 depends only on x modulo 2^32. */
  lemma Wrap32Congruent(x: int, k: int)
    ensures Wrap32(x + 0x1_0000_0000 * k) == Wrap32(x)
  {
    PowValues();
    var p := 0x1_0000_0000;
    DivModUnique(x + p * k, p, x / p + k, x % p);
  }

  /** Doubling a Java int and adding a bit commutes with the wrap-around. */
  lemma Wrap32Double(x: int, b: int)
    ensures Wrap32(2 * Wrap32(x) + b) == Wrap32(2 * x + b)
  {
    PowValues();
    var p := 0x1_0000_0000;
    var w := Wrap32(x);
    DivModUnique(x, p, x / p, x % p);
    var q := if x % p >= 0x8000_0000 then x / p + 1 else x / p;
    assert w == x - p * q;
    Wrap32Congruent(2 * x + b, -2 * q);
    assert 2 * w + b == 2 * x + b + p * (-2 * q);
  }

  /** The n bytes of u, most significant first. */
  function BigEndian(u: nat, n: nat): (bs: seq<uint8>)
    ensures |bs| == n
  {
    if n == 0 then [] else BigEndian(u / 256, n - 1) + [u % 256]
  }

  /** The unsigned number whose big-endian bytes are bs. */
  function FromBigEndian(bs: seq<uint8>): (u: nat)
    ensures u < Pow256(|bs|)
  {
    if bs == [] then 0 else FromBigEndian(bs[..|bs| - 1]) * 256 + bs[|bs| - 1]
  }

  lemma {:induction false} FromBigEndianOf(u: nat, n: nat)
    ensures FromBigEndian(BigEndian(u, n)) == u % Pow256(n)
  {
    if n == 0 {
      DivModUnique(u, 1, u, 0);
    } else {
      var bs := BigEndian(u, n);
      assert bs[..n - 1] == BigEndian(u / 256, n - 1);
      FromBigEndianOf(u / 256, n - 1);
      DivModNested(u, 256, Pow256(n - 1));
    }
  }

  /** Byte k of the big-endian form is the byte shifted down by 8 * (n - 1 - k) bits,
      as the `(x >>> s) & 0xff` expressions of ByteStream compute it. */
  lemma {:induction false} BigEndianAt(u: nat, n: nat, k: nat)
    requires k < n
    ensures BigEndian(u, n)[k] == u / Pow256(n - 1 - k) % 256
  {
    if k == n - 1 {
      assert u / 1 == u;
    } else {
      BigEndianAt(u / 256, n - 1, k);
      DivModNested(u, 256, Pow256(n - 2 - k));
    }
  }

  // ----- arrays that grow -----

  /** Element k of s, or `zero` past its end: what a longer copy of s holds there. */
  function At<T>(s: seq<T>, k: nat, zero: T): T
  {
    if k < |s| then s[k] else zero
  }

  /** `after` is `before` extended with `zero`s, as Java's copy into a larger array leaves it. */
  ghost predicate ZeroExtended<T>(before: seq<T>, after: seq<T>, zero: T)
  {
    |before| <= |after| && forall k :: 0 <= k < |after| ==> after[k] == At(before, k, zero)
  }

  /** The capacity reached by doubling `len` until index `last` fits. */
  function GrowTo(len: nat, last: int): (r: nat)
    requires len > 0
    ensures r >= len && r > last
    decreases last - len
  {
    if last < len then len else GrowTo(2 * len, last)
  }

  /** Growing for index a and then for index b >= a is growing for b. */
  lemma {:induction false} GrowToTwice(len: nat, a: int, b: int)
    requires len > 0 && a <= b
    ensures GrowTo(GrowTo(len, a), b) == GrowTo(len, b)
    decreases a - len
  {
    if a >= len {
      GrowToTwice(2 * len, a, b);
    }
  }
}
