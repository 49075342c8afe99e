/** BitStream: a bit-level writer and reader over a growable byte list. Bits are stored
    least significant first within each byte (bit `loc` is bit `loc % 8` of byte `loc / 8`);
    multi-bit fields are written most significant bit first. Bytes are bit patterns
    (`bv8`), so Java's `byte` arithmetic is the wrapping arithmetic of `bv8`. */
module BitStreams {
  import opened JavaInt

  // ----- bits of a byte -----

  /** `1 << i` for a bit index of a byte, tabulated so that proofs about single bits stay
      within bit-vector arithmetic. */
  function Mask(i: nat): (m: bv8)
    requires i < 8
  {
    [1, 2, 4, 8, 16, 32, 64, 128][i]
  }

  lemma MaskIsShift(i: nat)
    requires i < 8
    ensures Mask(i) == 1 << i
  {
  }

  /** Bit i of a byte: `(b >> i) & 1` (sign extension does not reach bits 0..7). */
  function Bit(b: bv8, i: nat): (r: int)
    requires i < 8
    ensures r == 0 || r == 1
  {
    if b & Mask(i) == 0 then 0 else 1
  }

  lemma BitIsShift(b: bv8, i: nat)
    requires i < 8
    ensures Bit(b, i) == if (b >> i) & 1 == 0 then 0 else 1
  {
  }

  /** `(byte)(b - (b & (1 << i)) + (v << i))`: bit i cleared, then v added in its place
      (`v << i` is 0 or `1 << i`, as v is 0 or 1). */
  function SetBit(b: bv8, i: nat, v: int): bv8
    requires i < 8 && (v == 0 || v == 1)
  {
    b - (b & Mask(i)) + (if v == 0 then 0 else Mask(i))
  }

  lemma SetBitSame(b: bv8, i: nat, v: int)
    requires i < 8 && (v == 0 || v == 1)
    ensures Bit(SetBit(b, i, v), i) == v
  {
    SingleBit(b, Mask(i), Mask(i), v);
  }

  lemma SetBitOther(b: bv8, i: nat, j: nat, v: int)
    requires i < 8 && j < 8 && i != j && (v == 0 || v == 1)
    ensures Bit(SetBit(b, i, v), j) == Bit(b, j)
  {
    SingleBit(b, Mask(i), Mask(j), v);
  }

  /** Clearing and refilling the single bit m leaves every other single bit n alone. */
  lemma SingleBit(b: bv8, m: bv8, n: bv8, v: int)
    requires m in {1, 2, 4, 8, 16, 32, 64, 128} && n in {1, 2, 4, 8, 16, 32, 64, 128}
    ensures (b - (b & m) + (if v == 0 then 0 else m)) & n
            == if m == n then (if v == 0 then 0 else m) else b & n
  {
  }

  lemma BitOfZero(j: nat)
    requires j < 8
    ensures Bit(0, j) == 0
  {
  }

  /** For a non-negative counter, `x >> 3` and `x & 7` are `x / 8` and `x % 8`: the
      shift-and-mask variants of readBit/writeBit address the same bit as the simple ones. */
  lemma ShiftMaskIsDivMod(x: bv32)
    requires x < 0x8000_0000
    ensures x >> 3 == x / 8 && x & 7 == x % 8
  {
  }

  // ----- the bit view of a byte array -----

  /** Bit loc of the bytes bs. */
  function BitAt(bs: seq<bv8>, loc: nat): (r: int)
    requires loc < 8 * |bs|
    ensures r == 0 || r == 1
  {
    Bit(bs[loc / 8], loc % 8)
  }

  /** Bit loc, or 0 past the end (the zero bytes a grown array adds). */
  function BitAt0(bs: seq<bv8>, loc: nat): int
  {
    if loc < 8 * |bs| then BitAt(bs, loc) else 0
  }

  /** The n bits of bs starting at bit `from` (none when n is 0, wherever `from` is). */
  function BitsOf(bs: seq<bv8>, from: nat, n: nat): (r: seq<int>)
    requires n == 0 || from + n <= 8 * |bs|
    ensures |r| == n
  {
    seq(n, k requires 0 <= k < n => BitAt(bs, from + k))
  }

  // ----- multi-bit fields -----

  lemma Pow2Values()
    ensures Pow2(31) == 0x8000_0000 && Pow2(32) == 0x1_0000_0000
  {
    assert Pow2(7) == 0x80 && Pow2(8) == 0x100;
    Pow2Split(8, 8);
    Pow2Split(8, 7);
    Pow2Split(16, 15);
    Pow2Split(16, 16);
  }

  lemma Pow2Grows(n: nat, m: nat)
    requires n <= m
    ensures Pow2(n) <= Pow2(m)
  {
  }

  /** `(i >> k) & 1` for k >= 0: Java uses only the low five bits of the shift count. */
  function JavaBit(i: int32, k: nat): (r: int)
    ensures r == 0 || r == 1
  {
    Unsigned(i, 4) / Pow2(k % 32) % 2
  }

  /** The bits writeUnsignedInt(i, n) writes: bits n-1 down to 0 of i. */
  function UnsignedIntBits(i: int32, n: nat): (r: seq<int>)
    ensures |r| == n
  {
    seq(n, j requires 0 <= j < n => JavaBit(i, n - 1 - j))
  }

  /** One pass of writeUnsignedInt: writing bit k of i extends the bits written so far
      by the next bits of UnsignedIntBits(i, n). */
  lemma WroteNextBit(w0: seq<int>, i: int32, n: nat, k: nat)
    requires k < n
    ensures w0 + UnsignedIntBits(i, n)[..n - 1 - k] + [JavaBit(i, k)] == w0 + UnsignedIntBits(i, n)[..n - k]
  {
    assert UnsignedIntBits(i, n)[..n - k] == UnsignedIntBits(i, n)[..n - 1 - k] + [JavaBit(i, k)];
  }

  /** The number whose binary digits, most significant first, are bits. */
  function FromBits(bits: seq<int>): int
  {
    if bits == [] then 0 else FromBits(bits[..|bits| - 1]) * 2 + bits[|bits| - 1]
  }

  /** The n low binary digits of u, most significant first. */
  function MsbBits(u: nat, n: nat): (r: seq<int>)
    ensures |r| == n
  {
    seq(n, j requires 0 <= j < n => u / Pow2(n - 1 - j) % 2)
  }

  lemma {:induction false} FromMsbBits(u: nat, n: nat)
    ensures FromBits(MsbBits(u, n)) == u % Pow2(n)
  {
    if n == 0 {
      DivModUnique(u, 1, u, 0);
    } else {
      var s := MsbBits(u, n);
      forall j | 0 <= j < n - 1
        ensures s[j] == MsbBits(u / 2, n - 1)[j]
      {
        DivModNested(u, 2, Pow2(n - 2 - j));
        assert Pow2(n - 1 - j) == 2 * Pow2(n - 2 - j);
      }
      assert s[..n - 1] == MsbBits(u / 2, n - 1);
      assert s[n - 1] == u % 2 by {
        assert Pow2(0) == 1 && u / 1 == u;
      }
      FromMsbBits(u / 2, n - 1);
      DivModNested(u, 2, Pow2(n - 1));
    }
  }

  /** Up to 32 bits, writeUnsignedInt writes the low bits of i's 32-bit pattern. */
  lemma UnsignedIntBitsAreLowBits(i: int32, n: nat)
    requires n <= 32
    ensures UnsignedIntBits(i, n) == MsbBits(Unsigned(i, 4), n)
  {
    forall j | 0 <= j < n
      ensures UnsignedIntBits(i, n)[j] == MsbBits(Unsigned(i, 4), n)[j]
    {
      var k: nat := n - 1 - j;
      assert k % 32 == k;
      assert UnsignedIntBits(i, n)[j] == JavaBit(i, k);
      assert MsbBits(Unsigned(i, 4), n)[j] == Unsigned(i, 4) / Pow2(k) % 2;
    }
  }

  /** x mod 2^32 mod 2^n is x mod 2^n, for n <= 32. */
  lemma ModPow2Nested(x: int, n: nat)
    requires n <= 32
    ensures x % Pow2(32) % Pow2(n) == x % Pow2(n)
  {
    var m := Pow2(32) / Pow2(n);
    Pow2Split(n, 32 - n);
    DivModNested(x, Pow2(n), Pow2(32 - n));
    DivModUnique(x % Pow2(32), Pow2(n), x / Pow2(n) % Pow2(32 - n), x % Pow2(n));
  }

  lemma {:induction false} Pow2Split(a: nat, b: nat)
    ensures Pow2(a) * Pow2(b) == Pow2(a + b)
  {
    if a > 0 {
      Pow2Split(a - 1, b);
    }
  }

  /** The unsigned round trip: n bits of i read back as i mod 2^n, under Java int
      arithmetic (so 32 bits give back i itself). */
  lemma UnsignedRoundTrip(i: int32, n: nat)
    requires 0 < n <= 32
    ensures Wrap32(FromBits(UnsignedIntBits(i, n))) == Wrap32(i % Pow2(n))
    ensures n <= 31 ==> Wrap32(FromBits(UnsignedIntBits(i, n))) == i % Pow2(n)
    ensures n == 32 ==> Wrap32(FromBits(UnsignedIntBits(i, n))) == i
  {
    PowValues();
    Pow2Values();
    var u := Unsigned(i, 4);
    UnsignedIntBitsAreLowBits(i, n);
    FromMsbBits(u, n);
    assert FromBits(UnsignedIntBits(i, n)) == u % Pow2(n);
    ModPow2Nested(i, n);
    assert u % Pow2(n) == i % Pow2(n);
    if n <= 31 {
      Pow2Grows(n, 31);
    } else {
      assert i % Pow2(n) == u;
      SignedOfUnsigned(i, 4);
    }
  }

  /** Math.abs: the absolute value, except that Integer.MIN_VALUE stays itself. */
  function JavaAbs(i: int32): (r: int32)
    ensures i != -0x8000_0000 ==> r >= 0 && (r == i || r == -i)
  {
    if i < 0 then Wrap32(-(i as int)) else i
  }

  /** The bits writeSignedInt(i, n) writes: 1 for positive (0 for zero or negative), then |i|. */
  function SignedIntBits(i: int32, n: nat): (r: seq<int>)
    ensures |r| == n + 1
  {
    [if i > 0 then 1 else 0] + UnsignedIntBits(JavaAbs(i), n)
  }

  /** writeSignedInt's two writes in a row append SignedIntBits. */
  lemma SignThenMagnitude(w0: seq<int>, i: int32, n: nat)
    ensures w0 + [if i > 0 then 1 else 0] + UnsignedIntBits(JavaAbs(i), n) == w0 + SignedIntBits(i, n)
  {
    assert w0 + [if i > 0 then 1 else 0] + UnsignedIntBits(JavaAbs(i), n)
        == w0 + ([if i > 0 then 1 else 0] + UnsignedIntBits(JavaAbs(i), n));
  }

  /** The value readSignedInt forms from a sign bit and n magnitude bits. */
  function SignedFromBits(bits: seq<int>): int32
    requires |bits| >= 1
  {
    var number := Wrap32(FromBits(bits[1..]));
    if bits[0] == 0 then Wrap32(-(number as int)) else number
  }

  /** The signed round trip, for |i| < 2^n with n <= 32; zero reads back as zero. At
      32 bits every int returns, Integer.MIN_VALUE too: Math.abs leaves it itself and
      negating it wraps back to it. */
  lemma SignedRoundTrip(i: int32, n: nat)
    requires 0 < n <= 32 && -(Pow2(n) as int) < i < Pow2(n)
    ensures SignedFromBits(SignedIntBits(i, n)) == i
    ensures SignedIntBits(i, n)[0] == 1 <==> i > 0
  {
    var bits := SignedIntBits(i, n);
    Pow2Values();
    var a := JavaAbs(i);
    assert bits[1..] == UnsignedIntBits(a, n);
    UnsignedRoundTrip(a, n);
    if n <= 31 {
      Pow2Grows(n, 31);
      DivModUnique(a, Pow2(n), 0, a);
    } else if i == -0x8000_0000 {
      Wrap32Congruent(-0x8000_0000, 1);
      assert a == i;
    }
  }

  // ----- the byte list -----

  class ByteList {
    var b: array<bv8>
    var size: int   // the largest index set so far, not one past it

    ghost predicate Valid()
      reads this
    {
      0 <= size <= b.Length
    }

    constructor OfSize(n: int)
      requires n >= 0
      ensures Valid() && fresh(b) && b.Length == n && size == 0
      ensures forall k :: 0 <= k < n ==> b[k] == 0
    {
      b := new bv8[n](_ => 0);
      size := 0;
    }

    constructor ()
      ensures Valid() && fresh(b) && b.Length == 100 && size == 0
      ensures forall k :: 0 <= k < 100 ==> b[k] == 0
    {
      b := new bv8[100](_ => 0);
      size := 0;
    }

    /** Wraps an existing array (shared, not copied). */
    constructor Wrap(c: array<bv8>)
      ensures Valid() && b == c && size == c.Length
    {
      b := c;
      size := c.Length;
    }

    /** Stores a at k; size becomes the largest index stored. */
    method Set(k: int, a: bv8)
      requires Valid() && 0 <= k < b.Length
      modifies this`size, b
      ensures Valid() && b[..] == old(b[..])[k := a]
      ensures size == if k > old(size) then k else old(size)
    {
      b[k] := a;
      if k > size {
        size := k;
      }
    }

    /** Grows the array to newlength when that is longer; never shrinks it. */
    method ExtendToLength(newlength: int)
      requires Valid()
      modifies this`b
      ensures Valid() && ZeroExtended(old(b[..]), b[..], 0)
      ensures b.Length == if newlength > old(b.Length) then newlength else old(b.Length)
      ensures b == old(b) || fresh(b)
    {
      if newlength > b.Length {
        var b2 := new bv8[newlength](_ => 0);
        var k := 0;
        while k < b.Length
          invariant 0 <= k <= b.Length
          invariant forall j :: 0 <= j < k ==> b2[j] == b[j]
          invariant forall j :: k <= j < b2.Length ==> b2[j] == 0
          modifies b2
        {
          b2[k] := b[k];
          k := k + 1;
        }
        b := b2;
      }
    }

    /** The loop of writeBit: doubles the array until index is inside it. */
    method DoubleUntil(index: int)
      requires Valid() && b.Length > 0
      modifies this`b
      ensures Valid() && b.Length == GrowTo(old(b.Length), index)
      ensures b == old(b) || fresh(b)
      ensures ZeroExtended(old(b[..]), b[..], 0)
    {
      ghost var before := b[..];
      ghost var len0 := b.Length;
      while index >= b.Length
        invariant Valid() && b.Length > 0
        invariant b == old(b) || fresh(b)
        invariant ZeroExtended(before, b[..], 0)
        invariant GrowTo(b.Length, index) == GrowTo(len0, index)
        decreases index - b.Length
      {
        DoubleLength();
      }
    }

    method DoubleLength()
      requires Valid()
      modifies this`b
      ensures Valid() && fresh(b) && b.Length == 2 * old(b.Length)
      ensures ZeroExtended(old(b[..]), b[..], 0)
    {
      var b2 := new bv8[b.Length * 2](_ => 0);
      var k := 0;
      while k < b.Length
        invariant 0 <= k <= b.Length
        invariant forall j :: 0 <= j < k ==> b2[j] == b[j]
        invariant forall j :: k <= j < b2.Length ==> b2[j] == 0
        modifies b2
      {
        b2[k] := b[k];
        k := k + 1;
      }
      b := b2;
    }
  }

  /** The bits of `before` with bit `loc` replaced by v, on an array grown with zero bytes. */
  ghost predicate WroteBit(before: seq<bv8>, after: seq<bv8>, loc: nat, v: int)
  {
    && |before| <= |after| && loc < 8 * |after|
    && forall l :: 0 <= l < 8 * |after| ==> BitAt(after, l) == (if l == loc then v else BitAt0(before, l))
  }

  /** Setting bit loc % 8 of byte loc / 8 of a zero-extended copy is a WroteBit step. */
  lemma SetBitWrites(before: seq<bv8>, grown: seq<bv8>, loc: nat, v: int)
    requires ZeroExtended(before, grown, 0) && loc < 8 * |grown| && (v == 0 || v == 1)
    ensures WroteBit(before, grown[loc / 8 := SetBit(grown[loc / 8], loc % 8, v)], loc, v)
  {
    var after := grown[loc / 8 := SetBit(grown[loc / 8], loc % 8, v)];
    forall l | 0 <= l < 8 * |after|
      ensures BitAt(after, l) == (if l == loc then v else BitAt0(before, l))
    {
      if l == loc {
        SetBitSame(grown[loc / 8], loc % 8, v);
      } else if l / 8 == loc / 8 {
        SetBitOther(grown[loc / 8], loc % 8, l % 8, v);
        BitOfZero(l % 8);
      } else {
        BitOfZero(l % 8);
      }
    }
  }

  /** Writing one bit at the end extends the written bits by that bit. */
  lemma WroteBitAppends(before: seq<bv8>, after: seq<bv8>, n: nat, v: int)
    requires n <= 8 * |before| && WroteBit(before, after, n, v)
    ensures BitsOf(after, 0, n + 1) == BitsOf(before, 0, n) + [v]
  {
  }

  /** Writing beyond a range leaves the bits in it alone. */
  lemma WroteBitKeeps(before: seq<bv8>, after: seq<bv8>, loc: nat, v: int, from: nat, n: nat)
    requires WroteBit(before, after, loc, v) && from + n <= 8 * |before| && from + n <= loc
    ensures BitsOf(after, from, n) == BitsOf(before, from, n)
  {
  }

  /** Every bit of `after` from bit `from` on is the bit of `before` there, or 0 past its
      end: whatever a writer grew or skipped it left as it was. */
  ghost predicate Untouched(before: seq<bv8>, after: seq<bv8>, from: nat)
  {
    && |before| <= |after|
    && forall l :: from <= l < 8 * |after| ==> BitAt(after, l) == BitAt0(before, l)
  }

  /** Every bit of bs from bit `from` on is 0. */
  ghost predicate ZeroFrom(bs: seq<bv8>, from: nat)
  {
    forall l :: from <= l < 8 * |bs| ==> BitAt(bs, l) == 0
  }

  /** The byte list a writer leaves after moving writecounter from w0 to w: unchanged when
      nothing was written, otherwise doubled from len0 until byte (w - 1) / 8 fits, with
      size raised to that byte when it was below it. */
  ghost predicate Grew(len0: int, size0: int, w0: int, len: int, size: int, w: int)
  {
    && len0 > 0 && w0 <= w
    && if w == w0 then len == len0 && size == size0
       else && len == GrowTo(len0, (w - 1) / 8)
            && size == if (w - 1) / 8 > size0 then (w - 1) / 8 else size0
  }

  lemma UntouchedSame(bs: seq<bv8>, from: nat)
    ensures Untouched(bs, bs, from)
  {
  }

  /** A single bit written leaves every bit past it alone. */
  lemma WroteBitUntouched(before: seq<bv8>, after: seq<bv8>, loc: nat, v: int)
    requires WroteBit(before, after, loc, v)
    ensures Untouched(before, after, loc + 1)
  {
  }

  /** Two writes in a row, the second at or past where the first ended, leave the bits
      past the second one as they were before the first. */
  lemma {:induction false} UntouchedTrans(b0: seq<bv8>, b1: seq<bv8>, b2: seq<bv8>, w1: nat, w2: nat)
    requires Untouched(b0, b1, w1) && Untouched(b1, b2, w2) && w1 <= w2
    ensures Untouched(b0, b2, w2)
  {
    forall l | w2 <= l < 8 * |b2|
      ensures BitAt(b2, l) == BitAt0(b0, l)
    {
      if l < 8 * |b1| {
        assert BitAt(b2, l) == BitAt(b1, l);
      }
    }
  }

  /** Growing for two writes in a row is growing for both together. */
  lemma {:induction false} GrewTrans(len0: int, size0: int, w0: int, len1: int, size1: int, w1: int,
                                    len2: int, size2: int, w2: int)
    requires w0 >= 0
    requires Grew(len0, size0, w0, len1, size1, w1) && Grew(len1, size1, w1, len2, size2, w2)
    ensures Grew(len0, size0, w0, len2, size2, w2)
  {
    if w1 > w0 && w2 > w1 {
      GrowToTwice(len0, (w1 - 1) / 8, (w2 - 1) / 8);
    }
  }

  /** A writer's effect so far followed by one more write is its effect up to that write. */
  lemma Tracked(b0: seq<bv8>, len0: int, size0: int, wc0: nat, b1: seq<bv8>, len1: int, size1: int, wc1: nat,
                b2: seq<bv8>, len2: int, size2: int, wc2: nat)
    requires Grew(len0, size0, wc0, len1, size1, wc1) && Untouched(b0, b1, wc1)
    requires Grew(len1, size1, wc1, len2, size2, wc2) && Untouched(b1, b2, wc2)
    ensures Grew(len0, size0, wc0, len2, size2, wc2) && Untouched(b0, b2, wc2)
  {
    GrewTrans(len0, size0, wc0, len1, size1, wc1, len2, size2, wc2);
    UntouchedTrans(b0, b1, b2, wc1, wc2);
  }

  /** What Untouched says about a stream that started as zero bytes. */
  lemma UntouchedZeros(z: seq<bv8>, after: seq<bv8>, from: nat)
    requires (forall k :: 0 <= k < |z| ==> z[k] == 0) && Untouched(z, after, from)
    ensures ZeroFrom(after, from)
  {
    forall l | from <= l < 8 * |after|
      ensures BitAt(after, l) == 0
    {
      BitOfZero(l % 8);
    }
  }

  // ----- the stream -----

  class BitStream {
    var data: ByteList
    var readcounter: int
    var writecounter: int

    ghost predicate Valid()
      reads this, data
    {
      data.Valid() && 0 <= readcounter && 0 <= writecounter <= 8 * data.b.Length
    }

    /** The bits written so far. */
    ghost function Written(): seq<int>
      reads this, data, data.b
      requires Valid()
    {
      BitsOf(data.b[..], 0, writecounter)
    }

    constructor ()
      ensures Valid() && fresh(data) && fresh(data.b) && data.b.Length == 100 && data.size == 0
      ensures forall k :: 0 <= k < 100 ==> data.b[k] == 0
      ensures readcounter == 0 && writecounter == 0 && Written() == []
    {
      data := new ByteList();
      readcounter, writecounter := 0, 0;
    }

    /** Reads the bit at readcounter and moves past it. */
    method ReadBit() returns (bit: int)
      requires Valid() && readcounter < 8 * data.b.Length
      modifies this`readcounter
      ensures bit == BitAt(data.b[..], old(readcounter))
      ensures readcounter == old(readcounter) + 1
    {
      bit := Bit(data.b[readcounter / 8], readcounter % 8);
      readcounter := readcounter + 1;
    }

    /** The bit at loc; no counter moves. */
    function ReadBitAt(loc: int): (bit: int)
      reads this, data, data.b
      requires 0 <= loc < 8 * data.b.Length
      ensures bit == 0 || bit == 1
    {
      Bit(data.b[loc / 8], loc % 8)
    }

    /** Writes a bit (0 or 1) at writecounter, doubling the byte list until it fits. */
    method WriteBit(value: int)
      requires Valid() && data.b.Length > 0 && (value == 0 || value == 1)
      modifies this`writecounter, data, data.b
      ensures Valid() && data.b.Length > 0 && readcounter == old(readcounter)
      ensures data.b == old(data.b) || fresh(data.b)
      ensures data.b.Length == GrowTo(old(data.b.Length), old(writecounter) / 8)
      ensures WroteBit(old(data.b[..]), data.b[..], old(writecounter), value)
      ensures writecounter == old(writecounter) + 1
      ensures data.size == if old(writecounter) / 8 > old(data.size) then old(writecounter) / 8 else old(data.size)
      ensures Grew(old(data.b.Length), old(data.size), old(writecounter), data.b.Length, data.size, writecounter)
      ensures Untouched(old(data.b[..]), data.b[..], writecounter)
      ensures Written() == old(Written()) + [value]
    {
      var index := writecounter / 8;
      var bit := writecounter % 8;
      ghost var before := data.b[..];
      data.DoubleUntil(index);
      ghost var grown := data.b[..];
      DivBound(writecounter, 8, data.b.Length);
      var b := data.b[index];
      data.Set(index, SetBit(b, bit, value));
      SetBitWrites(before, grown, writecounter, value);
      WroteBitAppends(before, data.b[..], writecounter, value);
      WroteBitUntouched(before, data.b[..], writecounter, value);
      writecounter := writecounter + 1;
    }

    /** Writes bits bits-1 down to 0 of i. */
    method WriteUnsignedInt(i: int32, bits: int)
      requires Valid() && data.b.Length > 0
      modifies this`writecounter, data, data.b
      ensures Valid() && data.b.Length > 0 && readcounter == old(readcounter)
      ensures data.b == old(data.b) || fresh(data.b)
      ensures Grew(old(data.b.Length), old(data.size), old(writecounter), data.b.Length, data.size, writecounter)
      ensures Untouched(old(data.b[..]), data.b[..], writecounter)
      ensures Written() == old(Written()) + UnsignedIntBits(i, if bits > 0 then bits else 0)
    {
      var n := if bits > 0 then bits else 0;
      ghost var w0 := Written();
      ghost var len0, size0, wc0, b0 := data.b.Length, data.size, writecounter, data.b[..];
      UntouchedSame(b0, wc0);
      var k := bits - 1;
      while k >= 0
        invariant bits > 0 ==> -1 <= k < n
        invariant bits <= 0 ==> k == bits - 1
        invariant Valid() && data.b.Length > 0 && readcounter == old(readcounter)
        invariant data.b == old(data.b) || fresh(data.b)
        invariant Grew(len0, size0, wc0, data.b.Length, data.size, writecounter)
        invariant Untouched(b0, data.b[..], writecounter)
        invariant Written() == w0 + UnsignedIntBits(i, n)[..n - 1 - (if k >= -1 then k else -1)]
      {
        ghost var len1, size1, wc1, b1 := data.b.Length, data.size, writecounter, data.b[..];
        WriteBit(JavaBit(i, k));
        Tracked(b0, len0, size0, wc0, b1, len1, size1, wc1, data.b[..], data.b.Length, data.size, writecounter);
        WroteNextBit(w0, i, n, k);
        k := k - 1;
      }
      assert UnsignedIntBits(i, n)[..n] == UnsignedIntBits(i, n);
    }

    /** Reads bits bits, most significant first, into a Java int (0 when bits <= 0). */
    method ReadUnsignedInt(bits: int) returns (n: int32)
      requires Valid() && readcounter + bits <= 8 * data.b.Length
      modifies this`readcounter
      ensures bits > 0 ==> n == Wrap32(FromBits(BitsOf(data.b[..], old(readcounter), bits)))
      ensures bits > 0 ==> readcounter == old(readcounter) + bits
      ensures bits <= 0 ==> n == 0 && readcounter == old(readcounter)
    {
      if bits > 0 {
        ghost var p := readcounter;
        ghost var bs := data.b[..];
        n := ReadBit();
        assert BitsOf(bs, p, 1) == [n];
        assert FromBits([n]) == n;
        var k := 1;
        while k < bits
          invariant 1 <= k <= bits && readcounter == p + k
          invariant n == Wrap32(FromBits(BitsOf(bs, p, k)))
        {
          var bit := ReadBit();
          ShiftInBit(bs, p, k, bit);
          n := Wrap32(2 * n + bit);   // (n << 1) | bit: the bit fills the zero low bit
          k := k + 1;
        }
        return;
      }
      n := 0;
    }

    /** A sign bit (1 for positive) and then the magnitude, as Math.abs gives it. */
    method WriteSignedInt(i: int32, bits: int)
      requires Valid() && data.b.Length > 0
      modifies this`writecounter, data, data.b
      ensures Valid() && data.b.Length > 0 && readcounter == old(readcounter)
      ensures data.b == old(data.b) || fresh(data.b)
      ensures Grew(old(data.b.Length), old(data.size), old(writecounter), data.b.Length, data.size, writecounter)
      ensures Untouched(old(data.b[..]), data.b[..], writecounter)
      ensures Written() == old(Written()) + SignedIntBits(i, if bits > 0 then bits else 0)
    {
      ghost var len0, size0, wc0, b0 := data.b.Length, data.size, writecounter, data.b[..];
      ghost var w0 := Written();
      WriteBit(if i > 0 then 1 else 0);
      ghost var len1, size1, wc1, b1 := data.b.Length, data.size, writecounter, data.b[..];
      WriteUnsignedInt(JavaAbs(i), bits);
      SignThenMagnitude(w0, i, if bits > 0 then bits else 0);
      Tracked(b0, len0, size0, wc0, b1, len1, size1, wc1, data.b[..], data.b.Length, data.size, writecounter);
    }

    /** Reads a sign bit and a magnitude; a sign bit of 0 negates it (with Java wrap-around). */
    method ReadSignedInt(bits: int) returns (number: int32)
      requires Valid() && readcounter + 1 + (if bits > 0 then bits else 0) <= 8 * data.b.Length
      modifies this`readcounter
      ensures var n := if bits > 0 then bits else 0;
        && number == SignedFromBits(BitsOf(data.b[..], old(readcounter), n + 1))
        && readcounter == old(readcounter) + n + 1
    {
      ghost var p := readcounter;
      ghost var n := if bits > 0 then bits else 0;
      var sign := ReadBit();
      number := ReadUnsignedInt(bits);
      ghost var all := BitsOf(data.b[..], p, n + 1);
      assert all[1..] == BitsOf(data.b[..], p + 1, n);
      if sign == 0 {
        number := Wrap32(-(number as int));
      }
    }

    /** Appends o's first o.writecounter bits, reading them through o's read counter. */
    method AppendBitStream(o: BitStream)
      requires Valid() && o.Valid() && data.b.Length > 0
      requires o != this && o.data != data && o.data.b != data.b
      modifies this`writecounter, data, data.b, o`readcounter
      ensures Valid() && data.b.Length > 0 && readcounter == old(readcounter)
      ensures data.b == old(data.b) || fresh(data.b)
      ensures Grew(old(data.b.Length), old(data.size), old(writecounter), data.b.Length, data.size, writecounter)
      ensures Untouched(old(data.b[..]), data.b[..], writecounter)
      ensures Written() == old(Written()) + old(o.Written())
      ensures o.readcounter == o.writecounter
    {
      o.readcounter := 0;
      o.MoveBits(this, o.writecounter);
    }

    /** Moves the next min(bits, writecounter - readcounter) bits into a new stream. */
    method ReadSubStream(bits: int) returns (s: BitStream)
      requires Valid()
      modifies this`readcounter
      ensures Valid()
      ensures var n := Min(bits, writecounter - old(readcounter));
        && fresh(s) && s.Valid() && s.readcounter == 0
        && s.Written() == BitsOf(data.b[..], old(readcounter), if n > 0 then n else 0)
        && readcounter == old(readcounter) + (if n > 0 then n else 0)
      ensures Grew(100, 0, 0, s.data.b.Length, s.data.size, s.writecounter)
      ensures ZeroFrom(s.data.b[..], s.writecounter)
    {
      s := new BitStream();
      ghost var z := s.data.b[..];
      var n := Min(bits, writecounter - readcounter);
      MoveBits(s, n);
      UntouchedZeros(z, s.data.b[..], s.writecounter);
    }

    /** The loop of appendBitStream and readSubStream: the next n bits read here (none
        when n <= 0) are written to s, one at a time. */
    method MoveBits(s: BitStream, n: int)
      requires Valid() && (n <= 0 || readcounter + n <= 8 * data.b.Length)
      requires s.Valid() && s.data.b.Length > 0
      requires s != this && s.data != data && s.data.b != data.b
      modifies this`readcounter, s`writecounter, s.data, s.data.b
      ensures readcounter == old(readcounter) + (if n > 0 then n else 0)
      ensures s.Valid() && s.data.b.Length > 0 && s.readcounter == old(s.readcounter)
      ensures s.data == old(s.data) && (s.data.b == old(s.data.b) || fresh(s.data.b))
      ensures Grew(old(s.data.b.Length), old(s.data.size), old(s.writecounter), s.data.b.Length, s.data.size, s.writecounter)
      ensures Untouched(old(s.data.b[..]), s.data.b[..], s.writecounter)
      ensures s.Written() == old(s.Written()) + BitsOf(data.b[..], old(readcounter), if n > 0 then n else 0)
    {
      ghost var w0 := s.Written();
      ghost var len0, size0, wc0, b0 := s.data.b.Length, s.data.size, s.writecounter, s.data.b[..];
      ghost var p := readcounter;
      UntouchedSame(b0, wc0);
      var k := 0;
      while k < n
        invariant 0 <= k <= (if n > 0 then n else 0) && readcounter == p + k
        invariant s.Valid() && s.data.b.Length > 0 && s.readcounter == old(s.readcounter)
        invariant s.data == old(s.data) && s.data.b != data.b
        invariant s.data.b == old(s.data.b) || fresh(s.data.b)
        invariant Grew(len0, size0, wc0, s.data.b.Length, s.data.size, s.writecounter)
        invariant Untouched(b0, s.data.b[..], s.writecounter)
        invariant s.Written() == w0 + BitsOf(data.b[..], p, k)
      {
        MoveBit(s, w0, p, k, b0, len0, size0, wc0);
        k := k + 1;
      }
    }

    /** One pass of the loop of MoveBits: the next bit read here is written to s, which
        keeps the loop's invariant relative to s as it was before the loop (bytes b0, w0
        bits written, length len0 and size size0) and to the bits p.. moved so far. */
    method MoveBit(s: BitStream, ghost w0: seq<int>, ghost p: nat, ghost k: nat,
                   ghost b0: seq<bv8>, ghost len0: int, ghost size0: int, ghost wc0: nat)
      requires Valid() && readcounter == p + k && readcounter < 8 * data.b.Length
      requires s.Valid() && s.data.b.Length > 0
      requires s != this && s.data != data && s.data.b != data.b
      requires Grew(len0, size0, wc0, s.data.b.Length, s.data.size, s.writecounter)
      requires Untouched(b0, s.data.b[..], s.writecounter)
      requires s.Written() == w0 + BitsOf(data.b[..], p, k)
      modifies this`readcounter, s`writecounter, s.data, s.data.b
      ensures readcounter == old(readcounter) + 1
      ensures s.Valid() && s.data.b.Length > 0 && s.readcounter == old(s.readcounter)
      ensures s.data == old(s.data) && (s.data.b == old(s.data.b) || fresh(s.data.b))
      ensures Grew(len0, size0, wc0, s.data.b.Length, s.data.size, s.writecounter)
      ensures Untouched(b0, s.data.b[..], s.writecounter)
      ensures s.Written() == w0 + BitsOf(data.b[..], p, k + 1)
    {
      ghost var len1, size1, wc1, b1 := s.data.b.Length, s.data.size, s.writecounter, s.data.b[..];
      var bit := ReadBit();
      s.WriteBit(bit);
      MovedOneMore(w0, data.b[..], p, k);
      Tracked(b0, len0, size0, wc0, b1, len1, size1, wc1, s.data.b[..], s.data.b.Length, s.data.size, s.writecounter);
    }
  }

  /** Moving one more bit to the end of what was moved so far. */
  lemma MovedOneMore(w0: seq<int>, bs: seq<bv8>, from: nat, n: nat)
    requires from + n < 8 * |bs|
    ensures w0 + BitsOf(bs, from, n) + [BitAt(bs, from + n)] == w0 + BitsOf(bs, from, n + 1)
  {
    assert BitsOf(bs, from, n + 1) == BitsOf(bs, from, n) + [BitAt(bs, from + n)];
  }

  /** One pass of readUnsignedInt: shifting in the next bit extends the number read. */
  lemma ShiftInBit(bs: seq<bv8>, p: nat, k: nat, bit: int)
    requires p + k + 1 <= 8 * |bs| && bit == BitAt(bs, p + k)
    ensures Wrap32(2 * Wrap32(FromBits(BitsOf(bs, p, k))) + bit) == Wrap32(FromBits(BitsOf(bs, p, k + 1)))
  {
    assert BitsOf(bs, p, k + 1)[..k] == BitsOf(bs, p, k);
    Wrap32Double(FromBits(BitsOf(bs, p, k)), bit);
  }

  function Min(a: int, b: int): int { if a <= b then a else b }

  lemma DivBound(x: nat, d: int, len: int)
    requires d > 0 && x / d < len
    ensures x < d * len
  {
    MulBelow(d, x / d, len - 1);
  }

  /** writeUnsignedInt then readUnsignedInt from the same position gives i mod 2^n back. */
  method UnsignedThroughStream(i: int32, n: nat) returns (r: int32)
    requires 0 < n <= 31
    ensures r == i % Pow2(n)
  {
    var s := new BitStream();
    s.WriteUnsignedInt(i, n);
    ghost var bits := BitsOf(s.data.b[..], 0, n);
    assert bits == s.Written() == UnsignedIntBits(i, n);
    r := s.ReadUnsignedInt(n);
    assert r == Wrap32(FromBits(bits));
    UnsignedRoundTrip(i, n);
  }

  /** writeSignedInt then readSignedInt gives i back when |i| < 2^n. */
  method SignedThroughStream(i: int32, n: nat) returns (r: int32)
    requires 0 < n <= 32 && -(Pow2(n) as int) < i < Pow2(n)
    ensures r == i
  {
    var s := new BitStream();
    s.WriteSignedInt(i, n);
    ghost var bits := BitsOf(s.data.b[..], 0, n + 1);
    assert bits == s.Written() == SignedIntBits(i, n);
    r := s.ReadSignedInt(n);
    assert r == SignedFromBits(bits);
    SignedRoundTrip(i, n);
  }

  /** writeBit then readBit at that location gives the bit back. */
  method BitThroughStream(s: BitStream, v: int) returns (r: int)
    requires s.Valid() && s.data.b.Length > 0 && (v == 0 || v == 1)
    modifies s`writecounter, s.data, s.data.b
    ensures r == v
  {
    var loc := s.writecounter;
    s.WriteBit(v);
    r := s.ReadBitAt(loc);
    assert r == BitAt(s.data.b[..], loc);
  }
}
