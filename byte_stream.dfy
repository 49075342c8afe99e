/** ByteStream: a growable byte buffer with a read position, a write position and the
    furthest position written (`filledsize`). Multi-byte fields are big-endian; a string
    is an int32 length followed by one 16-bit unit per char. Bytes are kept as their
    unsigned patterns 0..255; the signed Java value is recovered with `Signed`. */
module ByteStreams {
  import opened JavaInt

  // ----- field layouts -----

  function ShortBytes(s: int16): seq<uint8> { BigEndian(Unsigned(s, 2), 2) }
  function IntBytes(i: int32): seq<uint8> { BigEndian(Unsigned(i, 4), 4) }
  function LongBytes(l: int64): seq<uint8> { BigEndian(Unsigned(l, 8), 8) }

  function ShortOf(bs: seq<uint8>): int16
    requires |bs| == 2
  {
    PowValues();
    Signed(FromBigEndian(bs), 2)
  }

  function IntOf(bs: seq<uint8>): int32
    requires |bs| == 4
  {
    PowValues();
    Signed(FromBigEndian(bs), 4)
  }

  function LongOf(bs: seq<uint8>): int64
    requires |bs| == 8
  {
    PowValues();
    Signed(FromBigEndian(bs), 8)
  }

  lemma ShortRoundTrip(s: int16)
    ensures ShortOf(ShortBytes(s)) == s
  {
    PowValues();
    FromBigEndianOf(Unsigned(s, 2), 2);
    SignedOfUnsigned(s, 2);
  }

  lemma IntRoundTrip(i: int32)
    ensures IntOf(IntBytes(i)) == i
  {
    PowValues();
    FromBigEndianOf(Unsigned(i, 4), 4);
    SignedOfUnsigned(i, 4);
  }

  lemma LongRoundTrip(l: int64)
    ensures LongOf(LongBytes(l)) == l
  {
    PowValues();
    FromBigEndianOf(Unsigned(l, 8), 8);
    SignedOfUnsigned(l, 8);
  }

  /** The bytes of an int, most significant first, as writeInt's four shifts compute them. */
  lemma IntBytesMostSignificantFirst(i: int32)
    ensures var u := Unsigned(i, 4);
      IntBytes(i) == [u / 0x100_0000 % 256, u / 0x1_0000 % 256, u / 0x100 % 256, u % 256]
  {
    PowValues();
    var u := Unsigned(i, 4);
    BigEndianAt(u, 4, 0);
    BigEndianAt(u, 4, 1);
    BigEndianAt(u, 4, 2);
    BigEndianAt(u, 4, 3);
  }

  lemma ShortBytesMostSignificantFirst(s: int16)
    ensures var u := Unsigned(s, 2); ShortBytes(s) == [u / 0x100 % 256, u % 256]
  {
    PowValues();
    var u := Unsigned(s, 2);
    BigEndianAt(u, 2, 0);
    BigEndianAt(u, 2, 1);
  }

  /** The bytes of a long, most significant first, as writeLong's eight shifts compute them. */
  lemma LongBytesMostSignificantFirst(l: int64)
    ensures var u := Unsigned(l, 8);
      LongBytes(l) == [u / 0x100_0000_0000_0000 % 256, u / 0x1_0000_0000_0000 % 256,
                       u / 0x100_0000_0000 % 256, u / 0x1_0000_0000 % 256,
                       u / 0x100_0000 % 256, u / 0x1_0000 % 256, u / 0x100 % 256, u % 256]
  {
    var u := Unsigned(l, 8);
    assert Pow256(7) == 0x100_0000_0000_0000 && Pow256(6) == 0x1_0000_0000_0000;
    assert Pow256(5) == 0x100_0000_0000 && Pow256(4) == 0x1_0000_0000;
    assert Pow256(3) == 0x100_0000 && Pow256(2) == 0x1_0000 && Pow256(1) == 0x100;
    BigEndianAt(u, 8, 0);
    BigEndianAt(u, 8, 1);
    BigEndianAt(u, 8, 2);
    BigEndianAt(u, 8, 3);
    BigEndianAt(u, 8, 4);
    BigEndianAt(u, 8, 5);
    BigEndianAt(u, 8, 6);
    BigEndianAt(u, 8, 7);
  }

  /** The 16-bit units of a string, each written as `writeShort((short)c)`. */
  function CharsBytes(cs: JString): (bs: seq<uint8>)
    ensures |bs| == 2 * |cs|
  {
    PowValues();
    if cs == [] then [] else CharsBytes(cs[..|cs| - 1]) + ShortBytes(Signed(cs[|cs| - 1], 2))
  }

  /** writeString: an int32 length, then the units; null is written as length 0. */
  function StringBytes(s: Option<JString>): seq<uint8>
    requires s.Some? ==> |s.value| < 0x8000_0000
  {
    match s
    case None => IntBytes(0)
    case Some(cs) => IntBytes(|cs|) + CharsBytes(cs)
  }

  /** The chars readString rebuilds from 2 * n bytes, each `(char) readShort()`. */
  function CharsOf(bs: seq<uint8>): (cs: JString)
    requires |bs| % 2 == 0
    ensures |cs| == |bs| / 2
  {
    PowValues();
    seq(|bs| / 2, k requires 0 <= k < |bs| / 2 => Unsigned(ShortOf(bs[2 * k..2 * k + 2]), 2))
  }

  /** Unit k of the chars read from d at p is the short at p + 2k. */
  lemma CharAt(d: seq<uint8>, p: nat, length: nat, k: nat)
    requires k < length && p + 2 * length <= |d|
    ensures (2 * length) % 2 == 0
    ensures CharsOf(d[p..p + 2 * length])[k] == Unsigned(ShortOf(d[p + 2 * k..p + 2 * k + 2]), 2)
  {
    Even(length);
    SliceInSlice(d, p, p + 2 * length, 2 * k);
  }

  lemma {:induction false} CharsBytesAt(cs: JString, k: nat)
    requires k < |cs|
    ensures CharsBytes(cs)[2 * k..2 * k + 2] == ShortBytes(Signed(cs[k], 2))
  {
    PowValues();
    var n := |cs|;
    var front := CharsBytes(cs[..n - 1]);
    assert CharsBytes(cs) == front + ShortBytes(Signed(cs[n - 1], 2));
    if k < n - 1 {
      CharsBytesAt(cs[..n - 1], k);
      assert CharsBytes(cs)[2 * k..2 * k + 2] == front[2 * k..2 * k + 2];
    } else {
      assert CharsBytes(cs)[2 * k..2 * k + 2] == ShortBytes(Signed(cs[n - 1], 2));
    }
  }

  lemma CharsRoundTrip(cs: JString)
    ensures CharsOf(CharsBytes(cs)) == cs
  {
    PowValues();
    var r := CharsOf(CharsBytes(cs));
    forall k | 0 <= k < |cs|
      ensures r[k] == cs[k]
    {
      CharsBytesAt(cs, k);
      ShortRoundTrip(Signed(cs[k], 2));
      UnsignedOfSigned(cs[k], 2);
    }
  }

  /** writeString(null) then readString: length 0, so "". */
  lemma NullRoundTrip()
    ensures var bs := StringBytes(None); IntOf(bs[..4]) == 0 && |bs| == 4 && CharsOf(bs[4..]) == []
  {
    var bs := StringBytes(None);
    assert bs[..4] == bs;
    IntRoundTrip(0);
  }

  /** writeString then readString: the string comes back. */
  lemma CharsStringRoundTrip(cs: JString)
    requires |cs| < 0x8000_0000
    ensures var bs := StringBytes(Some(cs));
      IntOf(bs[..4]) == |cs| && |bs| == 4 + 2 * |cs| && CharsOf(bs[4..]) == cs
  {
    var bs := StringBytes(Some(cs));
    assert bs[..4] == IntBytes(|cs|);
    IntRoundTrip(|cs|);
    assert bs[4..] == CharsBytes(cs);
    CharsRoundTrip(cs);
  }

  lemma NullStringIsEmptyString()
    ensures StringBytes(None) == StringBytes(Some([]))
  {
  }

  // ----- how the buffer changes -----

  /** `after` is `before` extended with zero bytes and then overwritten with bs at `at`. */
  ghost predicate Wrote(before: seq<uint8>, after: seq<uint8>, at: int, bs: seq<uint8>)
  {
    && 0 <= at && |before| <= |after| && at + |bs| <= |after|
    && after[at..at + |bs|] == bs
    && forall k :: 0 <= k < |after| && !(at <= k < at + |bs|) ==> after[k] == At(before, k, 0)
  }

  lemma WroteThenWrote(a: seq<uint8>, b: seq<uint8>, c: seq<uint8>, at: int, x: seq<uint8>, y: seq<uint8>)
    requires Wrote(a, b, at, x) && Wrote(b, c, at + |x|, y)
    ensures Wrote(a, c, at, x + y)
  {
    assert c[at..at + |x| + |y|] == c[at..at + |x|] + c[at + |x|..at + |x| + |y|];
  }

  /** Overwriting bs at `at` in a zero-extended copy of `before` is a Wrote step. */
  lemma WroteBlock(before: seq<uint8>, grown: seq<uint8>, after: seq<uint8>, at: int, bs: seq<uint8>)
    requires ZeroExtended(before, grown, 0) && |after| == |grown| && 0 <= at && at + |bs| <= |after|
    requires forall k :: 0 <= k < |bs| ==> after[at + k] == bs[k]
    requires forall k :: 0 <= k < |after| && !(at <= k < at + |bs|) ==> after[k] == grown[k]
    ensures Wrote(before, after, at, bs)
  {
    assert after[at..at + |bs|] == bs;
  }

  /** One char of writeString: the bytes so far grow by that char's two bytes, and the
      capacity is still the one reached by doubling up to the last byte written. */
  lemma WriteUnitsStep(d0: seq<uint8>, d1: seq<uint8>, d2: seq<uint8>, wp0: int, len0: nat, c: JString, k: nat)
    requires len0 > 0 && k < |c|
    requires Wrote(d0, d1, wp0, CharsBytes(c[..k]))
    requires |d1| == GrowTo(len0, wp0 + 2 * k - 1)
    requires Wrote(d1, d2, wp0 + 2 * k, ShortBytes(Signed(c[k], 2)))
    requires |d2| == GrowTo(|d1|, wp0 + 2 * k + 1)
    ensures Wrote(d0, d2, wp0, CharsBytes(c[..k + 1]))
    ensures |d2| == GrowTo(len0, wp0 + 2 * (k + 1) - 1)
  {
    GrowToTwice(len0, wp0 + 2 * k - 1, wp0 + 2 * k + 1);
    assert c[..k + 1][..k] == c[..k];
    WroteThenWrote(d0, d1, d2, wp0, CharsBytes(c[..k]), ShortBytes(Signed(c[k], 2)));
  }

  function Max(a: int, b: int): int { if a >= b then a else b }

  lemma Even(n: int)
    ensures (2 * n) % 2 == 0
  {
  }

  lemma SliceInSlice(a: seq<uint8>, lo: int, hi: int, i: int)
    requires 0 <= lo && 0 <= i && lo + i + 2 <= hi <= |a|
    ensures a[lo..hi][i..i + 2] == a[lo + i..lo + i + 2]
  {
    assert a[lo..hi][i..i + 2] == [a[lo + i], a[lo + i + 1]];
  }

  class ByteStream {
    var data: array<uint8>
    var filledsize: int   // the furthest byte written + 1
    var readpointer: int
    var writepointer: int

    ghost predicate Valid()
      reads this
    {
      0 <= readpointer && 0 <= writepointer <= filledsize <= data.Length
    }

    constructor OfSize(size: int)
      requires size >= 0
      ensures Valid() && fresh(data) && data.Length == size
      ensures forall k :: 0 <= k < size ==> data[k] == 0
      ensures filledsize == 0 && readpointer == 0 && writepointer == 0
    {
      data := new uint8[size](_ => 0);
      filledsize, readpointer, writepointer := 0, 0, 0;
    }

    constructor ()
      ensures Valid() && fresh(data) && data.Length == 100
      ensures forall k :: 0 <= k < 100 ==> data[k] == 0
      ensures filledsize == 0 && readpointer == 0 && writepointer == 0
    {
      data := new uint8[100](_ => 0);
      filledsize, readpointer, writepointer := 0, 0, 0;
    }

    /** Wraps an existing array (shared, not copied): all of it counts as written. */
    constructor Wrap(c: array<uint8>)
      ensures Valid() && data == c
      ensures filledsize == c.Length && writepointer == c.Length && readpointer == 0
    {
      data := c;
      filledsize, readpointer, writepointer := c.Length, 0, c.Length;
    }

    /** A copy with its own array and the same positions. */
    constructor Copy(s: ByteStream)
      requires s.Valid()
      ensures Valid() && fresh(data) && data[..] == s.data[..]
      ensures filledsize == s.filledsize && readpointer == s.readpointer && writepointer == s.writepointer
    {
      var d := new uint8[s.data.Length](_ => 0);
      var k := 0;
      while k < d.Length
        invariant 0 <= k <= d.Length
        invariant forall j :: 0 <= j < k ==> d[j] == s.data[j]
      {
        d[k] := s.data[k];
        k := k + 1;
      }
      data := d;
      filledsize, readpointer, writepointer := s.filledsize, s.readpointer, s.writepointer;
    }

    // ----- capacity -----

    method DoubleLength()
      requires Valid()
      modifies this
      ensures Valid() && fresh(data) && data.Length == 2 * old(data.Length)
      ensures ZeroExtended(old(data[..]), data[..], 0)
      ensures filledsize == old(filledsize) && readpointer == old(readpointer)
      ensures writepointer == old(writepointer)
    {
      var b2 := new uint8[data.Length * 2](_ => 0);
      var k := 0;
      while k < data.Length
        invariant 0 <= k <= data.Length
        invariant forall j :: 0 <= j < k ==> b2[j] == data[j]
        invariant forall j :: k <= j < b2.Length ==> b2[j] == 0
        modifies b2
      {
        b2[k] := data[k];
        k := k + 1;
      }
      data := b2;
    }

    /** Grows the array to newlength if that is longer; never shrinks it. */
    method ExtendToLength(newlength: int)
      requires Valid()
      modifies this
      ensures Valid() && data.Length == Max(old(data.Length), newlength)
      ensures ZeroExtended(old(data[..]), data[..], 0)
      ensures data == old(data) || fresh(data)
      ensures filledsize == old(filledsize) && readpointer == old(readpointer)
      ensures writepointer == old(writepointer)
    {
      if newlength > data.Length {
        var b2 := new uint8[newlength](_ => 0);
        var k := 0;
        while k < data.Length
          invariant 0 <= k <= data.Length
          invariant forall j :: 0 <= j < k ==> b2[j] == data[j]
          invariant forall j :: k <= j < b2.Length ==> b2[j] == 0
          modifies b2
        {
          b2[k] := data[k];
          k := k + 1;
        }
        data := b2;
      }
    }

    /** Cuts the array down to the bytes written. */
    method ClearExtraSpace()
      requires Valid()
      modifies this
      ensures Valid() && fresh(data) && data[..] == old(data[..filledsize])
      ensures filledsize == old(filledsize) && readpointer == old(readpointer)
      ensures writepointer == old(writepointer)
    {
      var b2 := new uint8[filledsize](_ => 0);
      var k := 0;
      while k < b2.Length
        invariant 0 <= k <= b2.Length
        invariant forall j :: 0 <= j < k ==> b2[j] == data[j]
        modifies b2
      {
        b2[k] := data[k];
        k := k + 1;
      }
      data := b2;
    }

    /** A fresh array holding exactly the bytes written. */
    method GetBytes() returns (b2: array<uint8>)
      requires Valid()
      ensures fresh(b2) && b2[..] == data[..filledsize]
    {
      b2 := new uint8[filledsize](_ => 0);
      var k := 0;
      while k < b2.Length
        invariant 0 <= k <= b2.Length
        invariant forall j :: 0 <= j < k ==> b2[j] == data[j]
        modifies b2
      {
        b2[k] := data[k];
        k := k + 1;
      }
    }

    /** Concatenates the written bytes of bs (which may be this stream) onto ours. */
    method Append(bs: ByteStream)
      requires Valid() && bs.Valid()
      modifies this
      ensures Valid() && fresh(data)
      ensures data[..] == old(data[..filledsize]) + old(bs.data[..bs.filledsize])
      ensures filledsize == old(filledsize) + old(bs.filledsize)
      ensures writepointer == filledsize && readpointer == old(readpointer)
    {
      var n, m := filledsize, bs.filledsize;
      var d2 := Concatenated(data, n, bs.data, m);
      data := d2;
      filledsize := n + m;
      writepointer := filledsize;
    }

    /** A new array holding the first n bytes of a followed by the first m bytes of b. */
    static method Concatenated(a: array<uint8>, n: nat, b: array<uint8>, m: nat) returns (d2: array<uint8>)
      requires n <= a.Length && m <= b.Length
      ensures fresh(d2) && d2[..] == a[..n] + b[..m]
    {
      d2 := new uint8[n + m](_ => 0);
      var k := 0;
      while k < n
        invariant 0 <= k <= n
        invariant forall j :: 0 <= j < k ==> d2[j] == a[j]
        modifies d2
      {
        d2[k] := a[k];
        k := k + 1;
      }
      k := 0;
      while k < m
        invariant 0 <= k <= m
        invariant forall j :: 0 <= j < n ==> d2[j] == a[j]
        invariant forall j :: 0 <= j < k ==> d2[n + j] == b[j]
        modifies d2
      {
        d2[k + n] := b[k];
        k := k + 1;
      }
      assert d2[..] == a[..n] + b[..m];
    }

    /** Copies the next `length` bytes into a new stream and moves past them. */
    method ReadStream(length: int) returns (s: ByteStream)
      requires Valid() && 0 <= length && readpointer + length <= data.Length
      modifies this`readpointer
      ensures Valid() && readpointer == old(readpointer) + length
      ensures fresh(s) && fresh(s.data) && s.Valid()
      ensures s.data[..] == data[old(readpointer)..old(readpointer) + length]
      ensures s.filledsize == length && s.writepointer == length && s.readpointer == 0
    {
      var data2 := new uint8[length](_ => 0);
      var k := 0;
      while k < length
        invariant 0 <= k <= length
        invariant forall j :: 0 <= j < k ==> data2[j] == data[readpointer + j]
        modifies data2
      {
        data2[k] := data[readpointer + k];
        k := k + 1;
      }
      readpointer := readpointer + length;
      s := new ByteStream.Wrap(data2);
    }

    // ----- sequential reads -----

    method ReadByte() returns (d: int8)
      requires Valid() && readpointer < data.Length
      modifies this`readpointer
      ensures d == Signed(data[old(readpointer)], 1)
      ensures readpointer == old(readpointer) + 1
    {
      PowValues();
      d := Signed(data[readpointer], 1);
      readpointer := readpointer + 1;
    }

    method ReadShort() returns (s: int16)
      requires Valid() && readpointer + 2 <= data.Length
      modifies this`readpointer
      ensures s == ShortOf(data[old(readpointer)..old(readpointer) + 2])
      ensures readpointer == old(readpointer) + 2
    {
      s := ShortOf(data[readpointer..readpointer + 2]);
      readpointer := readpointer + 2;
    }

    method ReadInt() returns (i: int32)
      requires Valid() && readpointer + 4 <= data.Length
      modifies this`readpointer
      ensures i == IntOf(data[old(readpointer)..old(readpointer) + 4])
      ensures readpointer == old(readpointer) + 4
    {
      i := IntOf(data[readpointer..readpointer + 4]);
      readpointer := readpointer + 4;
    }

    method ReadLong() returns (l: int64)
      requires Valid() && readpointer + 8 <= data.Length
      modifies this`readpointer
      ensures l == LongOf(data[old(readpointer)..old(readpointer) + 8])
      ensures readpointer == old(readpointer) + 8
    {
      l := LongOf(data[readpointer..readpointer + 8]);
      readpointer := readpointer + 8;
    }

    /** Reads an int32 length and that many 16-bit units. */
    method ReadString() returns (r: JString)
      requires Valid() && readpointer + 4 <= data.Length
      requires var d := data[..]; var n := IntOf(d[readpointer..readpointer + 4]);
        0 <= n && readpointer + 4 + 2 * n <= data.Length
      modifies this`readpointer
      ensures var p, d := old(readpointer), old(data[..]); var n := IntOf(d[p..p + 4]);
        && r == CharsOf(d[p + 4..p + 4 + 2 * n])
        && readpointer == p + 4 + 2 * n
    {
      ghost var p := readpointer;
      ghost var n := IntOf(data[p..p + 4]);
      var length := ReadInt();
      assert length == n;
      r := ReadUnits(length);
    }

    /** The char loop of readString: `length` units, each `(char) readShort()`. */
    method ReadUnits(length: int) returns (r: JString)
      requires Valid() && 0 <= length && readpointer + 2 * length <= data.Length
      modifies this`readpointer
      ensures var p, d := old(readpointer), old(data[..]);
        && r == CharsOf(d[p..p + 2 * length])
        && readpointer == p + 2 * length
    {
      ghost var p, d := readpointer, data[..];
      Even(length);
      ghost var chars := CharsOf(d[p..p + 2 * length]);
      var c: JString := [];
      var k := 0;
      while k < length
        invariant 0 <= k <= length && readpointer == p + 2 * k
        invariant c == chars[..k]
        modifies this`readpointer
      {
        CharAt(d, p, length, k);
        var s := ReadShort();
        c := c + [Unsigned(s, 2)];
        k := k + 1;
      }
      assert chars[..length] == chars;
      r := c;
    }

    // ----- sequential writes -----

    method WriteByte(b: int8)
      requires Valid() && writepointer < 2 * data.Length
      modifies this, data
      ensures Valid() && readpointer == old(readpointer)
      ensures data == old(data) || fresh(data)
      ensures data.Length == GrowTo(old(data.Length), old(writepointer))
      ensures Wrote(old(data[..]), data[..], old(writepointer), [Unsigned(b, 1)])
      ensures writepointer == old(writepointer) + 1
      ensures filledsize == Max(old(filledsize), writepointer)
    {
      if writepointer >= data.Length {
        DoubleLength();
      }
      data[writepointer] := Unsigned(b, 1);
      writepointer := writepointer + 1;
      if writepointer > filledsize {
        filledsize := writepointer;
      }
    }

    method WriteShort(s: int16)
      requires Valid() && writepointer + 1 < 2 * data.Length
      modifies this, data
      ensures Valid() && readpointer == old(readpointer)
      ensures data == old(data) || fresh(data)
      ensures data.Length == GrowTo(old(data.Length), old(writepointer) + 1)
      ensures Wrote(old(data[..]), data[..], old(writepointer), ShortBytes(s))
      ensures writepointer == old(writepointer) + 2
      ensures filledsize == Max(old(filledsize), writepointer)
    {
      if writepointer + 1 >= data.Length {
        DoubleLength();
      }
      var b := ShortBytes(s);
      data[writepointer] := b[0];
      data[writepointer + 1] := b[1];
      writepointer := writepointer + 2;
      if writepointer > filledsize {
        filledsize := writepointer;
      }
    }

    method WriteInt(i: int32)
      requires Valid() && writepointer + 3 < 2 * data.Length
      modifies this, data
      ensures Valid() && readpointer == old(readpointer)
      ensures data == old(data) || fresh(data)
      ensures data.Length == GrowTo(old(data.Length), old(writepointer) + 3)
      ensures Wrote(old(data[..]), data[..], old(writepointer), IntBytes(i))
      ensures writepointer == old(writepointer) + 4
      ensures filledsize == Max(old(filledsize), writepointer)
    {
      if writepointer + 3 >= data.Length {
        DoubleLength();
      }
      var b := IntBytes(i);
      ghost var grown := data[..];
      Store4(data, writepointer, b);
      WroteBlock(old(data[..]), grown, data[..], writepointer, b);
      writepointer := writepointer + 4;
      if writepointer > filledsize {
        filledsize := writepointer;
      }
    }

    /** The four stores of writeInt, most significant byte first. */
    static method Store4(a: array<uint8>, at: nat, b: seq<uint8>)
      requires |b| == 4 && at + 4 <= a.Length
      modifies a
      ensures forall k :: 0 <= k < 4 ==> a[at + k] == b[k]
      ensures forall k :: 0 <= k < a.Length && !(at <= k < at + 4) ==> a[k] == old(a[k])
    {
      a[at] := b[0];
      a[at + 1] := b[1];
      a[at + 2] := b[2];
      a[at + 3] := b[3];
    }

    /** The eight stores of writeLong, most significant byte first. */
    static method Store8(a: array<uint8>, at: nat, b: seq<uint8>)
      requires |b| == 8 && at + 8 <= a.Length
      modifies a
      ensures forall k :: 0 <= k < 8 ==> a[at + k] == b[k]
      ensures forall k :: 0 <= k < a.Length && !(at <= k < at + 8) ==> a[k] == old(a[k])
    {
      a[at] := b[0];
      a[at + 1] := b[1];
      a[at + 2] := b[2];
      a[at + 3] := b[3];
      a[at + 4] := b[4];
      a[at + 5] := b[5];
      a[at + 6] := b[6];
      a[at + 7] := b[7];
    }

    method WriteLong(l: int64)
      requires Valid() && writepointer + 7 < 2 * data.Length
      modifies this, data
      ensures Valid() && readpointer == old(readpointer)
      ensures data == old(data) || fresh(data)
      ensures data.Length == GrowTo(old(data.Length), old(writepointer) + 7)
      ensures Wrote(old(data[..]), data[..], old(writepointer), LongBytes(l))
      ensures writepointer == old(writepointer) + 8
      ensures filledsize == Max(old(filledsize), writepointer)
    {
      if writepointer + 7 >= data.Length {
        DoubleLength();
      }
      var b := LongBytes(l);
      var wp := writepointer;
      ghost var grown := data[..];
      Store8(data, wp, b);
      WroteBlock(old(data[..]), grown, data[..], wp, LongBytes(l));
      writepointer := writepointer + 8;
      if writepointer > filledsize {
        filledsize := writepointer;
      }
    }

    method WriteString(s: Option<JString>)
      requires Valid() && writepointer + 3 < 2 * data.Length
      requires s.Some? ==> |s.value| < 0x8000_0000
      modifies this, data
      ensures Valid() && readpointer == old(readpointer)
      ensures data == old(data) || fresh(data)
      ensures data.Length == GrowTo(old(data.Length), writepointer - 1)
      ensures Wrote(old(data[..]), data[..], old(writepointer), StringBytes(s))
      ensures writepointer == old(writepointer) + |StringBytes(s)|
      ensures filledsize == Max(old(filledsize), writepointer)
    {
      if s.None? {
        WriteInt(0);
        return;
      }
      var c := s.value;
      WriteInt(|c|);
      ghost var d1 := data[..];
      WriteUnits(c);
      WroteThenWrote(old(data[..]), d1, data[..], old(writepointer), IntBytes(|c|), CharsBytes(c));
      GrowToTwice(old(data.Length), old(writepointer) + 3, writepointer - 1);
    }

    /** The char loop of writeString: each unit written as a short. */
    method WriteUnits(c: JString)
      requires Valid() && data.Length >= 4 && writepointer + 1 < 2 * data.Length
      requires |c| < 0x8000_0000
      modifies this, data
      ensures Valid() && readpointer == old(readpointer)
      ensures data == old(data) || fresh(data)
      ensures data.Length == GrowTo(old(data.Length), writepointer - 1)
      ensures Wrote(old(data[..]), data[..], old(writepointer), CharsBytes(c))
      ensures writepointer == old(writepointer) + 2 * |c|
      ensures filledsize == Max(old(filledsize), writepointer)
    {
      ghost var d0 := data[..];
      ghost var len0 := data.Length;
      ghost var wp0 := writepointer;
      ghost var f0 := filledsize;
      var k := 0;
      while k < |c|
        invariant 0 <= k <= |c|
        invariant Valid() && data.Length >= 4 && readpointer == old(readpointer)
        invariant data == old(data) || fresh(data)
        invariant writepointer == wp0 + 2 * k
        invariant data.Length == GrowTo(len0, writepointer - 1)
        invariant Wrote(d0, data[..], wp0, CharsBytes(c[..k]))
        invariant filledsize == Max(f0, writepointer)
      {
        WriteUnit(c, k, d0, len0, wp0, f0);
        k := k + 1;
      }
      assert c[..|c|] == c;
    }

    /** One pass of the char loop: unit k written as a short after the first k. */
    method WriteUnit(c: JString, k: nat, ghost d0: seq<uint8>, ghost len0: nat, ghost wp0: int, ghost f0: int)
      requires k < |c| && len0 > 0
      requires Valid() && data.Length >= 4 && writepointer == wp0 + 2 * k
      requires data.Length == GrowTo(len0, writepointer - 1)
      requires Wrote(d0, data[..], wp0, CharsBytes(c[..k]))
      requires filledsize == Max(f0, writepointer)
      modifies this, data
      ensures Valid() && data.Length >= 4 && readpointer == old(readpointer)
      ensures data == old(data) || fresh(data)
      ensures writepointer == wp0 + 2 * (k + 1)
      ensures data.Length == GrowTo(len0, writepointer - 1)
      ensures Wrote(d0, data[..], wp0, CharsBytes(c[..k + 1]))
      ensures filledsize == Max(f0, writepointer)
    {
      ghost var d1 := data[..];
      PowValues();
      WriteShort(Signed(c[k], 2));
      WriteUnitsStep(d0, d1, data[..], wp0, len0, c, k);
    }

    // ----- reads and writes at a given position (neither position moves) -----

    function ReadByteAt(k: int): (b: int8)
      reads this, data
      requires 0 <= k < data.Length
      ensures Unsigned(b, 1) == data[k]
    {
      PowValues();
      UnsignedOfSigned(data[k], 1);
      Signed(data[k], 1)
    }

    method ReadShortAt(rp: int) returns (s: int16)
      requires 0 <= rp && rp + 2 <= data.Length
      ensures s == ShortOf(data[rp..rp + 2])
    {
      s := ShortOf(data[rp..rp + 2]);
    }

    method ReadIntAt(rp: int) returns (i: int32)
      requires 0 <= rp && rp + 4 <= data.Length
      ensures i == IntOf(data[rp..rp + 4])
    {
      i := IntOf(data[rp..rp + 4]);
    }

    /** The parameter shadows the field: only `filledsize` can move, to wp + 1. */
    method WriteByteAt(b: int8, wp: int)
      requires Valid() && 0 <= wp < 2 * data.Length
      modifies this, data
      ensures Valid() && (data == old(data) || fresh(data))
      ensures data.Length == GrowTo(old(data.Length), wp)
      ensures Wrote(old(data[..]), data[..], wp, [Unsigned(b, 1)])
      ensures readpointer == old(readpointer) && writepointer == old(writepointer)
      ensures filledsize == Max(old(filledsize), wp + 1)
    {
      if wp >= data.Length {
        DoubleLength();
      }
      data[wp] := Unsigned(b, 1);
      if wp + 1 > filledsize {
        filledsize := wp + 1;
      }
    }

    /** As written, filledsize is raised only to wp, not to wp + 2. */
    method WriteShortAt(s: int16, wp: int)
      requires Valid() && 0 <= wp && wp + 1 < 2 * data.Length
      modifies this, data
      ensures Valid() && (data == old(data) || fresh(data))
      ensures data.Length == GrowTo(old(data.Length), wp + 1)
      ensures Wrote(old(data[..]), data[..], wp, ShortBytes(s))
      ensures readpointer == old(readpointer) && writepointer == old(writepointer)
      ensures filledsize == Max(old(filledsize), wp)
    {
      if wp + 1 >= data.Length {
        DoubleLength();
      }
      var b := ShortBytes(s);
      data[wp] := b[0];
      data[wp + 1] := b[1];
      if wp > filledsize {
        filledsize := wp;
      }
    }

    method WriteIntAt(i: int32, wp: int)
      requires Valid() && 0 <= wp && wp + 3 < 2 * data.Length
      modifies this, data
      ensures Valid() && (data == old(data) || fresh(data))
      ensures data.Length == GrowTo(old(data.Length), wp + 3)
      ensures Wrote(old(data[..]), data[..], wp, IntBytes(i))
      ensures readpointer == old(readpointer) && writepointer == old(writepointer)
      ensures filledsize == Max(old(filledsize), wp + 4)
    {
      if wp + 3 >= data.Length {
        DoubleLength();
      }
      var b := IntBytes(i);
      ghost var grown := data[..];
      Store4(data, wp, b);
      WroteBlock(old(data[..]), grown, data[..], wp, b);
      if wp + 4 > filledsize {
        filledsize := wp + 4;
      }
    }
  }

  /** A fresh stream: writeString then readString gives the string back ("" for null). */
  method StringThroughStream(s: Option<JString>) returns (r: JString)
    requires s.Some? ==> |s.value| < 0x8000_0000
    ensures r == if s.None? then [] else s.value
  {
    var bs := StringStream(s);
    r := ReadWrittenString(bs, s);
  }

  /** readString on a stream whose bytes start with the string s written. */
  method ReadWrittenString(bs: ByteStream, s: Option<JString>) returns (r: JString)
    requires s.Some? ==> |s.value| < 0x8000_0000
    requires bs.Valid() && bs.readpointer == 0
    requires |StringBytes(s)| <= bs.data.Length && bs.data[..][..|StringBytes(s)|] == StringBytes(s)
    modifies bs`readpointer
    ensures r == if s.None? then [] else s.value
  {
    StringReadBack(bs.data[..], s);
    r := bs.ReadString();
  }

  /** A fresh stream with s written at its start. */
  method StringStream(s: Option<JString>) returns (bs: ByteStream)
    requires s.Some? ==> |s.value| < 0x8000_0000
    ensures fresh(bs) && bs.Valid() && bs.readpointer == 0
    ensures |StringBytes(s)| <= bs.data.Length && bs.data[..][..|StringBytes(s)|] == StringBytes(s)
  {
    bs := new ByteStream();
    bs.WriteString(s);
    assert bs.data[..][0..|StringBytes(s)|] == StringBytes(s);
  }

  /** Bytes that start with a written string: readString's reads find it. */
  lemma StringReadBack(d: seq<uint8>, s: Option<JString>)
    requires s.Some? ==> |s.value| < 0x8000_0000
    requires |StringBytes(s)| <= |d| && d[..|StringBytes(s)|] == StringBytes(s)
    ensures 4 <= |d| && 0 <= IntOf(d[0..4]) && 4 + 2 * IntOf(d[0..4]) <= |d|
    ensures (2 * IntOf(d[0..4])) % 2 == 0
    ensures CharsOf(d[4..4 + 2 * IntOf(d[0..4])]) == if s.None? then [] else s.value
  {
    var enc := StringBytes(s);
    PrefixSlices(d, enc, 4);
    Even(IntOf(d[0..4]));
    if s.None? {
      NullRoundTrip();
    } else {
      CharsStringRoundTrip(s.value);
    }
  }

  /** The two slices of a prefix `enc` of `d`, split at `at`. */
  lemma PrefixSlices(d: seq<uint8>, enc: seq<uint8>, at: nat)
    requires at <= |enc| <= |d| && d[..|enc|] == enc
    ensures d[0..at] == enc[..at] && d[at..|enc|] == enc[at..]
  {
    assert d[0..at] == d[..|enc|][..at];
    assert d[at..|enc|] == d[..|enc|][at..];
  }

  /** writeInt then readInt at the position written returns the value. */
  method IntThroughStream(bs: ByteStream, i: int32) returns (r: int32)
    requires bs.Valid() && bs.writepointer + 3 < 2 * bs.data.Length
    modifies bs, bs.data
    ensures r == i
  {
    var at := bs.writepointer;
    bs.WriteInt(i);
    IntRoundTrip(i);
    r := bs.ReadIntAt(at);
  }
}
