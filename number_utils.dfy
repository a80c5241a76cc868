/**
 * Big-endian conversion between Java `int`/`long` values and byte arrays
 * (ru.selena.util.NumberUtils).
 */
module NumberUtils {
  import opened JavaTypes

  const INT_BYTE_SIZE: nat := 4
  const LONG_BYTE_SIZE: nat := 8

  function Pow2(n: nat): (r: nat)
    ensures r >= 1
  {
    if n == 0 then 1 else 2 * Pow2(n - 1)
  }

  lemma {:induction false} Pow2Add(a: nat, b: nat)
    ensures Pow2(a + b) == Pow2(a) * Pow2(b)
  {
    if b > 0 {
      Pow2Add(a, b - 1);
      assert Pow2(a + b) == 2 * Pow2(a + b - 1);
    }
  }

  /** The unsigned value of `s` read most significant byte first. */
  function BigEndian(s: seq<byte>): (r: nat)
  {
    if s == [] then 0 else BigEndian(s[..|s| - 1]) * 256 + Unsigned8(s[|s| - 1])
  }

  /** The `width` low-order bytes of `x`, most significant first. */
  function EncodeBigEndian(x: nat, width: nat): (r: seq<byte>)
    ensures |r| == width
  {
    if width == 0 then [] else EncodeBigEndian(x / 256, width - 1) + [ToByte(x % 256)]
  }

  /** The big-endian reading of `s` fits in `|s|` bytes. */
  lemma {:induction false} BigEndianBound(s: seq<byte>)
    ensures BigEndian(s) < Pow2(8 * |s|)
  {
    if s != [] {
      var p := s[..|s| - 1];
      BigEndianBound(p);
      Pow2Add(8 * |p|, 8);
      Pow2Table();
      assert Pow2(8 * |s|) == Pow2(8 * |p|) * 256;
    }
  }

  /** Prepending a byte adds it at the top position. */
  lemma {:induction false} BigEndianCons(x: byte, t: seq<byte>)
    ensures BigEndian([x] + t) == Unsigned8(x) * Pow2(8 * |t|) + BigEndian(t)
  {
    if t == [] {
      assert [x] + t == [x];
      assert ([x] + t)[..0] == [];
    } else {
      var p := t[..|t| - 1];
      var last := t[|t| - 1];
      assert ([x] + t)[..|t|] == [x] + p;
      assert ([x] + t)[|t|] == last;
      BigEndianCons(x, p);
      Pow2Add(8 * |p|, 8);
      Pow2Table();
      var u := Unsigned8(x);
      var pp := Pow2(8 * |p|);
      var b := BigEndian(p);
      assert BigEndian([x] + t) == BigEndian([x] + p) * 256 + Unsigned8(last);
      assert BigEndian([x] + p) == u * pp + b;
      Distribute(u, pp, b, Unsigned8(last));
      assert Pow2(8 * |t|) == pp * 256;
    }
  }

  lemma Distribute(u: int, pp: int, b: int, l: int)
    ensures (u * pp + b) * 256 + l == u * (pp * 256) + (b * 256 + l)
  {
  }

  /** The powers of two at whole-byte shifts. */
  lemma Pow2Table()
    ensures Pow2(8) == 0x100 && Pow2(16) == 0x1_0000 && Pow2(24) == 0x100_0000
    ensures Pow2(32) == 0x1_0000_0000 && Pow2(40) == 0x100_0000_0000
    ensures Pow2(48) == 0x1_0000_0000_0000 && Pow2(56) == 0x100_0000_0000_0000
    ensures Pow2(64) == 0x1_0000_0000_0000_0000
  {
    assert Pow2(0) == 1;
    assert Pow2(1) == 2;
    assert Pow2(2) == 4;
    assert Pow2(3) == 8;
    assert Pow2(4) == 16;
    assert Pow2(5) == 32;
    assert Pow2(6) == 64;
    assert Pow2(7) == 128;
    assert Pow2(8) == 256;
    Pow2Add(8, 8);
    Pow2Add(16, 8);
    Pow2Add(24, 8);
    Pow2Add(32, 8);
    Pow2Add(40, 8);
    Pow2Add(48, 8);
    Pow2Add(56, 8);
  }

  /** Decoding an encoding gives back any value that fits in the width. */
  lemma {:induction false} DecodeEncode(x: nat, width: nat)
    requires x < Pow2(8 * width)
    ensures |EncodeBigEndian(x, width)| == width
    ensures BigEndian(EncodeBigEndian(x, width)) == x
  {
    if width > 0 {
      assert x / 256 < Pow2(8 * (width - 1)) by {
        Pow2Add(8 * (width - 1), 8);
        Pow2Table();
      }
      DecodeEncode(x / 256, width - 1);
      var e := EncodeBigEndian(x, width);
      assert e[..|e| - 1] == EncodeBigEndian(x / 256, width - 1);
      assert e[|e| - 1] == ToByte(x % 256);
      UnsignedToByte(x % 256);
      assert BigEndian(e) == (x / 256) * 256 + x % 256;
    }
  }

  lemma UnsignedToByte(u: int)
    requires 0 <= u < 256
    ensures Unsigned8(ToByte(u)) == u
  {
  }

  /** Encoding the reading of `s` at its own width gives back `s`. */
  lemma {:induction false} EncodeDecode(s: seq<byte>)
    ensures EncodeBigEndian(BigEndian(s), |s|) == s
  {
    if s != [] {
      var p := s[..|s| - 1];
      EncodeDecode(p);
      var v := BigEndian(s);
      assert v / 256 == BigEndian(p);
      assert v % 256 == Unsigned8(s[|s| - 1]);
      assert s == p + [s[|s| - 1]];
    }
  }

  /** A quotient and remainder pinned down by their bounds are the division's. */
  lemma DivUnique(x: int, d: int, q: int, r: int)
    requires d > 0 && 0 <= r < d && x == d * q + r
    ensures x / d == q
  {
    var q', r' := x / d, x % d;
    assert d * (q - q') == r' - r;
    if q - q' >= 1 {
      assert false;
    } else if q - q' <= -1 {
      assert false;
    }
  }

  /** Dividing twice is dividing by the product. */
  lemma DivDiv(x: nat, a: int, b: int)
    requires a > 0 && b > 0
    ensures x / a / b == x / (a * b)
  {
    var q, r := x / a, x % a;
    var q2, r2 := q / b, q % b;
    Regroup(a, b, q2, r2, r);
    assert x == (a * b) * q2 + (a * r2 + r);
    MulBelow(a, b, r2, r);
    DivUnique(x, a * b, q2, a * r2 + r);
  }

  lemma Regroup(a: int, b: int, q2: int, r2: int, r: int)
    ensures a * (b * q2 + r2) + r == (a * b) * q2 + (a * r2 + r)
  {
  }

  lemma MulBelow(a: int, b: int, r2: int, r: int)
    requires a > 0 && 0 <= r2 < b && 0 <= r < a
    ensures 0 <= a * r2 + r < a * b
  {
    assert a * r2 <= a * (b - 1);
    assert a * (b - 1) == a * b - a;
  }

  /** Byte `pos` of a `width`-byte encoding holds bits `8*(width-1-pos)` and up. */
  lemma {:induction false} EncodeByteAt(x: nat, width: nat, pos: nat)
    requires pos < width
    ensures EncodeBigEndian(x, width)[pos] == ToByte(x / Pow2(8 * (width - 1 - pos)) % 256)
  {
    var e := EncodeBigEndian(x, width);
    assert e == EncodeBigEndian(x / 256, width - 1) + [ToByte(x % 256)];
    if pos < width - 1 {
      var k := 8 * (width - 2 - pos);
      EncodeByteAt(x / 256, width - 1, pos);
      Pow2Add(k, 8);
      Pow2Table();
      DivDiv(x, 256, Pow2(k));
      assert Pow2(8 * (width - 1 - pos)) == 256 * Pow2(k);
    }
  }

  // ---------------------------------------------------------------------
  // int

  /** `toByteArray(int)`: the four bytes of the two's-complement pattern. */
  function IntToBytes(n: int32): (r: seq<byte>)
    ensures |r| == 4
  {
    EncodeBigEndian(Unsigned32(n), INT_BYTE_SIZE)
  }

  /**
   * `toInt(bytes, offset)`: the length check of the source (computed in
   * `int` arithmetic), then the index failure a negative or overflowing
   * offset meets inside the loop, then the value of the four bytes.
   */
  function IntAt(bytes: seq<byte>, offset: int32): (r: Result<int32>)
  {
    if !(Wrap32(offset + INT_BYTE_SIZE - 1) < |bytes|) then Err(IllegalArgument)
    else if offset < 0 || offset + 3 > INT_MAX then Err(IndexOutOfBounds)
    else Ok(Wrap32(BigEndian(bytes[offset..offset + 4])))
  }

  /**
   * At an offset whose arithmetic does not overflow, `toInt` succeeds
   * exactly when four bytes follow it, and otherwise throws
   * IllegalArgumentException.
   */
  lemma IntAtTooShort(bytes: seq<byte>, offset: int32)
    requires 0 <= offset <= INT_MAX - 3
    ensures IntAt(bytes, offset).Ok? <==> offset + 4 <= |bytes|
    ensures IntAt(bytes, offset).Err? ==> IntAt(bytes, offset).error == IllegalArgument
    ensures offset + 4 <= |bytes| ==> IntAt(bytes, offset) == Ok(Wrap32(BigEndian(bytes[offset..offset + 4])))
  {
  }

  /** Byte `i` of `s` sits above the bytes after it. */
  lemma ConsAt(s: seq<byte>, i: nat)
    requires i < |s|
    ensures BigEndian(s[i..]) == Unsigned8(s[i]) * Pow2(8 * (|s| - 1 - i)) + BigEndian(s[i + 1..])
  {
    var t := s[i + 1..];
    assert s[i..] == [s[i]] + t;
    BigEndianCons(s[i], t);
  }

  /** One step of the accumulating loop of `toInt`: adding byte `i` at its place extends the suffix read so far. */
  lemma AccumulateStep32(s: seq<byte>, i: nat, result: int, b: byte, shift: nat)
    requires i < |s| && b == s[i] && shift == 8 * (|s| - 1 - i)
    requires result == Wrap32(BigEndian(s[i + 1..]))
    ensures Wrap32(result + Wrap32(ShiftLeft(Unsigned8(b), shift))) == Wrap32(BigEndian(s[i..]))
  {
    ShiftedConsAt(s, i, b, shift);
    Wrap32Step(result, BigEndian(s[i + 1..]), ShiftLeft(Unsigned8(b), shift), BigEndian(s[i..]));
  }

  /** `v << n` before any truncation to the width of the type: `v` doubled `n` times. */
  function ShiftLeft(v: int, n: nat): int
  {
    if n == 0 then v else 2 * ShiftLeft(v, n - 1)
  }

  lemma {:induction false} ShiftLeftIsProduct(v: int, n: nat)
    ensures ShiftLeft(v, n) == v * Pow2(n)
  {
    if n > 0 {
      ShiftLeftIsProduct(v, n - 1);
    }
  }

  /** Byte `i` of `s`, shifted left to its place, sits above the bytes after it. */
  lemma ShiftedConsAt(s: seq<byte>, i: nat, b: byte, shift: nat)
    requires i < |s| && b == s[i] && shift == 8 * (|s| - 1 - i)
    ensures BigEndian(s[i..]) == ShiftLeft(Unsigned8(b), shift) + BigEndian(s[i + 1..])
  {
    ShiftLeftIsProduct(Unsigned8(b), shift);
    ConsAt(s, i);
  }

  /** `toInt(bytes, offset)` depends only on `bytes[offset..offset+4)`. */
  lemma IntAtLocal(bytes: seq<byte>, offset: int32)
    requires 0 <= offset <= INT_MAX - 3 && offset + 4 <= |bytes|
    ensures IntAt(bytes, offset) == IntAt(bytes[offset..offset + 4], 0)
  {
    assert bytes[offset..offset + 4][0..4] == bytes[offset..offset + 4];
  }

  /** Round trip: `toInt(toByteArray(n)) == n`, and the encoding has 4 bytes. */
  lemma IntRoundTrip(n: int32)
    ensures |IntToBytes(n)| == 4
    ensures IntAt(IntToBytes(n), 0) == Ok(n)
  {
    Pow2Table();
    DecodeEncode(Unsigned32(n), 4);
    assert IntToBytes(n)[0..4] == IntToBytes(n);
  }

  /** Round trip the other way: any four bytes are the encoding of their value. */
  lemma BytesRoundTrip(s: seq<byte>)
    requires |s| == 4
    ensures IntAt(s, 0).Ok? && IntToBytes(IntAt(s, 0).value) == s
  {
    var v := BigEndian(s);
    assert v < 0x1_0000_0000 by { Pow2Table(); BigEndianBound(s); }
    assert s[0..4] == s;
    assert IntAt(s, 0) == Ok(Wrap32(v));
    assert Unsigned32(Wrap32(v)) == v by { Unsigned32OfWrap(v); }
    EncodeDecode(s);
  }

  /** Byte `pos` of the encoding of `n` is `(byte)(n >>> (24 - 8*pos) & 0xff)`. */
  lemma IntByteAt(n: int32, pos: nat)
    requires pos < 4
    ensures |IntToBytes(n)| == 4
    ensures IntToBytes(n)[pos] == ToByte((Unsigned32(n) / Pow2(24 - 8 * pos)) % 256)
  {
    EncodeByteAt(Unsigned32(n), 4, pos);
  }

  /** Adding a wrapped term to a wrapped sum is the wrap of the exact sum. */
  lemma Wrap32Step(result: int, low: int, term: int, whole: int)
    requires result == Wrap32(low) && whole == term + low
    ensures Wrap32(result + Wrap32(term)) == Wrap32(whole)
  {
    Wrap32Add(low, Wrap32(term));
    Wrap32Add(term, low);
  }

  /** `toInt(bytes, offset)`: the counted loop of the source. */
  method ToInt(bytes: array<byte>, offset: int32) returns (r: Result<int32>)
    ensures r == IntAt(bytes[..], offset)
  {
    if !(Wrap32(offset + INT_BYTE_SIZE - 1) < bytes.Length) {
      return Err(IllegalArgument);
    }
    if offset < 0 || offset + 3 > INT_MAX {
      return Err(IndexOutOfBounds);
    }
    Wrap32Identity(offset + 3);
    ghost var s := bytes[offset..offset + 4];
    var result: int32 := 0;
    var i: int := INT_BYTE_SIZE - 1;
    var shift: nat := 0;
    while i >= 0
      invariant -1 <= i <= 3 && shift == 8 * (3 - i)
      invariant result == Wrap32(BigEndian(s[i + 1..]))
    {
      AccumulateStep32(s, i, result, bytes[offset + i], shift);
      result := Wrap32(result + Wrap32(ShiftLeft(Unsigned8(bytes[offset + i]), shift)));
      i := i - 1;
      shift := shift + 8;
    }
    assert s[0..] == s;
    IntAtTooShort(bytes[..], offset);
    r := Ok(result);
  }

  /** `toInt(bytes)`: the value of the first four bytes. */
  method ToIntFirst(bytes: array<byte>) returns (r: Result<int32>)
    ensures r == IntAt(bytes[..], 0)
    ensures bytes.Length >= 4 ==> r.Ok?
    ensures bytes.Length < 4 ==> r == Err(IllegalArgument)
  {
    r := ToInt(bytes, 0);
  }

  /**
   * `toByteArray(number, buffer, offset)`: writes the 4 bytes of
   * `number` from `offset` on, most significant first. An index outside the
   * buffer throws at the first byte that does not fit, after the bytes
   * before it have been written.
   */
  method WriteInt(number: int32, buffer: array<byte>, offset: int32) returns (r: Result<()>)
    modifies buffer
    ensures r.Ok? <==> 0 <= offset && offset + 4 <= buffer.Length
    ensures r.Err? ==> r.error == IndexOutOfBounds
    ensures forall j :: 0 <= j < buffer.Length ==>
      buffer[j] == if 0 <= offset <= j < offset + 4 then IntToBytes(number)[j - offset] else old(buffer[j])
  {
    var pos := 0;
    var shift := 24;
    while pos < INT_BYTE_SIZE
      invariant 0 <= pos <= 4 && shift == 24 - 8 * pos
      invariant pos > 0 ==> 0 <= offset && offset + pos <= buffer.Length
      invariant forall j :: 0 <= j < buffer.Length ==>
        buffer[j] == if 0 <= offset <= j < offset + pos then IntToBytes(number)[j - offset] else old(buffer[j])
    {
      if !(0 <= offset + pos < buffer.Length) {
        return Err(IndexOutOfBounds);
      }
      var b := ToByte((Unsigned32(number) / Pow2(shift)) % 256);
      assert b == IntToBytes(number)[pos] by {
        IntByteAt(number, pos);
      }
      buffer[offset + pos] := b;
      pos := pos + 1;
      shift := shift - 8;
    }
    return Ok(());
  }

  /** `toByteArray(number)`: a fresh 4-byte array. */
  method IntToByteArray(number: int32) returns (buffer: array<byte>)
    ensures fresh(buffer)
    ensures buffer[..] == IntToBytes(number)
  {
    buffer := new byte[INT_BYTE_SIZE];
    var written := WriteInt(number, buffer, 0);
    assert buffer[..] == IntToBytes(number);
  }

  // ---------------------------------------------------------------------
  // long

  /** `toByteArray(long)`: the eight bytes of the two's-complement pattern. */
  function LongToBytes(n: int64): (r: seq<byte>)
    ensures |r| == 8
  {
    EncodeBigEndian(Unsigned64(n), LONG_BYTE_SIZE)
  }

  /** One step of the accumulating loop of `toLong`: adding byte `i` at its place extends the suffix read so far. */
  lemma AccumulateStep64(s: seq<byte>, i: nat, result: int, b: byte, shift: nat)
    requires i < |s| && b == s[i] && shift == 8 * (|s| - 1 - i)
    requires result == Wrap64(BigEndian(s[i + 1..]))
    ensures Wrap64(result + Wrap64(ShiftLeft(Unsigned8(b), shift))) == Wrap64(BigEndian(s[i..]))
  {
    ShiftedConsAt(s, i, b, shift);
    Wrap64Step(result, BigEndian(s[i + 1..]), ShiftLeft(Unsigned8(b), shift), BigEndian(s[i..]));
  }

  /** `toLong(bytes, offset)`: as `IntAt`, with eight bytes. */
  function LongAt(bytes: seq<byte>, offset: int32): (r: Result<int64>)
  {
    if !(Wrap32(offset + 7) < |bytes|) then Err(IllegalArgument)
    else if offset < 0 || offset + 7 > INT_MAX then Err(IndexOutOfBounds)
    else Ok(Wrap64(BigEndian(bytes[offset..offset + 8])))
  }

  /**
   * At an offset whose arithmetic does not overflow, `toLong` succeeds
   * exactly when eight bytes follow it, and otherwise throws
   * IllegalArgumentException.
   */
  lemma LongAtTooShort(bytes: seq<byte>, offset: int32)
    requires 0 <= offset <= INT_MAX - 7
    ensures LongAt(bytes, offset).Ok? <==> offset + 8 <= |bytes|
    ensures LongAt(bytes, offset).Err? ==> LongAt(bytes, offset).error == IllegalArgument
    ensures offset + 8 <= |bytes| ==> LongAt(bytes, offset) == Ok(Wrap64(BigEndian(bytes[offset..offset + 8])))
  {
  }

  /** Round trip: `toLong(toByteArray(n)) == n`, and the encoding has 8 bytes. */
  lemma LongRoundTrip(n: int64)
    ensures |LongToBytes(n)| == 8
    ensures LongAt(LongToBytes(n), 0) == Ok(n)
  {
    Pow2Table();
    DecodeEncode(Unsigned64(n), 8);
    assert LongToBytes(n)[0..8] == LongToBytes(n);
  }

  /** Round trip the other way: any eight bytes are the encoding of their value. */
  lemma LongBytesRoundTrip(s: seq<byte>)
    requires |s| == 8
    ensures LongAt(s, 0).Ok? && LongToBytes(LongAt(s, 0).value) == s
  {
    var v := BigEndian(s);
    assert v < 0x1_0000_0000_0000_0000 by { Pow2Table(); BigEndianBound(s); }
    assert s[0..8] == s;
    assert LongAt(s, 0) == Ok(Wrap64(v));
    assert Unsigned64(Wrap64(v)) == v by { Unsigned64OfWrap(v); }
    EncodeDecode(s);
  }

  /** Byte `pos` of the encoding of `n` is `(byte)(n >>> (56 - 8*pos) & 0xff)`. */
  lemma LongByteAt(n: int64, pos: nat)
    requires pos < 8
    ensures |LongToBytes(n)| == 8
    ensures LongToBytes(n)[pos] == ToByte((Unsigned64(n) / Pow2(56 - 8 * pos)) % 256)
  {
    EncodeByteAt(Unsigned64(n), 8, pos);
  }

  /** Adding a wrapped term to a wrapped sum is the wrap of the exact sum. */
  lemma Wrap64Step(result: int, low: int, term: int, whole: int)
    requires result == Wrap64(low) && whole == term + low
    ensures Wrap64(result + Wrap64(term)) == Wrap64(whole)
  {
    Wrap64Add(low, Wrap64(term));
    Wrap64Add(term, low);
  }

  /** `toLong(bytes, offset)`: the counted loop of the source. */
  method ToLong(bytes: array<byte>, offset: int32) returns (r: Result<int64>)
    ensures r == LongAt(bytes[..], offset)
  {
    if !(Wrap32(offset + 7) < bytes.Length) {
      return Err(IllegalArgument);
    }
    if offset < 0 || offset + 7 > INT_MAX {
      return Err(IndexOutOfBounds);
    }
    Wrap32Identity(offset + 7);
    ghost var s := bytes[offset..offset + 8];
    var result: int64 := 0;
    var i: int := LONG_BYTE_SIZE - 1;
    var shift: nat := 0;
    while i >= 0
      invariant -1 <= i <= 7 && shift == 8 * (7 - i)
      invariant result == Wrap64(BigEndian(s[i + 1..]))
    {
      AccumulateStep64(s, i, result, bytes[offset + i], shift);
      result := Wrap64(result + Wrap64(ShiftLeft(Unsigned8(bytes[offset + i]), shift)));
      i := i - 1;
      shift := shift + 8;
    }
    assert s[0..] == s;
    LongAtTooShort(bytes[..], offset);
    r := Ok(result);
  }

  /**
   * `toByteArray(number, buffer, offset)` for `long`: writes the 8 bytes of
   * `number` from `offset` on, most significant first. An index outside the
   * buffer throws at the first byte that does not fit, after the bytes
   * before it have been written.
   */
  method WriteLong(number: int64, buffer: array<byte>, offset: int32) returns (r: Result<()>)
    modifies buffer
    ensures r.Ok? <==> 0 <= offset && offset + 8 <= buffer.Length
    ensures r.Err? ==> r.error == IndexOutOfBounds
    ensures forall j :: 0 <= j < buffer.Length ==>
      buffer[j] == if 0 <= offset <= j < offset + 8 then LongToBytes(number)[j - offset] else old(buffer[j])
  {
    var pos := 0;
    var shift := 56;
    while pos < LONG_BYTE_SIZE
      invariant 0 <= pos <= 8 && shift == 56 - 8 * pos
      invariant pos > 0 ==> 0 <= offset && offset + pos <= buffer.Length
      invariant forall j :: 0 <= j < buffer.Length ==>
        buffer[j] == if 0 <= offset <= j < offset + pos then LongToBytes(number)[j - offset] else old(buffer[j])
    {
      if !(0 <= offset + pos < buffer.Length) {
        return Err(IndexOutOfBounds);
      }
      var b := ToByte((Unsigned64(number) / Pow2(shift)) % 256);
      assert b == LongToBytes(number)[pos] by {
        LongByteAt(number, pos);
      }
      buffer[offset + pos] := b;
      pos := pos + 1;
      shift := shift - 8;
    }
    return Ok(());
  }

  /** `toByteArray(long)`: a fresh 8-byte array. */
  method LongToByteArray(number: int64) returns (buffer: array<byte>)
    ensures fresh(buffer)
    ensures buffer[..] == LongToBytes(number)
  {
    buffer := new byte[LONG_BYTE_SIZE];
    var written := WriteLong(number, buffer, 0);
    assert buffer[..] == LongToBytes(number);
  }
}
