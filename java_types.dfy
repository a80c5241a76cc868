/**
 * Java primitive ranges, two's-complement wrap-around and the exception
 * outcomes shared by the rest of the model.
 */
module JavaTypes {


  /** Java `byte`: signed 8-bit. */
  type byte = x: int | -128 <= x < 128
  /** Java `int`: signed 32-bit. */
  type int32 = x: int | -0x8000_0000 <= x < 0x8000_0000
  /** Java `long`: signed 64-bit. */
  type int64 = x: int | -0x8000_0000_0000_0000 <= x < 0x8000_0000_0000_0000

  const INT_MAX: int32 := 0x7fff_ffff
  const INT_MIN: int32 := -0x8000_0000

  /** The exceptions the modelled code raises, one constructor per class. */
  datatype Exception =
    | IllegalArgument
    | IndexOutOfBounds
    | NegativeArraySize
    | NoSuchElement
    | DataStore
    | UpdatingOlderVersion
    | IllegalState
    | OperationFailed
    | AssertionFailed

  datatype Option<+T> = None | Some(value: T)

  /** A value or the exception thrown instead of returning it. */
  datatype Result<+T> = Ok(value: T) | Err(error: Exception) {
    predicate IsFailure() { Err? }
    function PropagateFailure<U>(): Result<U>
      requires Err?
    {
      Err(error)
    }
    function Extract(): T
      requires Ok?
    {
      value
    }
  }

  /** Java `int` arithmetic result of the mathematical value `x`. */
  function Wrap32(x: int): (r: int32)
  {
    var u := x % 0x1_0000_0000;
    if u >= 0x8000_0000 then u - 0x1_0000_0000 else u
  }

  /** Java `long` arithmetic result of the mathematical value `x`. */
  function Wrap64(x: int): (r: int64)
  {
    var u := x % 0x1_0000_0000_0000_0000;
    if u >= 0x8000_0000_0000_0000 then u - 0x1_0000_0000_0000_0000 else u
  }

  /** Java `(byte)` cast of an int value. */
  function ToByte(x: int): (r: byte)
  {
    var u := x % 256;
    if u >= 128 then u - 256 else u
  }

  /** `b & 0xff`: the unsigned value of a byte. */
  function Unsigned8(b: byte): (r: int)
    ensures 0 <= r < 256 && ToByte(r) == b
  {
    if b < 0 then b + 256 else b
  }

  /** The unsigned reading of the bit pattern of an int (as `>>>` sees it). */
  function Unsigned32(n: int32): (r: nat)
    ensures r < 0x1_0000_0000 && Wrap32(r) == n
  {
    if n < 0 then n + 0x1_0000_0000 else n
  }

  /** The unsigned reading of the bit pattern of a long. */
  function Unsigned64(n: int64): (r: nat)
    ensures r < 0x1_0000_0000_0000_0000 && Wrap64(r) == n
  {
    if n < 0 then n + 0x1_0000_0000_0000_0000 else n
  }

  /** A value already in `int` range is its own wrap. */
  lemma Wrap32Identity(x: int)
    requires -0x8000_0000 <= x < 0x8000_0000
    ensures Wrap32(x) == x
  {
  }

  /** How many multiples of 2^32 wrapping removes from `x`. */
  function Quot32(x: int): int
  {
    if x % 0x1_0000_0000 >= 0x8000_0000 then x / 0x1_0000_0000 + 1 else x / 0x1_0000_0000
  }

  /** Wrapping subtracts a whole multiple of 2^32. */
  lemma Wrap32Repr(x: int)
    ensures Wrap32(x) == x - 0x1_0000_0000 * Quot32(x)
  {
    assert x == 0x1_0000_0000 * (x / 0x1_0000_0000) + x % 0x1_0000_0000;
  }

  /** Adding a whole multiple of 2^32 does not change the wrap. */
  lemma Wrap32Shift(x: int, k: int)
    ensures Wrap32(x + 0x1_0000_0000 * k) == Wrap32(x)
  {
    var y := x + 0x1_0000_0000 * k;
    assert y == 0x1_0000_0000 * (x / 0x1_0000_0000 + k) + x % 0x1_0000_0000;
    assert y % 0x1_0000_0000 == x % 0x1_0000_0000;
  }

  /** Wrapping an intermediate sum does not change the wrapped total. */
  lemma Wrap32Add(a: int, b: int)
    ensures Wrap32(Wrap32(a) + b) == Wrap32(a + b)
  {
    Wrap32Repr(a);
    Wrap32Shift(a + b, -Quot32(a));
  }

  /** Wrapping before multiplying by 31 does not change the wrapped product. */
  lemma Wrap32Times31(a: int)
    ensures Wrap32(31 * Wrap32(a)) == Wrap32(31 * a)
  {
    Wrap32Repr(a);
    Wrap32Shift(31 * a, -31 * Quot32(a));
  }

  /** Wrapping the running hash before a `result += 31 * result + x` step changes nothing. */
  lemma Wrap32Combine(a: int, b: int)
    ensures Wrap32(32 * Wrap32(a) + b) == Wrap32(32 * a + b)
  {
    Wrap32Repr(a);
    Wrap32Shift(32 * a + b, -32 * Quot32(a));
  }

  /** How many multiples of 2^64 wrapping removes from `x`. */
  function Quot64(x: int): int
  {
    if x % 0x1_0000_0000_0000_0000 >= 0x8000_0000_0000_0000 then x / 0x1_0000_0000_0000_0000 + 1
    else x / 0x1_0000_0000_0000_0000
  }

  /** Wrapping a `long` subtracts a whole multiple of 2^64. */
  lemma Wrap64Repr(x: int)
    ensures Wrap64(x) == x - 0x1_0000_0000_0000_0000 * Quot64(x)
  {
    assert x == 0x1_0000_0000_0000_0000 * (x / 0x1_0000_0000_0000_0000) + x % 0x1_0000_0000_0000_0000;
  }

  /** Adding a whole multiple of 2^64 does not change the `long` wrap. */
  lemma Wrap64Shift(x: int, k: int)
    ensures Wrap64(x + 0x1_0000_0000_0000_0000 * k) == Wrap64(x)
  {
    var y := x + 0x1_0000_0000_0000_0000 * k;
    assert y == 0x1_0000_0000_0000_0000 * (x / 0x1_0000_0000_0000_0000 + k) + x % 0x1_0000_0000_0000_0000;
    assert y % 0x1_0000_0000_0000_0000 == x % 0x1_0000_0000_0000_0000;
  }

  /** Wrapping an intermediate `long` sum does not change the wrapped total. */
  lemma Wrap64Add(a: int, b: int)
    ensures Wrap64(Wrap64(a) + b) == Wrap64(a + b)
  {
    Wrap64Repr(a);
    Wrap64Shift(a + b, -Quot64(a));
  }

  /** The unsigned reading of the wrap of `x` is `x` modulo 2^32. */
  lemma Unsigned32OfWrap(x: int)
    ensures Unsigned32(Wrap32(x)) == x % 0x1_0000_0000
  {
  }

  /** The unsigned reading of the wrap of `x` is `x` modulo 2^64. */
  lemma Unsigned64OfWrap(x: int)
    ensures Unsigned64(Wrap64(x)) == x % 0x1_0000_0000_0000_0000
  {
  }

  // ---------------------------------------------------------------------
  // hash codes

  /**
   * The `h = 31 * h + x` fold of `Arrays.hashCode` and `String.hashCode`,
   * in `int` arithmetic, from `seed` over `s`.
   */
  function HashFold(seed: int32, s: seq<int>): (h: int32)
  {
    if s == [] then seed else Wrap32(31 * HashFold(seed, s[..|s| - 1]) + s[|s| - 1])
  }

  /** The exact polynomial `seed * 31^n + s[0] * 31^(n-1) + ... + s[n-1]`. */
  function HashPolynomial(seed: int, s: seq<int>): int
  {
    if s == [] then seed else 31 * HashPolynomial(seed, s[..|s| - 1]) + s[|s| - 1]
  }

  /** The `int` fold is the exact polynomial reduced to 32 bits. */
  lemma {:induction false} HashFoldIsPolynomial(seed: int32, s: seq<int>)
    ensures HashFold(seed, s) == Wrap32(HashPolynomial(seed, s))
  {
    if s == [] {
      Wrap32Identity(seed);
    } else {
      var p := s[..|s| - 1];
      HashFoldIsPolynomial(seed, p);
      var exact := HashPolynomial(seed, p);
      Wrap32Times31(exact);
      Wrap32Add(31 * Wrap32(exact), s[|s| - 1]);
      Wrap32Add(31 * exact, s[|s| - 1]);
    }
  }

  /** `Arrays.hashCode(byte[])`: the fold from 1 over the signed byte values. */
  function BytesHash(a: seq<byte>): int32
  {
    HashFold(1, a)
  }

  /**
   * `String.hashCode()`: the fold from 0 over the characters. Java folds over
   * UTF-16 code units; a Dafny `char` is one Unicode scalar value, so the two
   * agree only for strings inside the Basic Multilingual Plane.
   */
  function StringHash(s: seq<char>): int32
  {
    HashFold(0, seq(|s|, i requires 0 <= i < |s| => s[i] as int))
  }

  /** One step of `result += 31 * result + x` in `int` arithmetic. */
  function Combine(result: int32, x: int32): (r: int32)
    ensures r == Wrap32(32 * result + x)
  {
    Wrap32(result + 31 * result + x)
  }

  /** `Long.hashCode(v)`: `(int) (v ^ (v >>> 32))`, the low word xor the high word. */
  function LongHash(v: int64): (h: int32)
  {
    var u := Unsigned64(v);
    var low := (u % 0x1_0000_0000) as bv32;
    var high := (u / 0x1_0000_0000) as bv32;
    Wrap32((low ^ high) as int)
  }
}
