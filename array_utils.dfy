/**
 * Hexadecimal text of byte arrays and back (ru.selena.util.collections.ArrayUtils).
 */
module ArrayUtils {
  import opened JavaTypes

  const HEXADECIMAL_DIGITS: seq<char> := "0123456789abcdef"

  /** The lower-case digit of a value below sixteen. */
  function HexDigit(v: nat): (c: char)
    requires v < 16
  {
    HEXADECIMAL_DIGITS[v]
  }

  /** `Character.digit(c, 16)` on ASCII: the value of a hex digit of either case, else -1. */
  function Digit(c: char): (d: int)
    ensures -1 <= d < 16
    ensures d == -1 <==> !IsHexChar(c)
  {
    if '0' <= c <= '9' then c as int - '0' as int
    else if 'a' <= c <= 'f' then c as int - 'a' as int + 10
    else if 'A' <= c <= 'F' then c as int - 'A' as int + 10
    else -1
  }

  predicate IsHexChar(c: char)
  {
    '0' <= c <= '9' || 'a' <= c <= 'f' || 'A' <= c <= 'F'
  }

  /** Upper-case hex letters folded to lower case, anything else kept. */
  function LowerHex(c: char): char
  {
    if 'A' <= c <= 'F' then (c as int - 'A' as int + 'a' as int) as char else c
  }

  /** `toHexString(a)`: two lower-case digits per byte, high nibble first. */
  function ToHex(a: seq<byte>): (s: seq<char>)
  {
    seq(2 * |a|, k requires 0 <= k < 2 * |a| =>
      if k % 2 == 0 then HexDigit(Unsigned8(a[k / 2]) / 16) else HexDigit(Unsigned8(a[k / 2]) % 16))
  }

  /**
   * `toByteArray(hexadecimalString)`: an odd length is refused; every pair of
   * characters becomes `(byte)((digit(hi) << 4) + digit(lo))`, with -1 for a
   * character that is not a hex digit.
   */
  function FromHex(s: seq<char>): (r: Result<seq<byte>>)
    ensures r.Err? <==> |s| % 2 != 0
    ensures r.Err? ==> r.error == IllegalArgument
    ensures r.Ok? ==> |r.value| == |s| / 2
  {
    if |s| % 2 != 0 then Err(IllegalArgument)
    else Ok(seq(|s| / 2, i requires 0 <= i < |s| / 2 => ToByte(Digit(s[2 * i]) * 16 + Digit(s[2 * i + 1]))))
  }

  /** Every hex digit written reads back as its value. */
  lemma DigitOfHexDigit(v: nat)
    requires v < 16
    ensures Digit(HexDigit(v)) == v
  {
  }

  /** Every character `toHexString` writes is a lower-case hex digit. */
  lemma ToHexIsLowerHex(a: seq<byte>)
    ensures |ToHex(a)| == 2 * |a|
    ensures forall k :: 0 <= k < |ToHex(a)| ==> IsHexChar(ToHex(a)[k]) && LowerHex(ToHex(a)[k]) == ToHex(a)[k]
  {
    forall k | 0 <= k < |ToHex(a)|
      ensures IsHexChar(ToHex(a)[k]) && LowerHex(ToHex(a)[k]) == ToHex(a)[k]
    {
      var u := Unsigned8(a[k / 2]);
      var v := if k % 2 == 0 then u / 16 else u % 16;
      assert ToHex(a)[k] == HEXADECIMAL_DIGITS[v];
    }
  }

  /** Splitting a byte into its two nibbles and joining them again gives the byte back. */
  lemma NibblesRejoin(b: byte)
    ensures ToByte((Unsigned8(b) / 16) * 16 + Unsigned8(b) % 16) == b
  {
  }

  /** The two characters `toHexString` writes for byte `i` read back as that byte. */
  lemma HexPairReadsBack(a: seq<byte>, i: nat)
    requires i < |a|
    ensures 2 * i + 1 < |ToHex(a)|
    ensures ToByte(Digit(ToHex(a)[2 * i]) * 16 + Digit(ToHex(a)[2 * i + 1])) == a[i]
  {
    var u := Unsigned8(a[i]);
    var hi, lo := u / 16, u % 16;
    var k := 2 * i;
    assert k % 2 == 0 && k / 2 == i && (k + 1) % 2 == 1 && (k + 1) / 2 == i;
    assert ToHex(a)[k] == HexDigit(hi);
    assert ToHex(a)[k + 1] == HexDigit(lo);
    DigitOfHexDigit(hi);
    DigitOfHexDigit(lo);
    NibblesRejoin(a[i]);
  }

  /** Round trip: `toByteArray(toHexString(a))` is `a`. */
  lemma HexRoundTrip(a: seq<byte>)
    ensures FromHex(ToHex(a)) == Ok(a)
  {
    var s := ToHex(a);
    HexLength(a);
    var b := FromHex(s).value;
    forall i | 0 <= i < |a|
      ensures b[i] == a[i]
    {
      FromHexAt(s, i);
      HexPairReadsBack(a, i);
    }
    assert b == a;
  }

  lemma HexLength(a: seq<byte>)
    ensures |ToHex(a)| == 2 * |a|
    ensures FromHex(ToHex(a)).Ok? && |FromHex(ToHex(a)).value| == |a|
  {
  }

  /** Byte `i` of `toByteArray(s)` is built from characters `2i` and `2i+1`. */
  lemma FromHexAt(s: seq<char>, i: nat)
    requires |s| % 2 == 0 && i < |s| / 2
    ensures FromHex(s).value[i] == ToByte(Digit(s[2 * i]) * 16 + Digit(s[2 * i + 1]))
  {
  }

  /** Every hex digit, read and written again, is its lower-case form. */
  lemma HexDigitOfDigit(c: char)
    requires IsHexChar(c)
    ensures 0 <= Digit(c) && HexDigit(Digit(c)) == LowerHex(c)
  {
  }

  /** The nibbles of the byte built from two digits are the digits. */
  lemma NibblesOfDigits(hi: nat, lo: nat)
    requires hi < 16 && lo < 16
    ensures Unsigned8(ToByte(hi * 16 + lo)) / 16 == hi
    ensures Unsigned8(ToByte(hi * 16 + lo)) % 16 == lo
  {
    assert Unsigned8(ToByte(hi * 16 + lo)) == hi * 16 + lo;
  }

  /**
   * Round trip from the text: for an even-length string of hex digits of
   * either case, `toHexString(toByteArray(s))` is `s` in lower case.
   */
  lemma TextRoundTrip(s: seq<char>)
    requires |s| % 2 == 0
    requires forall k :: 0 <= k < |s| ==> IsHexChar(s[k])
    ensures FromHex(s).Ok?
    ensures ToHex(FromHex(s).value) == seq(|s|, k requires 0 <= k < |s| => LowerHex(s[k]))
  {
    var a := FromHex(s).value;
    var t := ToHex(a);
    forall k | 0 <= k < |s|
      ensures t[k] == LowerHex(s[k])
    {
      var i := k / 2;
      var hi, lo := Digit(s[2 * i]), Digit(s[2 * i + 1]);
      HexDigitOfDigit(s[2 * i]);
      HexDigitOfDigit(s[2 * i + 1]);
      NibblesOfDigits(hi, lo);
      assert a[i] == ToByte(hi * 16 + lo);
    }
  }

  /** `toHexString(a)`: the loop of the source over a fresh char array. */
  method ToHexString(a: array<byte>) returns (s: seq<char>)
    ensures s == ToHex(a[..])
  {
    var hexChars := new char[a.Length * 2];
    var i := 0;
    while i < a.Length
      invariant 0 <= i <= a.Length
      invariant forall k :: 0 <= k < 2 * i ==> hexChars[k] == ToHex(a[..])[k]
    {
      var v := Unsigned8(a[i]);
      hexChars[i * 2] := HEXADECIMAL_DIGITS[v / 16];
      hexChars[i * 2 + 1] := HEXADECIMAL_DIGITS[v % 16];
      i := i + 1;
    }
    s := hexChars[..];
  }

  /** `toByteArray(hexadecimalString)`: the length check, then the loop of the source. */
  method ToByteArray(s: seq<char>) returns (r: Result<array<byte>>)
    ensures r.Ok? <==> FromHex(s).Ok?
    ensures r.Err? ==> r == Err(IllegalArgument)
    ensures r.Ok? ==> fresh(r.value) && r.value[..] == FromHex(s).value
  {
    if |s| % 2 != 0 {
      return Err(IllegalArgument);
    }
    var a := new byte[|s| / 2];
    var i := 0;
    while i < a.Length
      invariant 0 <= i <= a.Length
      invariant forall j :: 0 <= j < i ==> a[j] == FromHex(s).value[j]
    {
      a[i] := ToByte(Digit(s[2 * i]) * 16 + Digit(s[2 * i + 1]));
      i := i + 1;
    }
    return Ok(a);
  }
}
