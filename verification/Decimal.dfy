/** The ASCII decimal payload of integer commands. */
module Decimal {
  import opened Bytes

  /** The decimal digits of n, most significant first. */
  function Digits(n: nat): (s: seq<byte>)
    ensures |s| > 0
    ensures forall i :: 0 <= i < |s| ==> 48 <= s[i] <= 57
    ensures |s| > 1 ==> s[0] != 48
  {
    if n < 10 then [48 + n] else Digits(n / 10) + [48 + n % 10]
  }

  function Abs(v: int): nat { if v < 0 then -v else v }

  function Ascii(v: int): seq<byte> { (if v < 0 then [45] else []) + Digits(Abs(v)) }

  function ReadDigits(s: seq<byte>): int {
    if s == [] then 0 else 10 * ReadDigits(s[..|s| - 1]) + (s[|s| - 1] as int) - 48
  }

  /** A reference reader: an optional minus sign, then decimal digits. */
  function ReadAscii(s: seq<byte>): int {
    if s != [] && s[0] == 45 then -ReadDigits(s[1..]) else ReadDigits(s)
  }

  lemma {:induction false} ReadDigitsOfDigits(n: nat)
    ensures ReadDigits(Digits(n)) == n
  {
    if n < 10 {
      assert ReadDigits([]) == 0;
      assert Digits(n)[..0] == [];
    } else {
      ReadDigitsOfDigits(n / 10);
      assert Digits(n)[..|Digits(n)| - 1] == Digits(n / 10);
    }
  }

  function Pow10(k: nat): (p: nat)
    ensures p > 0
  {
    if k == 0 then 1 else 10 * Pow10(k - 1)
  }

  lemma {:induction false} DigitsLength(n: nat, k: nat)
    requires n < Pow10(k) && k > 0
    ensures |Digits(n)| <= k
  {
    if n >= 10 {
      assert k > 1 by { assert Pow10(1) == 10 * Pow10(0); }
      DigitsLength(n / 10, k - 1);
    }
  }

  lemma AsciiLength(v: i32)
    ensures |Digits(Abs(v))| <= 10 && |Ascii(v)| <= 11
  {
    assert Pow10(10) == 10_000_000_000 by {
      assert Pow10(2) == 100;
      assert Pow10(4) == 10_000;
      assert Pow10(6) == 1_000_000;
      assert Pow10(8) == 100_000_000;
    }
    DigitsLength(Abs(v), 10);
  }

  /** Every 32-bit value, the minimum included, is recovered from at most 11 bytes. */
  lemma AsciiRoundTrip(v: i32)
    ensures ReadAscii(Ascii(v)) == v && |Ascii(v)| <= 11
  {
    AsciiLength(v);
    ReadDigitsOfDigits(Abs(v));
    if v < 0 {
      assert Ascii(v)[1..] == Digits(Abs(v));
    } else {
      assert Ascii(v) == Digits(Abs(v));
    }
  }

  lemma LastDigit(n: nat)
    ensures var d := Digits(n);
            && |d| > 0 && d[|d| - 1] == 48 + n % 10 && (n < 10 ==> |d| == 1)
            && (n >= 10 ==> |d| > 1 && d[..|d| - 1] == Digits(n / 10))
  {
  }

  /** The first loop of `encode_i32_ascii`: digits into a 10-byte scratch array, least significant first. */
  method DigitsReversed(magnitude: nat) returns (digits: array<byte>, count: nat)
    requires |Digits(magnitude)| <= 10
    ensures fresh(digits) && digits.Length == 10 && count == |Digits(magnitude)|
    ensures forall i :: 0 <= i < count ==> digits[i] == Digits(magnitude)[count - 1 - i]
  {
    hide Digits;
    LastDigit(magnitude);
    digits := new byte[10](_ => 0);
    ghost var all := Digits(magnitude);
    var n := magnitude;
    digits[0] := 48 + n % 10;
    count := 1;
    while n >= 10
      invariant 1 <= count <= |all|
      invariant Digits(n) == all[..|all| - count + 1]
      invariant forall i :: 0 <= i < count ==> digits[i] == all[|all| - 1 - i]
    {
      LastDigit(n);
      LastDigit(n / 10);
      assert all[..|all| - count + 1][..|all| - count] == all[..|all| - count];
      n := n / 10;
      digits[count] := 48 + n % 10;
      count := count + 1;
    }
    LastDigit(n);
  }

  /** `encode_i32_ascii`: an optional minus sign, then the scratch digits written back in reverse. */
  method EncodeI32(value: i32, capacity: nat) returns (r: Result<seq<byte>>)
    ensures r == if |Ascii(value)| <= capacity then Ok(Ascii(value)) else Err(InvalidSize)
  {
    hide Digits;
    var out: seq<byte> := [];
    var magnitude: int := value;
    if magnitude < 0 {
      if capacity == 0 {
        return Err(InvalidSize);
      }
      out := [45];
      magnitude := -magnitude;
    }
    AsciiLength(value);
    var digits, count := DigitsReversed(magnitude);
    if |out| + count > capacity {
      return Err(InvalidSize);
    }
    ghost var all := Digits(magnitude);
    ghost var sign := out;
    while count > 0
      invariant 0 <= count <= |all|
      invariant forall i :: 0 <= i < count ==> digits[i] == all[|all| - 1 - i]
      invariant out == sign + all[..|all| - count]
    {
      count := count - 1;
      out := out + [digits[count]];
    }
    assert all[..|all|] == all;
    return Ok(out);
  }
}
