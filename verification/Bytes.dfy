/** Machine words, byte strings and error codes shared by every component. */
module Bytes {

  type byte = x: int | 0 <= x < 0x100
  type u16 = x: int | 0 <= x < 0x1_0000
  type u32 = x: int | 0 <= x < 0x1_0000_0000
  type i32 = x: int | -0x8000_0000 <= x < 0x8000_0000

  const U32: int := 0x1_0000_0000
  const UINT32_MAX: u32 := 0xFFFF_FFFF

  /** A 32-byte message id; the firmware uses the capsule digest. */
  type Id = s: seq<byte> | |s| == 32 witness seq(32, _ => 0)

  /** The esp_err_t values the modelled code returns. */
  datatype Error =
    | Fail | NoMem | InvalidArg | InvalidState | InvalidSize | NotFound
    | NotSupported | Timeout | InvalidCrc | InvalidVersion

  datatype Result<+T> = Ok(value: T) | Err(error: Error)

  datatype Option<+T> = None | Some(value: T)

  function Min(a: int, b: int): int { if a < b then a else b }

  lemma {:induction false} SubsetCard<T>(a: set<T>, b: set<T>)
    requires a <= b
    ensures |a| <= |b|
  {
    if a != {} {
      var x :| x in a;
      SubsetCard(a - {x}, b - {x});
    }
  }

  function Zeros(n: nat): (z: seq<byte>)
    ensures |z| == n && forall i :: 0 <= i < n ==> z[i] == 0
  {
    seq(n, _ => 0)
  }

  predicate AllZero(s: seq<byte>) { forall i :: 0 <= i < |s| ==> s[i] == 0 }

  function U16Le(v: u16): (s: seq<byte>)
    ensures |s| == 2
  {
    [v % 0x100, v / 0x100]
  }

  function ReadU16Le(s: seq<byte>): (v: u16)
    requires |s| == 2
    ensures U16Le(v) == s
  {
    (s[0] as int) + 0x100 * (s[1] as int)
  }

  function U32Le(v: u32): (s: seq<byte>)
    ensures |s| == 4
  {
    U16Le(v % 0x1_0000) + U16Le(v / 0x1_0000)
  }

  function ReadU32Le(s: seq<byte>): (v: u32)
    requires |s| == 4
    ensures U32Le(v) == s
  {
    var lo := ReadU16Le(s[..2]);
    var hi := ReadU16Le(s[2..]);
    assert (lo + 0x1_0000 * hi) % 0x1_0000 == lo && (lo + 0x1_0000 * hi) / 0x1_0000 == hi;
    assert s == s[..2] + s[2..];
    lo + 0x1_0000 * hi
  }

  /** The least significant byte comes first. */
  lemma LittleEndian(a: u16, b: u32)
    ensures var s := U16Le(a); a == (s[0] as int) + 0x100 * (s[1] as int)
    ensures var s := U32Le(b);
            b == (s[0] as int) + 0x100 * (s[1] as int) + 0x1_0000 * (s[2] as int) + 0x100_0000 * (s[3] as int)
  {
  }

  /** Reading back what was written is the identity on 16- and 32-bit words. */
  lemma WordRoundTrip(a: u16, b: u32)
    ensures ReadU16Le(U16Le(a)) == a
    ensures ReadU32Le(U32Le(b)) == b
  {
    var s := U32Le(b);
    assert s[..2] == U16Le(b % 0x1_0000) && s[2..] == U16Le(b / 0x1_0000);
    assert ReadU16Le(U16Le(b % 0x1_0000)) == b % 0x1_0000;
  }
}
