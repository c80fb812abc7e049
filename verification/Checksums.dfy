/** The 32-bit FNV-1a checksum, and why one changed byte always changes it. */
module Checksums {
  import opened Bytes
  import opened Bits

  const FNV_OFFSET: u32 := 2166136261
  const FNV_PRIME: u32 := 16777619

  /** FNV_PRIME * FNV_INVERSE == 1 modulo 2^32; it exists because the prime is odd. */
  const FNV_INVERSE: u32 := 899433627

  /** `x ^ y` on n-bit words */
  function Xor(x: nat, y: nat, n: nat): (z: nat)
    ensures z < Pow2(n)
  {
    if n == 0 then 0 else (if x % 2 == y % 2 then 0 else 1) + 2 * Xor(x / 2, y / 2, n - 1)
  }

  lemma {:induction false} XorBits(x: nat, y: nat, n: nat, i: nat)
    requires i < n
    ensures HasBit(Xor(x, y, n), i) <==> (HasBit(x, i) != HasBit(y, i))
  {
    if i > 0 {
      assert Xor(x, y, n) / 2 == Xor(x / 2, y / 2, n - 1);
      XorBits(x / 2, y / 2, n - 1, i - 1);
    }
  }

  /** Xor with one operand is undone by xor with the same operand. */
  lemma {:induction false} XorUndone(x: nat, y: nat, n: nat)
    requires x < Pow2(n) && y < Pow2(n)
    ensures Xor(Xor(x, y, n), y, n) == x
    ensures Xor(x, Xor(x, y, n), n) == y
  {
    if n > 0 {
      assert Xor(x, y, n) / 2 == Xor(x / 2, y / 2, n - 1);
      XorUndone(x / 2, y / 2, n - 1);
    }
  }

  function Multiplied(x: u32): u32 { (x * FNV_PRIME) % U32 }

  /** Multiplying by the inverse recovers the factor. */
  lemma MultipliedUndone(x: u32)
    ensures (Multiplied(x) * FNV_INVERSE) % U32 == x
  {
    var q := x * FNV_PRIME / U32;
    assert x * FNV_PRIME == q * U32 + Multiplied(x);
    ghost var k := (FNV_PRIME * FNV_INVERSE - 1) / U32;
    assert FNV_PRIME * FNV_INVERSE == k * U32 + 1;
    assert Multiplied(x) * FNV_INVERSE == x + (x * k - q * FNV_INVERSE) * U32 by {
      assert x * FNV_PRIME * FNV_INVERSE == x * (FNV_PRIME * FNV_INVERSE);
    }
    RemainderOf(x, x * k - q * FNV_INVERSE);
  }

  lemma RemainderOf(x: u32, m: int)
    ensures (x + m * U32) % U32 == x
  {
  }

  function Step(h: u32, b: byte): u32 {
    Pow2Of32();
    Multiplied(Xor(h, b, 32))
  }

  /** The byte comes in first and the multiplication after it, so a step is undone in the opposite order. */
  lemma StepUndone(h: u32, b: byte)
    ensures Xor((Step(h, b) * FNV_INVERSE) % U32, b, 32) == h
  {
    Pow2Of32();
    MultipliedUndone(Xor(h, b, 32));
    XorUndone(h, b, 32);
  }

  /** The published FNV-1a value of the one-letter text "a". */
  lemma HashOfA()
    ensures Hash(FNV_OFFSET, [97]) == 0xE40C292C
  {
    hide Xor;
    XorOfA();
    assert [97][..0] == [];
    assert Hash(FNV_OFFSET, []) == FNV_OFFSET;
  }

  lemma XorOfA()
    ensures Xor(FNV_OFFSET, 97, 32) == 0x811C9DA4
  {
    Pow2Of32();
    XorZero(0x102393B, 25);
    assert Xor(0x2047277, 1, 26) == 0x2047276;
    assert Xor(0x408E4EE, 3, 27) == 0x408E4ED;
    assert Xor(0x811C9DC, 6, 28) == 0x811C9DA;
    assert Xor(0x102393B8, 12, 29) == 0x102393B4;
    assert Xor(0x20472771, 24, 30) == 0x20472769;
    assert Xor(0x408E4EE2, 48, 31) == 0x408E4ED2;
    assert Xor(0x811C9DC5, 97, 32) == 0x811C9DA4;
  }

  lemma {:induction false} XorZero(x: nat, n: nat)
    requires x < Pow2(n)
    ensures Xor(x, 0, n) == x
  {
    if n > 0 {
      XorZero(x / 2, n - 1);
    }
  }

  /** One step is injective in the state and in the byte. */
  lemma StepInjective(h: u32, h': u32, b: byte, b': byte)
    requires Step(h, b) == Step(h', b')
    ensures b == b' ==> h == h'
    ensures h == h' ==> b == b'
  {
    Pow2Of32();
    MultipliedUndone(Xor(h, b, 32));
    MultipliedUndone(Xor(h', b', 32));
    XorUndone(h, b, 32);
    XorUndone(h', b', 32);
  }

  function Hash(h: u32, s: seq<byte>): u32 {
    if s == [] then h else Step(Hash(h, s[..|s| - 1]), s[|s| - 1])
  }

  /** `fnv1a32_update` */
  method Update(hash: u32, data: seq<byte>) returns (h: u32)
    ensures h == Hash(hash, data)
  {
    h := hash;
    for i := 0 to |data|
      invariant h == Hash(hash, data[..i])
    {
      assert data[..i + 1][..i] == data[..i];
      h := Step(h, data[i]);
    }
    assert data[..|data|] == data;
  }

  /** Hashing field by field is hashing the concatenation. */
  lemma {:induction false} HashConcat(h: u32, a: seq<byte>, b: seq<byte>)
    ensures Hash(Hash(h, a), b) == Hash(h, a + b)
    decreases |b|
  {
    if b == [] {
      assert a + b == a;
    } else {
      assert (a + b)[..|a + b| - 1] == a + b[..|b| - 1];
      HashConcat(h, a, b[..|b| - 1]);
    }
  }

  lemma {:induction false} HashInjectiveInState(h: u32, h': u32, s: seq<byte>)
    requires h != h'
    ensures Hash(h, s) != Hash(h', s)
    decreases |s|
  {
    if s != [] {
      var t := s[..|s| - 1];
      HashInjectiveInState(h, h', t);
      if Hash(h, s) == Hash(h', s) {
        StepInjective(Hash(h, t), Hash(h', t), s[|s| - 1], s[|s| - 1]);
      }
    }
  }

  /** `s` and `t` have the same length and differ at position i only. */
  predicate DifferAt(s: seq<byte>, t: seq<byte>, i: nat) {
    |s| == |t| && i < |s| && s[i] != t[i] && forall k :: 0 <= k < |s| && k != i ==> s[k] == t[k]
  }

  /** Changing exactly one byte always changes the checksum. */
  lemma OneByteChangesHash(h: u32, s: seq<byte>, t: seq<byte>, i: nat)
    requires DifferAt(s, t, i)
    ensures Hash(h, s) != Hash(h, t)
  {
    var p, rest := s[..i], s[i + 1..];
    assert s == (p + [s[i]]) + rest && t == (p + [t[i]]) + rest;
    assert (p + [s[i]])[..i] == p && (p + [t[i]])[..i] == p;
    var a, b := Hash(h, p + [s[i]]), Hash(h, p + [t[i]]);
    if a == b {
      StepInjective(Hash(h, p), Hash(h, p), s[i], t[i]);
    }
    HashInjectiveInState(a, b, rest);
    HashConcat(h, p + [s[i]], rest);
    HashConcat(h, p + [t[i]], rest);
  }
}
