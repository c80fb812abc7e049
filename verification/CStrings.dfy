/** NUL-terminated strings in fixed-size byte fields. */
module CStrings {
  import opened Bytes

  /** The bytes before the first NUL, or the whole field when it has none. */
  function Content(f: seq<byte>): (c: seq<byte>)
    ensures |c| <= |f| && c == f[..|c|]
    ensures 0 !in c
    ensures |c| < |f| ==> f[|c|] == 0
  {
    if f == [] || f[0] == 0 then [] else [f[0]] + Content(f[1..])
  }

  lemma {:induction false} ContentUnique(f: seq<byte>, n: nat)
    requires n <= |f| && 0 !in f[..n] && (n < |f| ==> f[n] == 0)
    ensures Content(f) == f[..n]
  {
    if n > 0 {
      assert f[..n][0] == f[0] && f[1..][..n - 1] == f[..n][1..];
      ContentUnique(f[1..], n - 1);
    }
  }

  /** A string copied into a zeroed field of `len` bytes, truncated to leave room for a NUL. */
  function Field(s: seq<byte>, len: nat): (f: seq<byte>)
    requires len > 0
    ensures |f| == len
  {
    var n := Min(|s|, len - 1);
    s[..n] + Zeros(len - n)
  }

  /** A text too long for its field is cut to leave room for one NUL. */
  lemma FieldCuts(s: seq<byte>, len: nat)
    requires 0 < len <= |s|
    ensures Field(s, len) == s[..len - 1] + [0]
  {
    assert Zeros(1) == [0];
  }

  /** Non-empty, terminated, and zero after the terminator. */
  ghost predicate Canonical(f: seq<byte>) {
    f != [] && 0 < |Content(f)| < |f| && f == Field(Content(f), |f|)
  }

  /** A field is canonical exactly when some non-empty text without NUL is followed by NULs to the end, at least one. */
  lemma CanonicalIff(f: seq<byte>)
    ensures Canonical(f) <==> exists n :: 0 < n < |f| && TextThenNuls(f, n)
  {
    if Canonical(f) {
      var n := |Content(f)|;
      assert forall i :: 0 <= i < n ==> f[i] == Content(f)[i];
      assert TextThenNuls(f, n);
    }
    if n :| 0 < n < |f| && TextThenNuls(f, n) {
      ContentUnique(f, n);
      assert f == f[..n] + Zeros(|f| - n);
    }
  }

  predicate TextThenNuls(f: seq<byte>, n: nat) {
    n <= |f| && (forall i :: 0 <= i < n ==> f[i] != 0) && forall i :: n <= i < |f| ==> f[i] == 0
  }

  lemma FieldContent(s: seq<byte>, len: nat)
    requires 0 !in s && |s| < len
    ensures Content(Field(s, len)) == s
    ensures s != [] ==> Canonical(Field(s, len))
  {
    assert Field(s, len)[..|s|] == s;
    ContentUnique(Field(s, len), |s|);
  }

  /** `c_string_field_valid`: the two nested scans. */
  method FieldValid(f: seq<byte>) returns (ok: bool)
    ensures ok <==> Canonical(f)
  {
    if |f| == 0 || f[0] == 0 {
      return false;
    }
    for i := 0 to |f|
      invariant 0 !in f[..i]
    {
      if f[i] == 0 {
        ContentUnique(f, i);
        for j := i + 1 to |f|
          invariant forall k :: i <= k < j ==> f[k] == 0
        {
          if f[j] != 0 {
            assert Field(Content(f), |f|)[j] == 0;
            return false;
          }
        }
        assert f == f[..i] + Zeros(|f| - i);
        return true;
      }
    }
    assert f[..|f|] == f;
    ContentUnique(f, |f|);
    return false;
  }

  /** Reading past a field's end gives NUL. */
  function CharAt(f: seq<byte>, i: nat): byte { if i < |f| then f[i] else 0 }

  lemma {:induction false} ContentChar(f: seq<byte>, i: nat)
    requires i <= |f| && 0 !in f[..i]
    ensures i <= |Content(f)| && CharAt(Content(f), i) == CharAt(f, i)
  {
    if i > 0 {
      assert f[..i][0] == f[0] && f[1..][..i - 1] == f[..i][1..];
      ContentChar(f[1..], i - 1);
    }
  }

  /** `cstr_equal`: compares to the first NUL, and fails when there is none within the longer field. */
  method CStrEqual(a: seq<byte>, b: seq<byte>) returns (equal: bool)
    ensures equal <==> Content(a) == Content(b) && (|Content(a)| < |a| || |Content(a)| < |b|)
  {
    var max := if |a| > |b| then |a| else |b|;
    for i := 0 to max
      invariant i <= |a| && i <= |b|
      invariant 0 !in a[..i] && 0 !in b[..i] && a[..i] == b[..i]
    {
      ContentChar(a, i);
      ContentChar(b, i);
      var ca, cb := CharAt(a, i), CharAt(b, i);
      if ca != cb {
        return false;
      }
      if ca == 0 {
        ContentUnique(a, i);
        ContentUnique(b, i);
        return true;
      }
    }
    ContentChar(a, max);
    return false;
  }

  /** `strncmp(a, b, n) == 0` on two fields of n bytes that both hold a NUL. */
  lemma SameContentSameField(a: seq<byte>, b: seq<byte>)
    requires Canonical(a) && Canonical(b) && |a| == |b|
    ensures Content(a) == Content(b) <==> a == b
  {
  }
}
