/** The C string functions the coders use, on fixed-size character buffers. */
module CStrings {
  import opened Alphabet

  /** The buffer holds the string `s` with its terminator. */
  ghost predicate Holds(a: seq<char>, s: string) {
    |s| < |a| && a[..|s|] == s && a[|s|] == NUL && NUL !in s
  }

  /** `strlen` */
  method StrLen(a: array<char>, ghost s: string) returns (n: nat)
    requires Holds(a[..], s)
    ensures n == |s|
  {
    n := 0;
    while a[n] != NUL
      invariant 0 <= n <= |s|
      invariant n < |s| ==> a[n] == s[n]
      decreases |s| - n
    {
      n := n + 1;
      assert n < |s| ==> a[..][n] == s[n];
    }
  }

  /** `strcpy(dst + offset, src)`, where `offset` is the length of the string in the buffer. */
  method StrCpyAt(dst: array<char>, offset: nat, src: string, ghost s: string)
    requires Holds(dst[..], s) && offset == |s| && NUL !in src
    requires offset + |src| < dst.Length
    modifies dst
    ensures Holds(dst[..], s + src)
  {
    var i := 0;
    while i < |src|
      invariant 0 <= i <= |src|
      invariant dst[..offset] == s && dst[offset..offset + i] == src[..i]
    {
      dst[offset + i] := src[i];
      i := i + 1;
    }
    dst[offset + i] := NUL;
    assert dst[..offset + i] == dst[..offset] + dst[offset..offset + i];
    assert dst[..][..offset + i] == s + src;
  }

  /** `strcpy(a, a + k)`: drop the first `k` characters of the string in the buffer. */
  method ShiftDown(a: array<char>, k: nat, ghost s: string)
    requires Holds(a[..], s) && k <= |s|
    modifies a
    ensures Holds(a[..], s[k..])
  {
    if k == 0 {
      return;
    }
    ghost var was := a[..];
    var i := 0;
    assert forall j :: 0 <= j < |s| ==> was[j] == s[j];
    while a[k + i] != NUL
      invariant 0 <= i <= |s| - k
      invariant forall j :: 0 <= j < i ==> a[j] == was[k + j]
      invariant forall j :: i <= j < |was| ==> a[j] == was[j]
      decreases |s| - k - i
    {
      assert k + i < |s|;
      a[i] := a[k + i];
      i := i + 1;
    }
    assert was[k + i] == NUL;
    assert i == |s| - k;
    a[i] := NUL;
    assert a[..][..i] == s[k..];
  }

  /** `memcmp(a, s, strlen(s)) == 0` */
  method MemEqual(a: array<char>, s: string) returns (equal: bool)
    requires |s| <= a.Length
    ensures equal == (a[..|s|] == s)
  {
    var i := 0;
    while i < |s|
      invariant 0 <= i <= |s|
      invariant a[..i] == s[..i]
    {
      if a[i] != s[i] {
        assert a[..|s|][i] != s[i];
        return false;
      }
      i := i + 1;
    }
    return true;
  }

  /** Comparing raw memory is the same as asking for a prefix, because the terminator stops it. */
  lemma MemEqualIsPrefix(a: seq<char>, s: string, code: string)
    requires Holds(a, s) && |code| <= |a| && NUL !in code
    ensures a[..|code|] == code <==> code <= s
  {
    assert forall i :: 0 <= i < |code| ==> a[..|code|][i] == a[i];
    if |code| <= |s| {
      assert a[..|code|] == s[..|code|];
    }
  }
}
