/** NUL-terminated text in fixed character arrays, with the C library calls the node makes on it. */
module CStrings {
  const NUL := '\0'

  /** The array holds a terminator. */
  predicate Terminated(a: seq<char>) {
    NUL in a
  }

  function StrLen(a: seq<char>): (n: nat)
    requires Terminated(a)
    ensures n < |a| && a[n] == NUL && NUL !in a[..n]
  {
    if a[0] == NUL then 0 else
      assert a == [a[0]] + a[1..];
      var n := 1 + StrLen(a[1..]);
      assert a[..n] == [a[0]] + a[1..][..n - 1];
      n
  }

  /** The C string an array holds: everything before its first NUL. */
  function CString(a: seq<char>): (s: string)
    requires Terminated(a)
    ensures |s| < |a| && s == a[..|s|] && a[|s|] == NUL && NUL !in s
  {
    a[..StrLen(a)]
  }

  /** Text with a NUL after it is the array's C string. */
  lemma Holds(a: seq<char>, s: string)
    requires |s| < |a| && s == a[..|s|] && a[|s|] == NUL && NUL !in s
    ensures Terminated(a) && CString(a) == s
  {
    var n := StrLen(a);
    assert forall k :: 0 <= k < n ==> a[k] in a[..n];
    assert forall k :: 0 <= k < |s| ==> a[k] in s;
  }

  /** `strcat(dst, src)`: in bounds as long as both texts and one NUL fit. */
  method Strcat(dst: array<char>, src: string)
    requires Terminated(dst[..]) && NUL !in src
    requires |CString(dst[..])| + |src| < dst.Length
    modifies dst
    ensures Terminated(dst[..]) && CString(dst[..]) == old(CString(dst[..])) + src
  {
    ghost var text := CString(dst[..]);
    var end := 0;
    while dst[end] != NUL
      invariant end <= |text|
      invariant forall k :: 0 <= k < |text| ==> dst[k] == text[k] != NUL
      invariant dst[|text|] == NUL
      decreases |text| - end
    {
      end := end + 1;
    }
    for i := 0 to |src|
      invariant dst[..end + i] == text + src[..i]
    {
      dst[end + i] := src[i];
      assert dst[..end + i + 1] == dst[..end + i] + [src[i]];
    }
    dst[end + |src|] := NUL;
    assert dst[..end + |src|] == text + src;
    Holds(dst[..], text + src);
  }

  /** `sprintf` of already formatted text into a fresh array: the array must hold the text and a NUL. */
  method Sprintf(dst: array<char>, text: string)
    requires NUL !in text && |text| < dst.Length
    modifies dst
    ensures Terminated(dst[..]) && CString(dst[..]) == text
  {
    for i := 0 to |text|
      invariant dst[..i] == text[..i]
    {
      dst[i] := text[i];
      assert dst[..i + 1] == dst[..i] + [text[i]];
    }
    dst[|text|] := NUL;
    assert dst[..|text|] == text;
    Holds(dst[..], text);
  }

  /** `memset(dst, 0, sizeof(dst))`. */
  method Clear(dst: array<char>)
    requires dst.Length > 0
    modifies dst
    ensures forall k :: 0 <= k < dst.Length ==> dst[k] == NUL
    ensures Terminated(dst[..]) && CString(dst[..]) == ""
  {
    for i := 0 to dst.Length
      invariant forall k :: 0 <= k < i ==> dst[k] == NUL
    {
      dst[i] := NUL;
    }
    assert dst[..][0] == NUL;
    Holds(dst[..], "");
  }

  /** `memcpy(dst, src, n)` over a cleared array, where `n` counts the text and possibly its own NUL. */
  method CopyIntoCleared(dst: array<char>, src: string, n: nat)
    requires NUL !in src && (n == |src| || n == |src| + 1) && n < dst.Length
    requires forall k :: 0 <= k < dst.Length ==> dst[k] == NUL
    modifies dst
    ensures Terminated(dst[..]) && CString(dst[..]) == src
  {
    var source := src + [NUL];
    for i := 0 to n
      invariant dst[..i] == source[..i]
      invariant forall k :: i <= k < dst.Length ==> dst[k] == NUL
    {
      dst[i] := source[i];
      assert dst[..i + 1] == dst[..i] + [source[i]];
    }
    assert dst[..][..|src|] == src by {
      assert dst[..|src|] == dst[..n][..|src|] == source[..|src|] == src;
    }
    Holds(dst[..], src);
  }
}
