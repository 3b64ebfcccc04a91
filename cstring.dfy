/** The C library's `strncpy`, as `sb_dump_str` uses it: copy at most `n`
    characters of `src`, stop at the first NUL, and pad the rest of the `n`
    destination characters with NUL. */
module CString {

  /** The C string terminator. */
  const NUL: char := '\0'

  /** `n` NUL characters. */
  function Zeros(n: nat): (r: seq<char>)
    ensures |r| == n
    ensures forall j :: 0 <= j < n ==> r[j] == NUL
  {
    if n == 0 then [] else Zeros(n - 1) + [NUL]
  }

  /** What `strncpy(dst, src, n)` leaves in `dst[0..n)`: the characters of `src`
      up to its first NUL, then NUL padding up to `n`. */
  function StrNCpy(src: seq<char>, n: nat): (r: seq<char>)
    requires n <= |src|
    ensures |r| == n
  {
    if n == 0 then []
    else if src[0] == NUL then Zeros(n)
    else [src[0]] + StrNCpy(src[1..], n - 1)
  }

  /** Character by character: position `i` of the copy is `src[i]` when no NUL
      comes before it in `src`, and NUL otherwise. */
  lemma {:induction false} StrNCpyAt(src: seq<char>, n: nat, i: nat)
    requires n <= |src| && i < n
    ensures StrNCpy(src, n)[i] == if NUL in src[..i] then NUL else src[i]
  {
    if src[0] != NUL && i > 0 {
      StrNCpyAt(src[1..], n - 1, i - 1);
      assert src[..i] == [src[0]] + src[1..][..i - 1];
    }
  }

  /** A source without NUL among its first `n` characters is copied verbatim. */
  lemma {:induction false} StrNCpyNulFree(src: seq<char>, n: nat)
    requires n <= |src| && NUL !in src[..n]
    ensures StrNCpy(src, n) == src[..n]
  {
    forall i | 0 <= i < n
      ensures StrNCpy(src, n)[i] == src[i]
    {
      StrNCpyAt(src, n, i);
      assert src[..i] == src[..n][..i];
    }
  }

  /** After a NUL the copy holds only NUL: the padding of `strncpy`. */
  lemma StrNCpyPads(src: seq<char>, n: nat, i: nat, j: nat)
    requires j < n <= |src| && i <= j && src[i] == NUL
    ensures StrNCpy(src, n)[j] == NUL
  {
    StrNCpyAt(src, n, j);
    if i < j {
      assert src[..j][i] == NUL;
    }
  }

  /** `strncpy(dst, src, n)`: fills `dst[0..n)` in place and leaves the rest of
      `dst` alone. */
  method StrNCpyInto(dst: array<char>, src: array<char>, n: nat)
    requires n <= dst.Length && n <= src.Length && dst != src
    modifies dst
    ensures dst[..n] == StrNCpy(src[..n], n)
    ensures dst[n..] == old(dst[n..])
  {
    var i := 0;
    while i < n && src[i] != NUL
      invariant i <= n
      invariant NUL !in src[..i]
      invariant dst[..i] == src[..i]
      invariant dst[n..] == old(dst[n..])
    {
      dst[i] := src[i];
      i := i + 1;
    }
    ghost var stop := i;
    while i < n
      invariant stop <= i <= n
      invariant dst[..stop] == src[..stop]
      invariant forall j :: stop <= j < i ==> dst[j] == NUL
      invariant dst[n..] == old(dst[n..])
    {
      dst[i] := NUL;
      i := i + 1;
    }
    ghost var s := src[..n];
    forall j | 0 <= j < n
      ensures dst[j] == StrNCpy(s, n)[j]
    {
      StrNCpyAt(s, n, j);
      if j < stop {
        assert s[..j] == src[..stop][..j];
        assert dst[j] == dst[..stop][j] == src[..stop][j] == s[j];
      } else {
        assert s[stop] == NUL;
        StrNCpyPads(s, n, stop, j);
      }
    }
  }
}
