/** memcpy, memmove and memset over arrays of bytes.  The bytes to copy are given as a value, so a copy within
    one array is a memmove. */
module Memory {
  import opened Words

  /** The contents of an array after `src` has been copied to `at`. */
  function Overwrite(a: seq<Byte>, at: nat, src: seq<Byte>): (r: seq<Byte>)
    requires at + |src| <= |a|
    ensures |r| == |a|
  {
    a[..at] + src + a[at + |src|..]
  }

  /** What stands before the copy, the copy, and what stands behind it. */
  lemma OverwriteParts(a: seq<Byte>, at: nat, src: seq<Byte>)
    requires at + |src| <= |a|
    ensures var r, end := Overwrite(a, at, src), at + |src|;
            r[..at] == a[..at] && r[..end] == a[..at] + src && r[end..] == a[end..]
  {
  }

  lemma OverwriteNext(a: seq<Byte>, at: nat, src: seq<Byte>, k: nat)
    requires at + |src| <= |a| && k < |src|
    ensures Overwrite(a, at, src[..k])[at + k := src[k]] == Overwrite(a, at, src[..k + 1])
  {
  }

  lemma OverwriteEnds(a: seq<Byte>, at: nat, src: seq<Byte>)
    requires at + |src| <= |a|
    ensures Overwrite(a, at, src[..0]) == a && src[..|src|] == src
  {
  }

  lemma TailsAgree(a: seq<Byte>, b: seq<Byte>, i: nat, j: nat)
    requires |a| == |b| && i <= j <= |a| && a[i..] == b[i..]
    ensures a[j..] == b[j..]
  {
    assert a[j..] == a[i..][j - i..] && b[j..] == b[i..][j - i..];
  }

  method Copy(dst: array<Byte>, at: nat, src: seq<Byte>)
    requires at + |src| <= dst.Length
    modifies dst
    ensures dst[..] == Overwrite(old(dst[..]), at, src)
    ensures dst[..at + |src|] == old(dst[..at]) + src && dst[at + |src|..] == old(dst[..])[at + |src|..]
  {
    hide Overwrite;
    ghost var was := dst[..];
    OverwriteEnds(was, at, src);
    for k := 0 to |src|
      invariant dst[..] == Overwrite(was, at, src[..k])
    {
      ghost var before := dst[..];
      dst[at + k] := src[k];
      assert dst[..] == before[at + k := src[k]];
      OverwriteNext(was, at, src, k);
    }
    OverwriteParts(was, at, src);
  }

  function Zeros(n: nat): (z: seq<Byte>)
    ensures |z| == n
  {
    seq(n, _ => 0)
  }

  method Clear(dst: array<Byte>, len: nat)
    requires len <= dst.Length
    modifies dst
    ensures dst[..] == Zeros(len) + old(dst[..])[len..]
  {
    ghost var was := dst[..];
    for k := 0 to len
      invariant forall i :: 0 <= i < k ==> dst[i] == 0
      invariant forall i :: k <= i < dst.Length ==> dst[i] == was[i]
    {
      dst[k] := 0;
    }
  }
}
