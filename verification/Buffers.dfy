/** Bytes, and stores into a sequence of them. */
module Buffers {
  type Byte = x: nat | x < 256

  /** The bytes after a store of d at an address. */
  function Overwrite(s: seq<Byte>, at: nat, d: seq<Byte>): (r: seq<Byte>)
    requires at + |d| <= |s|
    ensures |r| == |s|
  {
    s[..at] + d + s[at + |d|..]
  }

  lemma OverwriteBytes(s: seq<Byte>, at: nat, d: seq<Byte>)
    requires at + |d| <= |s|
    ensures forall x | 0 <= x < |s| :: Overwrite(s, at, d)[x] == if at <= x < at + |d| then d[x - at] else s[x]
  {
  }

  lemma OverwriteByte(s: seq<Byte>, at: nat, d: seq<Byte>, x: nat)
    requires at + |d| <= |s| && x < |s|
    ensures Overwrite(s, at, d)[x] == if at <= x < at + |d| then d[x - at] else s[x]
  {
  }

  /** Two stores in a row are one. */
  lemma Extend(s: seq<Byte>, at: nat, d: seq<Byte>, e: seq<Byte>)
    requires at + |d| + |e| <= |s|
    ensures Overwrite(Overwrite(s, at, d), at + |d|, e) == Overwrite(s, at, d + e)
  {
  }

  lemma ExtendBy(s: seq<Byte>, at: nat, d: seq<Byte>, i: nat, n: nat)
    requires i + n <= |d| && at + |d| <= |s|
    ensures Overwrite(Overwrite(s, at, d[..i]), at + i, d[i..i + n]) == Overwrite(s, at, d[..i + n])
  {
    Extend(s, at, d[..i], d[i..i + n]);
    assert d[..i] + d[i..i + n] == d[..i + n];
  }

  lemma OverwriteNone(s: seq<Byte>, at: nat)
    requires at <= |s|
    ensures Overwrite(s, at, []) == s
  {
  }

  lemma OverwriteOne(s: seq<Byte>, at: nat, b: Byte)
    requires at < |s|
    ensures Overwrite(s, at, [b]) == s[at := b]
  {
  }

  lemma ExtendByOne(s: seq<Byte>, at: nat, d: seq<Byte>, i: nat)
    requires i < |d| && at + |d| <= |s|
    ensures Overwrite(Overwrite(s, at, d[..i]), at + i, [d[i]]) == Overwrite(s, at, d[..i + 1])
  {
    ExtendBy(s, at, d, i, 1);
    assert d[i..i + 1] == [d[i]];
  }

  lemma SliceOfSlice(s: seq<Byte>, at: nat, n: nat, i: nat, m: nat)
    requires i + m <= n && at + n <= |s|
    ensures s[at..at + n][i..i + m] == s[at + i..at + i + m]
  {
    var t, u := s[at..at + n][i..i + m], s[at + i..at + i + m];
    assert forall k | 0 <= k < m :: t[k] == u[k];
  }

  /** A memcpy between buffers. */
  method CopyBytes(src: array<Byte>, from: nat, dst: array<Byte>, to: nat, n: nat)
    requires src != dst && from + n <= src.Length && to + n <= dst.Length
    modifies dst
    ensures dst[..] == Overwrite(old(dst[..]), to, src[from..from + n])
  {
    hide Overwrite;
    OverwriteNone(dst[..], to);
    var i := 0;
    while i < n
      invariant i <= n
      invariant dst[..] == Overwrite(old(dst[..]), to, src[from..from + n][..i])
    {
      ghost var before := dst[..];
      dst[to + i] := src[from + i];
      ExtendByOne(old(dst[..]), to, src[from..from + n], i);
      OverwriteOne(before, to + i, src[from..from + n][i]);
      assert dst[..] == before[to + i := src[from + i]];
      i := i + 1;
    }
    assert src[from..from + n][..n] == src[from..from + n];
  }
}
