/** memcpy, memmove and optional values. */
module Memory {
  import opened Limbs

  datatype Option<T> = None | Some(value: T)

  /** Nothing outside the given part of the buffer has changed. */
  twostate predicate KeptOutside(buf: array<Byte>, lo: nat, hi: nat)
    reads buf
  {
    forall i :: 0 <= i < buf.Length && !(lo <= i < hi) ==> buf[i] == old(buf[i])
  }

  lemma SliceOfSlice(s: seq<Byte>, lo: nat, hi: nat, a: nat, b: nat)
    requires lo <= hi <= |s| && a <= b <= hi - lo
    ensures s[lo..hi][a..b] == s[lo + a..lo + b]
  {
    var t, u := s[lo..hi][a..b], s[lo + a..lo + b];
    forall k | 0 <= k < |t|
      ensures t[k] == u[k]
    {
      assert t[k] == s[lo..hi][a + k] == s[lo + (a + k)];
      assert u[k] == s[lo + a + k];
    }
  }

  /** memcpy of the given octets to an offset */
  method CopyInto(buf: array<Byte>, off: nat, src: seq<Byte>)
    requires off + |src| <= buf.Length
    modifies buf
    ensures buf[off..off + |src|] == src
    ensures KeptOutside(buf, off, off + |src|)
  {
    var i := 0;
    while i < |src|
      invariant 0 <= i <= |src| && buf[off..off + i] == src[..i]
      invariant KeptOutside(buf, off, off + i)
    {
      buf[off + i] := src[i];
      i := i + 1;
    }
  }

  /** memcpy of the first n octets of another buffer */
  method CopyOut(src: array<Byte>, dst: array<Byte>, n: nat)
    requires n <= src.Length && n <= dst.Length && src != dst
    modifies dst
    ensures dst[..n] == src[..n] && dst[n..] == old(dst[n..])
  {
    ghost var s := dst[..];
    var i := 0;
    while i < n
      invariant 0 <= i <= n && dst[..i] == src[..i] && dst[i..] == s[i..]
    {
      dst[i] := src[i];
      i := i + 1;
    }
  }

  /** memmove of n octets to the start of the buffer */
  method MoveDown(buf: array<Byte>, from: nat, n: nat)
    requires from + n <= buf.Length
    modifies buf
    ensures buf[..n] == old(buf[from..from + n])
  {
    ghost var m := buf[..];
    var i := 0;
    while i < n
      invariant 0 <= i <= n && buf[..i] == m[from..from + i]
      invariant forall j :: i <= j < buf.Length ==> buf[j] == m[j]
    {
      buf[i] := buf[from + i];
      i := i + 1;
    }
  }
}
