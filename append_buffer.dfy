/** struct abuf: a heap buffer of exactly `len` bytes that only grows at its
    end, and is released as a whole. */
module AppendBuffer {
  import opened Bytes

  class ABuf {
    var b: array?<byte>
    var len: int

    /** `b` is NULL only while the buffer is empty; otherwise it holds exactly
        `len` bytes, since every realloc asks for the new length. */
    ghost predicate Valid()
      reads this
    {
      (b == null ==> len == 0) && (b != null ==> len == b.Length)
    }

    /** The bytes appended so far. */
    function Contents(): (s: seq<byte>)
      reads this, b
      requires Valid()
      ensures |s| == len
    {
      if b == null then [] else b[..]
    }

    /** ABUF_INIT: no storage, length 0. */
    constructor ()
      ensures Valid() && b == null && len == 0 && Contents() == []
    {
      b := null;
      len := 0;
    }

    /** abAppend: grow the storage to the new length, keeping the old bytes
        (realloc), and copy the first `n` bytes of `s` after them (memcpy). */
    method Append(s: seq<byte>, n: int)
      requires Valid()
      requires 0 <= n <= |s|
      modifies this
      ensures Valid() && b != null && fresh(b)
      ensures len == old(len) + n
      ensures Contents() == old(Contents()) + s[..n]
      ensures n == |s| ==> Contents() == old(Contents()) + s
    {
      var l, src := len, b;
      var prev := Contents();
      var buf := new byte[l + n];
      var i := 0;
      while i < l
        invariant 0 <= i <= l
        invariant forall k :: 0 <= k < i ==> buf[k] == prev[k]
      {
        buf[i] := src[i];
        i := i + 1;
      }
      var j := 0;
      while j < n
        invariant 0 <= j <= n
        invariant forall k :: 0 <= k < l ==> buf[k] == prev[k]
        invariant forall k :: 0 <= k < j ==> buf[l + k] == s[k]
      {
        buf[l + j] := s[j];
        j := j + 1;
      }
      assert buf[..] == prev + s[..n];
      b := buf;
      len := l + n;
    }

    /** abFree: release the storage; the buffer is empty again. */
    method Free()
      requires Valid()
      modifies this
      ensures Valid() && b == null && len == 0 && Contents() == []
    {
      if b != null {
        b := null;
        len := 0;
      }
    }
  }
}
