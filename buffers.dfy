/** Copying a service result into a caller's `byte[]`, as the client classes do with
    `for (...) buffer[i] = result[i];`. */
module Buffers {
  import opened Lang

  /** The caller's buffer after its first k bytes were overwritten by the result. */
  function Overwritten(before: seq<JByte>, src: seq<JByte>, k: nat): (after: seq<JByte>)
    requires k <= |before| && k <= |src|
    ensures |after| == |before|
    ensures forall i :: 0 <= i < k ==> after[i] == src[i]
    ensures forall i :: k <= i < |before| ==> after[i] == before[i]
  {
    src[..k] + before[k..]
  }

  /** How many bytes a copy loop `for (i = 0; i < n; i++) buffer[i] = src[i]` writes
      before it finishes or an index leaves the buffer or the result. */
  function Copied(bufferLength: nat, srcLength: nat, n: int): (k: nat)
    ensures k <= bufferLength && k <= srcLength
    ensures n <= bufferLength && n <= srcLength ==> k == if n < 0 then 0 else n
    ensures !(n <= bufferLength && n <= srcLength) ==> k == if bufferLength < srcLength then bufferLength else srcLength
  {
    if n <= 0 then 0
    else if n <= bufferLength && n <= srcLength then n
    else if bufferLength < srcLength then bufferLength
    else srcLength
  }

  /** The copy loop: it stops with an ArrayIndexOutOfBoundsException as soon as index i
      lies outside the buffer or the result, having copied the bytes before i. */
  method CopyPrefix(buffer: array<JByte>, src: seq<JByte>, n: int) returns (o: Outcome)
    modifies buffer
    ensures buffer[..] == Overwritten(old(buffer[..]), src, Copied(buffer.Length, |src|, n))
    ensures o == Pass <==> n <= buffer.Length && n <= |src|
    ensures o != Pass ==> o == Fail(IndexOutOfBounds)
  {
    var i := 0;
    while i < n
      invariant 0 <= i <= buffer.Length && i <= |src|
      invariant i <= n || i == 0
      invariant buffer[..] == Overwritten(old(buffer[..]), src, i)
    {
      if i >= |src| || i >= buffer.Length {
        return Fail(IndexOutOfBounds);
      }
      buffer[i] := src[i];
      i := i + 1;
    }
    return Pass;
  }
}
