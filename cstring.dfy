/**
 * C strings as the resource utility sees them: the characters before the
 * terminating NUL, and the two string helpers it calls, str_length and
 * str_copy (their platform source is not part of this model).
 */
module CString {

  /** The contents of a NUL-terminated string: no NUL inside. */
  type CStr = s: seq<char> | '\0' !in s

  /** str_length: the number of characters before the first NUL of a buffer. */
  function StrLength(s: seq<char>): (n: nat)
    ensures n <= |s|
    ensures forall i :: 0 <= i < n ==> s[i] != '\0'
    ensures n < |s| ==> s[n] == '\0'
  {
    if s == [] || s[0] == '\0' then 0 else 1 + StrLength(s[1..])
  }

  /** The length of a C string is the number of its characters. */
  lemma StrLengthOfCStr(s: CStr)
    ensures StrLength(s) == |s|
  {
  }

  /** A buffer that holds `c` followed by a NUL has string length |c|. */
  lemma StrLengthTerminated(buf: seq<char>, c: CStr)
    requires |c| < |buf| && buf[..|c|] == c && buf[|c|] == '\0'
    ensures StrLength(buf) == |c|
  {
  }

  /**
   * str_copy(&dst[offset], size, src), modelled on strncpy: the `size`
   * characters from `offset` on receive `src` and then NUL padding, cut off
   * at `size`; nothing outside that window is written.
   */
  method StrCopy(dst: array<char>, offset: nat, size: nat, src: CStr)
    requires offset + size <= dst.Length
    modifies dst
    ensures forall k :: 0 <= k < dst.Length ==>
      dst[k] == if offset <= k < offset + size
                then (if k - offset < |src| then src[k - offset] else '\0')
                else old(dst[k])
  {
    for j := 0 to size
      invariant forall k :: 0 <= k < dst.Length ==>
        dst[k] == if offset <= k < offset + j
                  then (if k - offset < |src| then src[k - offset] else '\0')
                  else old(dst[k])
    {
      dst[offset + j] := if j < |src| then src[j] else '\0';
    }
  }
}
