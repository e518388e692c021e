/**
 * resource_make_name_impl: build a registry key by concatenating the non-null
 * fragments, in call order, into one freshly allocated NUL-terminated buffer.
 * The variadic argument list is a sequence of possibly-null C strings whose
 * length is num_args.
 */
module ResourceName {

  import opened Wrappers
  import opened CString

  /** The characters a fragment contributes: nothing for null. */
  function Fragment(arg: Option<CStr>): CStr {
    if arg.Some? then arg.value else []
  }

  /** The key: the non-null fragments, in order, without separator. */
  function Concat(args: seq<Option<CStr>>): CStr {
    if args == [] then [] else Fragment(args[0]) + Concat(args[1..])
  }

  /** The sum of the lengths of the non-null fragments. */
  function SumLengths(args: seq<Option<CStr>>): nat {
    if args == [] then 0 else |Fragment(args[0])| + SumLengths(args[1..])
  }

  /** The length the first loop adds up is exactly the length of the key. */
  lemma {:induction false} ConcatLength(args: seq<Option<CStr>>)
    ensures |Concat(args)| == SumLengths(args)
  {
    if args != [] {
      ConcatLength(args[1..]);
    }
  }

  /** The key of two argument lists in a row is the two keys in a row. */
  lemma {:induction false} ConcatAppend(a: seq<Option<CStr>>, b: seq<Option<CStr>>)
    ensures Concat(a + b) == Concat(a) + Concat(b)
  {
    if a == [] {
      assert a + b == b;
    } else {
      assert (a + b)[1..] == a[1..] + b;
      ConcatAppend(a[1..], b);
    }
  }

  /** Taking one more argument appends its fragment, and stays within the whole key. */
  lemma ConcatStep(args: seq<Option<CStr>>, i: nat)
    requires i < |args|
    ensures Concat(args[..i + 1]) == Concat(args[..i]) + Fragment(args[i])
    ensures |Concat(args[..i + 1])| <= |Concat(args)|
  {
    assert args[..i + 1] == args[..i] + [args[i]];
    ConcatAppend(args[..i], [args[i]]);
    assert args == args[..i + 1] + args[i + 1..];
    ConcatAppend(args[..i + 1], args[i + 1..]);
  }

  /** With no arguments, or only null ones, the key is empty. */
  lemma {:induction false} ConcatAllNull(args: seq<Option<CStr>>)
    requires forall i :: 0 <= i < |args| ==> args[i].None?
    ensures Concat(args) == []
  {
    if args != [] {
      assert forall i :: 0 <= i < |args[1..]| ==> args[1..][i] == args[i + 1];
      ConcatAllNull(args[1..]);
    }
  }

  /** Null fragments are skipped and the others joined without separator. */
  lemma ConcatExample()
    ensures Concat([Some("a"), None, Some("b")]) == "ab"
    ensures Concat([]) == ""
  {
  }

  /**
   * resource_make_name_impl. `allocFails` is whether mem_alloc fails. On
   * success the buffer is new, has room for the key and its terminator and
   * nothing more, and holds the key followed by NUL.
   */
  method MakeName(args: seq<Option<CStr>>, allocFails: bool) returns (result: Option<array<char>>)
    ensures allocFails <==> result.None?
    ensures result.Some? ==> fresh(result.value)
    ensures result.Some? ==> result.value.Length == SumLengths(args) + 1
    ensures result.Some? ==> result.value[..] == Concat(args) + ['\0']
  {
    // first loop: the total length of the non-null fragments
    var total := 0;
    for i := 0 to |args|
      invariant total == |Concat(args[..i])|
    {
      ConcatStep(args, i);
      if args[i].Some? {
        StrLengthOfCStr(args[i].value);
        total := total + StrLength(args[i].value);
      }
    }
    assert args[..|args|] == args;
    ConcatLength(args);
    total := total + 1;

    if allocFails {
      return None;
    }
    var buf := new char[total];

    // second loop: append each non-null fragment at the current end
    buf[0] := '\0';
    for i := 0 to |args|
      invariant |Concat(args[..i])| < total
      invariant buf[..|Concat(args[..i])|] == Concat(args[..i])
      invariant buf[|Concat(args[..i])|] == '\0'
    {
      ConcatStep(args, i);
      if args[i].Some? {
        ghost var done := Concat(args[..i]);
        var tmp := args[i].value;
        StrLengthTerminated(buf[..], done);
        var len := StrLength(buf[..]);
        StrCopy(buf, len, total - len, tmp);
        assert buf[..|done| + |tmp|] == done + tmp;
      }
    }
    assert buf[..] == buf[..|Concat(args)|] + [buf[|Concat(args)|]];
    return Some(buf);
  }
}
