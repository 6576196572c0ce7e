/**
 NUL-terminated strings and the two scanning loops the file layer uses on them.
 */
module CStrings {
  import opened Options

  const NUL: char := '\0'

  /** The characters before the terminator. */
  type CString = s: string | NUL !in s

  /** A char pointer: NULL, or the start of a string. */
  type CharPtr = Option<CString>

  /** The memory a string occupies. Reading outside it is an error. */
  function Memory(s: CString): string {
    s + [NUL]
  }

  function Take(s: string, n: nat): string {
    if n <= |s| then s[..n] else s
  }

  /** What a bounded comparison looks at; a negative bound means no bound. */
  function Compared(s: string, len: int): string {
    if len < 0 then s else Take(s, len)
  }

  method StrLen(str: CharPtr) returns (len: nat)
    ensures len == if str.None? then 0 else |str.value|
  {
    if str.None? { return 0; }
    var m := Memory(str.value);
    len := 0;
    while m[len] != NUL
      invariant len <= |str.value|
      decreases |m| - len
    {
      len := len + 1;
    }
  }

  method StrNCmp(a: CharPtr, b: CharPtr, len: int) returns (r: int)
    ensures r == 0 <==> a.None? || b.None? || Compared(a.value, len) == Compared(b.value, len)
  {
    if a.None? || b.None? { return 0; }
    var ma, mb := Memory(a.value), Memory(b.value);
    var cur := 0;
    while cur != len
      invariant cur <= |a.value| && cur <= |b.value|
      invariant len >= 0 ==> cur <= len
      invariant a.value[..cur] == b.value[..cur]
      decreases |a.value| - cur
    {
      if ma[cur] != mb[cur] {
        Differ(a.value, b.value, cur, len);
        return 1;
      }
      if ma[cur] == NUL && mb[cur] == NUL { return 0; }
      if ma[cur] == NUL || mb[cur] == NUL { return 1; }
      cur := cur + 1;
    }
    return 0;
  }

  /** A mismatch inside the bound, terminators included, separates the compared parts. */
  lemma Differ(a: CString, b: CString, cur: nat, len: int)
    requires cur <= |a| && cur <= |b| && cur != len && (len >= 0 ==> cur <= len)
    requires Memory(a)[cur] != Memory(b)[cur]
    ensures Compared(a, len) != Compared(b, len)
  {
  }
}
