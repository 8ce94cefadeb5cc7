/**
 * The C string functions the module relies on (strchr, strstr, strncmp and
 * the NUL terminator of a sysfs buffer), over `string`. Each `char` of a
 * string stands for one byte.
 */
module CStrings {
  import opened SpeedBump

  /** A C string cannot hold its own terminator. */
  predicate NoNul(s: string) {
    '\0' !in s
  }

  /** strchr: the index of the first occurrence of `c` in `s`, if any. */
  function StrChr(s: string, c: char): (r: Option<nat>)
    ensures r.Some? ==> r.value < |s| && s[r.value] == c && c !in s[..r.value]
    ensures r.None? <==> c !in s
  {
    if s == [] then None
    else if s[0] == c then Some(0)
    else
      match StrChr(s[1..], c)
      case None => None
      case Some(k) =>
        assert s[..k + 1] == [s[0]] + s[1..][..k];
        Some(k + 1)
  }

  /** `pat` occurs in `s` starting at index `k`. */
  predicate OccursAt(s: string, pat: string, k: nat) {
    k + |pat| <= |s| && s[k..k + |pat|] == pat
  }

  /** strstr, with the result as an index: the first occurrence of `pat` in `s`. */
  function StrStr(s: string, pat: string): (r: Option<nat>)
    ensures r.Some? ==> OccursAt(s, pat, r.value)
    ensures r.Some? ==> forall k: nat :: k < r.value ==> !OccursAt(s, pat, k)
    ensures r.None? <==> forall k: nat :: k <= |s| ==> !OccursAt(s, pat, k)
  {
    StrStrFrom(s, pat, 0)
  }

  function StrStrFrom(s: string, pat: string, i: nat): (r: Option<nat>)
    requires i <= |s|
    ensures r.Some? ==> i <= r.value && OccursAt(s, pat, r.value)
    ensures r.Some? ==> forall k: nat :: i <= k < r.value ==> !OccursAt(s, pat, k)
    ensures r.None? <==> forall k: nat :: i <= k <= |s| ==> !OccursAt(s, pat, k)
    decreases |s| - i
  {
    if OccursAt(s, pat, i) then Some(i)
    else if i == |s| then None
    else StrStrFrom(s, pat, i + 1)
  }

  /** The C string a NUL-terminated buffer holds: everything before the first NUL. */
  function CStr(buf: seq<char>): (r: string)
    ensures r <= buf && NoNul(r)
    ensures |r| < |buf| ==> buf[|r|] == '\0'
  {
    match StrChr(buf, '\0')
    case None => buf
    case Some(k) => buf[..k]
  }

  /** The byte a C string holds at index `i`, its terminator at the end. */
  function At(s: string, i: nat): char {
    if i < |s| then s[i] else '\0'
  }

  /**
   * strncmp: compares at most `n` bytes as unsigned chars, stopping at the
   * first difference or terminator; the sign of the result.
   */
  function StrNCmp(a: string, b: string, n: nat): (r: int)
    requires NoNul(a) && NoNul(b)
    ensures -1 <= r <= 1
    ensures r == 0 <==> a[..Min(n, |a|)] == b[..Min(n, |b|)]
  {
    if n == 0 then 0
    else if At(a, 0) != At(b, 0) then
      assert a[..Min(n, |a|)] != b[..Min(n, |b|)] by {
        if |a| > 0 && |b| > 0 {
          assert a[..Min(n, |a|)][0] != b[..Min(n, |b|)][0];
        }
      }
      if At(a, 0) < At(b, 0) then -1 else 1
    else if At(a, 0) == '\0' then 0
    else
      assert a[..Min(n, |a|)] == [a[0]] + a[1..][..Min(n - 1, |a| - 1)];
      assert b[..Min(n, |b|)] == [b[0]] + b[1..][..Min(n - 1, |b| - 1)];
      StrNCmp(a[1..], b[1..], n - 1)
  }

  function Min(x: int, y: int): int {
    if x <= y then x else y
  }
}
