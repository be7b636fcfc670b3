/**
 * C-string conventions shared by the filesystem model.
 *
 * A C string is modelled by its contents without the terminating NUL: a
 * `string` whose characters are all non-zero bytes.  The library routines the
 * filesystem calls (Q_stricmp, Q_stricmpn, strstr) are given their meaning
 * here as plain functions.
 */
module CStrings {

  /** The characters of a NUL-terminated byte string, terminator excluded. */
  predicate IsCString(s: string) {
    forall i :: 0 <= i < |s| ==> 0 < s[i] as int < 256
  }

  /** ASCII upper-casing, as the comparison routines apply it ('a'..'z' only). */
  function Upper(c: char): char {
    if 'a' <= c <= 'z' then (c as int - ('a' as int - 'A' as int)) as char else c
  }

  /** Q_stricmp(a, b) == 0: equal ignoring ASCII case. */
  predicate EqualsIgnoreCase(a: string, b: string) {
    |a| == |b| && forall i :: 0 <= i < |a| ==> Upper(a[i]) == Upper(b[i])
  }

  /** Q_stricmpn(prefix, s, |prefix|) == 0: `s` starts with `prefix`, ignoring ASCII case. */
  predicate StartsWithIgnoreCase(s: string, prefix: string) {
    |prefix| <= |s| && EqualsIgnoreCase(s[..|prefix|], prefix)
  }

  /** `sub` occurs in `s` starting at index `i`. */
  predicate OccursAt(s: string, sub: string, i: int) {
    0 <= i && i + |sub| <= |s| && s[i..i + |sub|] == sub
  }

  /** strstr(s, sub) != NULL for a non-empty `sub`. */
  predicate Contains(s: string, sub: string) {
    exists i | 0 <= i <= |s| - |sub| :: OccursAt(s, sub, i)
  }

  /** The string a C routine sees in a buffer: everything before the first NUL. */
  function UpToNul(s: string): (r: string)
    ensures |r| <= |s| && r == s[..|r|]
    ensures forall i :: 0 <= i < |r| ==> r[i] != '\0'
    ensures |r| < |s| ==> s[|r|] == '\0'
  {
    if s == [] || s[0] == '\0' then [] else [s[0]] + UpToNul(s[1..])
  }

  /** A substring of a prefix is a substring of the whole. */
  lemma ContainsInPrefix(s: string, n: nat, sub: string)
    requires n <= |s| && Contains(s[..n], sub)
    ensures Contains(s, sub)
  {
    var i :| 0 <= i <= n - |sub| && OccursAt(s[..n], sub, i);
    assert s[i..i + |sub|] == s[..n][i..i + |sub|];
    assert OccursAt(s, sub, i);
  }

  /** An occurrence stays one when something is put in front. */
  lemma OccursAfterPrefix(a: string, t: string, sub: string, i: int)
    requires OccursAt(t, sub, i)
    ensures OccursAt(a + t, sub, |a| + i)
  {
    assert (a + t)[|a| + i..|a| + i + |sub|] == t[i..i + |sub|];
  }
}
