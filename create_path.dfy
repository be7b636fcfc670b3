/**
 * FS_CreatePath (filesystem.c): the traversal guard in front of directory
 * creation.  A path holding ".." or "::" anywhere is refused before any
 * directory is made; otherwise every directory prefix of the path is handed to
 * Sys_Mkdir, left to right, by cutting the buffer with a NUL at each separator
 * and putting the separator back afterwards.
 *
 * Sys_Mkdir is native: the model records the strings it is called with, in
 * call order.  Its result is ignored by FS_CreatePath, so it is not modelled.
 */
module CreatePath {
  import opened CStrings
  import opened PathRewrite

  /** The guard: the path holds a parent-directory step or a double colon. */
  predicate Traverses(s: string) {
    Contains(s, "..") || Contains(s, "::")
  }

  /**
   * The strings handed to Sys_Mkdir for the separators at indices 1 .. n-1 of
   * `s`, in call order: each is the part of `s` before that separator.
   */
  function DirPrefixes(s: string, n: nat): seq<string>
    requires n <= |s|
  {
    if n <= 1 then []
    else DirPrefixes(s, n - 1) + (if s[n - 1] == PATH_SEP then [s[..n - 1]] else [])
  }

  /** With the buffer cut by a NUL at `ofs`, a C routine sees exactly its first `ofs` characters. */
  lemma CutAtNul(s: string, ofs: nat)
    requires ofs < |s| && s[ofs] == '\0'
    requires forall k :: 0 <= k < ofs ==> s[k] != '\0'
    ensures UpToNul(s) == s[..ofs]
  {
  }

  /**
   * FS_CreatePath(OSPath).  `refused` is the routine's result (qtrue when it
   * refuses), `mkdirs` the Sys_Mkdir calls it made.  The buffer is the same
   * on return as on entry.  An empty path is excluded: the routine starts
   * scanning one character in, past the terminator of "".
   */
  method CreatePath(osPath: array<char>) returns (refused: bool, mkdirs: seq<string>)
    requires osPath.Length >= 1 && IsCString(osPath[..])
    modifies osPath
    ensures osPath[..] == old(osPath[..])
    ensures refused == Traverses(osPath[..])
    ensures refused ==> mkdirs == []
    ensures !refused ==> mkdirs == DirPrefixes(osPath[..], osPath.Length)
  {
    if Contains(osPath[..], "..") || Contains(osPath[..], "::") {
      return true, [];
    }
    ghost var s := osPath[..];
    mkdirs := [];
    var ofs := 1;
    while ofs < osPath.Length
      invariant 1 <= ofs <= osPath.Length
      invariant osPath[..] == s
      invariant mkdirs == DirPrefixes(s, ofs)
    {
      if osPath[ofs] == PATH_SEP {
        osPath[ofs] := '\0';
        CutAtNul(osPath[..], ofs);
        assert osPath[..][..ofs] == s[..ofs];
        mkdirs := mkdirs + [UpToNul(osPath[..])];
        osPath[ofs] := PATH_SEP;
        assert osPath[..] == s;
      }
      ofs := ofs + 1;
    }
    return false, mkdirs;
  }

  /**
   * Every Sys_Mkdir argument is a proper prefix of the path that ends just
   * before a separator at index 1 or later.
   */
  lemma {:induction false} DirPrefixesEndBeforeSeparators(s: string, n: nat)
    requires n <= |s|
    ensures forall k :: 0 <= k < |DirPrefixes(s, n)| ==>
              var p := DirPrefixes(s, n)[k]; 1 <= |p| < n && p == s[..|p|] && s[|p|] == PATH_SEP
  {
    if n > 1 {
      DirPrefixesEndBeforeSeparators(s, n - 1);
      var d := DirPrefixes(s, n - 1);
      assert DirPrefixes(s, n) == d + (if s[n - 1] == PATH_SEP then [s[..n - 1]] else []);
    }
  }

  /** The Sys_Mkdir calls go left to right: each argument is longer than the one before. */
  lemma {:induction false} DirPrefixesGrow(s: string, n: nat)
    requires n <= |s|
    ensures forall j, k :: 0 <= j < k < |DirPrefixes(s, n)| ==> |DirPrefixes(s, n)[j]| < |DirPrefixes(s, n)[k]|
  {
    if n > 1 {
      DirPrefixesGrow(s, n - 1);
      DirPrefixesEndBeforeSeparators(s, n - 1);
      var d := DirPrefixes(s, n - 1);
      assert DirPrefixes(s, n) == d + (if s[n - 1] == PATH_SEP then [s[..n - 1]] else []);
    }
  }

  /** Every separator at index 1 or later gets its Sys_Mkdir call. */
  lemma {:induction false} DirPrefixesCoverSeparators(s: string, n: nat)
    requires n <= |s|
    ensures forall i :: 1 <= i < n && s[i] == PATH_SEP ==> s[..i] in DirPrefixes(s, n)
  {
    if n > 1 {
      DirPrefixesCoverSeparators(s, n - 1);
      var d := DirPrefixes(s, n - 1);
      assert DirPrefixes(s, n) == d + (if s[n - 1] == PATH_SEP then [s[..n - 1]] else []);
    }
  }

  /** The directories created for a path that passes the guard pass it too. */
  lemma {:induction false} SafePathHasSafePrefixes(s: string)
    requires !Traverses(s)
    ensures forall p :: p in DirPrefixes(s, |s|) ==> !Traverses(p)
  {
    DirPrefixesEndBeforeSeparators(s, |s|);
    forall p | p in DirPrefixes(s, |s|)
      ensures !Traverses(p)
    {
      var k :| 0 <= k < |DirPrefixes(s, |s|)| && DirPrefixes(s, |s|)[k] == p;
      if Contains(p, "..") { ContainsInPrefix(s, |p|, ".."); }
      if Contains(p, "::") { ContainsInPrefix(s, |p|, "::"); }
    }
  }

  /**
   * A qpath holding ".." (such as "../../etc/passwd") yields an OS path the
   * guard refuses, whatever the base and game directories are: no directory
   * is created for it.
   */
  lemma ParentStepQpathIsRefused(base: string, game: string, qpath: string, fsGamedir: string)
    requires IsCString(base) && IsCString(game) && IsCString(qpath) && IsCString(fsGamedir)
    requires Contains(qpath, "..")
    ensures Traverses(BuildOSPath(base, game, qpath, fsGamedir))
  {
    BuildOSPathKeepsTraversal(base, game, qpath, fsGamedir, "..");
  }
}
