/**
 * In-place separator rewriting (FS_ReplaceSeparators, FS_ConvertPath) and the
 * OS path builder FS_BuildOSPath (filesystem.c).
 *
 * A C string buffer is an `array<char>` holding the string's characters; its
 * terminating NUL sits just past the end of the array.
 */
module PathRewrite {
  import opened CStrings
  import opened PathCompare

  /** The host's directory separator (the Linux build). */
  const PATH_SEP: char := '/'

  /** What FS_ReplaceSeparators makes of one character. */
  function OsSeparator(c: char): char {
    if c == '/' || c == '\\' then PATH_SEP else c
  }

  /** What FS_ConvertPath makes of one character. */
  function QpathSeparator(c: char): char {
    if c == '\\' || c == ':' then '/' else c
  }

  /** A string with OsSeparator applied to every character. */
  function OsSeparators(s: string): (r: string)
    ensures |r| == |s|
    ensures forall i :: 0 <= i < |s| ==> r[i] == OsSeparator(s[i])
  {
    if s == [] then [] else [OsSeparator(s[0])] + OsSeparators(s[1..])
  }

  /** A string with QpathSeparator applied to every character. */
  function QpathSeparators(s: string): (r: string)
    ensures |r| == |s|
    ensures forall i :: 0 <= i < |s| ==> r[i] == QpathSeparator(s[i])
  {
    if s == [] then [] else [QpathSeparator(s[0])] + QpathSeparators(s[1..])
  }

  /** FS_ReplaceSeparators: every '/' and '\\' of the buffer becomes PATH_SEP, in place. */
  method ReplaceSeparators(path: array<char>)
    requires IsCString(path[..])
    modifies path
    ensures path[..] == OsSeparators(old(path[..]))
  {
    var s := 0;
    while s < path.Length
      invariant s <= path.Length
      invariant forall k :: 0 <= k < s ==> path[k] == OsSeparator(old(path[k]))
      invariant forall k :: s <= k < path.Length ==> path[k] == old(path[k])
    {
      if path[s] == '/' || path[s] == '\\' {
        path[s] := PATH_SEP;
      }
      s := s + 1;
    }
  }

  /** FS_ConvertPath: every '\\' and ':' of the buffer becomes '/', in place. */
  method ConvertPath(s: array<char>)
    requires IsCString(s[..])
    modifies s
    ensures s[..] == QpathSeparators(old(s[..]))
  {
    var i := 0;
    while i < s.Length
      invariant i <= s.Length
      invariant forall k :: 0 <= k < i ==> s[k] == QpathSeparator(old(s[k]))
      invariant forall k :: i <= k < s.Length ==> s[k] == old(s[k])
    {
      if s[i] == '\\' || s[i] == ':' {
        s[i] := '/';
      }
      i := i + 1;
    }
  }

  /**
   * Both rewrites keep the length, touch only separator characters, and are
   * idempotent.
   */
  lemma SeparatorRewritesChangeOnlySeparators(s: string)
    ensures |OsSeparators(s)| == |s| && |QpathSeparators(s)| == |s|
    ensures forall i :: 0 <= i < |s| && OsSeparators(s)[i] != s[i] ==> s[i] == '\\'
    ensures forall i :: 0 <= i < |s| && QpathSeparators(s)[i] != s[i] ==> s[i] == '\\' || s[i] == ':'
    ensures OsSeparators(OsSeparators(s)) == OsSeparators(s)
    ensures QpathSeparators(QpathSeparators(s)) == QpathSeparators(s)
  {
  }

  /** After FS_ConvertPath no '\\' or ':' remains. */
  lemma ConvertPathLeavesNoForeignSeparator(s: string)
    ensures forall i :: 0 <= i < |s| ==> QpathSeparators(s)[i] != '\\' && QpathSeparators(s)[i] != ':'
  {
  }

  /** FS_ConvertPath keeps a C string a C string, and FS_PathCmp sees no difference. */
  lemma ConvertPathComparesEqual(s: string)
    requires IsCString(s)
    ensures IsCString(QpathSeparators(s))
    ensures SamePath(QpathSeparators(s), s)
    ensures Compare(FoldedCodes(QpathSeparators(s)), FoldedCodes(s)) == 0
  {
    FilenameCompareAgreesWithPathCmp(QpathSeparators(s), s);
  }

  /** The game directory FS_BuildOSPath uses: the given one, or the current game's when empty. */
  function GameDir(game: string, gamedir: string): string {
    if game == [] then gamedir else game
  }

  /**
   * FS_BuildOSPath(base, game, qpath), with `fsGamedir` the current game
   * directory used when `game` is empty (a NULL `game` is the empty string
   * here).  The result is `base` followed by "/<game>/<qpath>" with every
   * separator in the part after `base` turned into PATH_SEP.
   */
  function BuildOSPath(base: string, game: string, qpath: string, fsGamedir: string): (r: string)
    requires IsCString(base) && IsCString(game) && IsCString(qpath) && IsCString(fsGamedir)
    ensures var g := GameDir(game, fsGamedir);
            && |r| == |base| + 1 + |g| + 1 + |qpath|
            && r[..|base|] == base
            && r[|base|] == PATH_SEP
            && r[|base| + 1..|base| + 1 + |g|] == OsSeparators(g)
            && r[|base| + 1 + |g|] == PATH_SEP
            && r[|base| + 2 + |g|..] == OsSeparators(qpath)
    ensures forall i :: |base| <= i < |r| ==> r[i] != '\\'
  {
    var temp := "/" + GameDir(game, fsGamedir) + "/" + qpath;
    base + OsSeparators(temp)
  }

  /** OsSeparators leaves '.' and ':' alone, so it keeps any ".." or "::". */
  lemma OsSeparatorsKeepsDotsAndColons(s: string, sub: string, i: int)
    requires sub == ".." || sub == "::"
    requires OccursAt(s, sub, i)
    ensures OccursAt(OsSeparators(s), sub, i)
  {
    assert s[i] == sub[0] && s[i + 1] == sub[1];
  }

  /** An occurrence inside a slice is an occurrence in the whole string. */
  lemma OccursInSlice(r: string, lo: int, hi: int, sub: string, i: int)
    requires 0 <= lo <= hi <= |r| && OccursAt(r[lo..hi], sub, i)
    ensures OccursAt(r, sub, lo + i)
  {
    var t, u := r[lo..hi], r[lo + i..lo + i + |sub|];
    assert forall k :: 0 <= k < |sub| ==> u[k] == t[i + k];
    assert u == t[i..i + |sub|];
  }

  /**
   * A ".." or "::" in the game directory or the qpath survives into the built
   * OS path, so FS_CreatePath refuses to create directories for it.
   */
  lemma BuildOSPathKeepsTraversal(base: string, game: string, qpath: string, fsGamedir: string, sub: string)
    requires IsCString(base) && IsCString(game) && IsCString(qpath) && IsCString(fsGamedir)
    requires sub == ".." || sub == "::"
    requires Contains(GameDir(game, fsGamedir), sub) || Contains(qpath, sub)
    ensures Contains(BuildOSPath(base, game, qpath, fsGamedir), sub)
  {
    var g := GameDir(game, fsGamedir);
    var r := BuildOSPath(base, game, qpath, fsGamedir);
    var lo, hi, t;
    if Contains(g, sub) {
      lo, hi, t := |base| + 1, |base| + 1 + |g|, g;
    } else {
      lo, hi, t := |base| + 2 + |g|, |r|, qpath;
    }
    assert r[lo..hi] == OsSeparators(t);
    var i :| 0 <= i <= |t| - |sub| && OccursAt(t, sub, i);
    OsSeparatorsKeepsDotsAndColons(t, sub, i);
    OccursInSlice(r, lo, hi, sub, i);
  }
}
