/**
 * Case- and separator-insensitive path comparison: FS_PathCmp and
 * FS_FilenameCompare (filesystem.c), and the extension test FS_IsExt.
 *
 * Both comparison routines walk the two strings one `char` at a time, map
 * 'a'..'z' to 'A'..'Z' and '\\' and ':' to '/', and stop at the first
 * difference or at the shared terminating NUL.  The characters are C `char`s,
 * signed on the x86 targets this server is built for, so a byte of 0x80 or
 * more compares below every ASCII character and below the terminator.
 */
module PathCompare {
  import opened CStrings

  /** The integer value C gives a `char` (signed, 8 bits). */
  function SignedCode(c: char): (v: int)
    requires c as int < 256
    ensures -128 <= v < 128
    ensures v == 0 <==> c == '\0'
  {
    if c as int < 128 then c as int else c as int - 256
  }

  /** The code both comparison loops compare for one character. */
  function Fold(c: char): (v: int)
    requires c as int < 256
    ensures v == 0 <==> c == '\0'
    ensures v != '\\' as int && v != ':' as int
    ensures !('a' as int <= v <= 'z' as int)
  {
    var c1 := SignedCode(c);
    var c2 := if 'a' as int <= c1 <= 'z' as int then c1 - ('a' as int - 'A' as int) else c1;
    if c2 == '\\' as int || c2 == ':' as int then '/' as int else c2
  }

  /** The codes the loops walk over: one per character, then the terminator's 0. */
  function FoldedCodes(s: string): (r: seq<int>)
    requires IsCString(s)
    ensures |r| == |s| + 1 && r[|s|] == 0
    ensures forall i :: 0 <= i < |s| ==> r[i] == Fold(s[i]) && r[i] != 0
  {
    seq(|s|, i requires 0 <= i < |s| => Fold(s[i])) + [0]
  }

  /** Lexicographic three-way comparison of code sequences: the first difference decides. */
  function Compare(x: seq<int>, y: seq<int>): (r: int)
    ensures -1 <= r <= 1
  {
    if x == [] && y == [] then 0
    else if x == [] then -1
    else if y == [] then 1
    else if x[0] < y[0] then -1
    else if x[0] > y[0] then 1
    else Compare(x[1..], y[1..])
  }

  lemma {:induction false} CompareReflexive(x: seq<int>)
    ensures Compare(x, x) == 0
  {
    if x != [] { CompareReflexive(x[1..]); }
  }

  lemma {:induction false} CompareAntisymmetric(x: seq<int>, y: seq<int>)
    ensures Compare(y, x) == -Compare(x, y)
  {
    if x != [] && y != [] && x[0] == y[0] { CompareAntisymmetric(x[1..], y[1..]); }
  }

  lemma {:induction false} CompareZeroIffEqual(x: seq<int>, y: seq<int>)
    ensures Compare(x, y) == 0 <==> x == y
  {
    if x != [] && y != [] && x[0] == y[0] {
      CompareZeroIffEqual(x[1..], y[1..]);
      if x[1..] == y[1..] { assert x == [x[0]] + x[1..] && y == [y[0]] + y[1..]; }
    } else if x == y {
      CompareReflexive(x);
    }
  }

  lemma {:induction false} CompareTransitive(x: seq<int>, y: seq<int>, z: seq<int>)
    requires Compare(x, y) <= 0 && Compare(y, z) <= 0
    ensures Compare(x, z) <= 0
  {
    if x != [] && y != [] && z != [] && x[0] == y[0] == z[0] {
      CompareTransitive(x[1..], y[1..], z[1..]);
    }
  }

  /** Compare only looks past a common prefix. */
  lemma {:induction false} CompareSkipsCommonPrefix(x: seq<int>, y: seq<int>, i: nat)
    requires i <= |x| && i <= |y| && x[..i] == y[..i]
    ensures Compare(x, y) == Compare(x[i..], y[i..])
  {
    if i > 0 {
      assert x[0] == x[..i][0] == y[..i][0] == y[0];
      assert x[1..][..i - 1] == x[1..i] == x[..i][1..] == y[..i][1..] == y[1..i] == y[1..][..i - 1];
      CompareSkipsCommonPrefix(x[1..], y[1..], i - 1);
      assert x[1..][i - 1..] == x[i..] && y[1..][i - 1..] == y[i..];
    }
  }

  /** Two paths name the same file: same length, same characters up to case and separator spelling. */
  predicate SamePath(a: string, b: string)
    requires IsCString(a) && IsCString(b)
  {
    |a| == |b| && forall i :: 0 <= i < |a| ==> Fold(a[i]) == Fold(b[i])
  }

  lemma FoldedCodesEqual(a: string, b: string)
    requires IsCString(a) && IsCString(b)
    ensures FoldedCodes(a) == FoldedCodes(b) <==> SamePath(a, b)
  {
    if SamePath(a, b) {
      assert forall i :: 0 <= i < |FoldedCodes(a)| ==> FoldedCodes(a)[i] == FoldedCodes(b)[i];
    }
  }

  /**
   * FS_PathCmp: -1, 0 or 1 as the first differing folded code of `s1` is
   * below or above that of `s2`, 0 when none differs.
   */
  method PathCmp(s1: string, s2: string) returns (r: int)
    requires IsCString(s1) && IsCString(s2)
    ensures r == Compare(FoldedCodes(s1), FoldedCodes(s2))
    ensures r == 0 <==> SamePath(s1, s2)
  {
    ghost var x, y := FoldedCodes(s1), FoldedCodes(s2);
    FoldedCodesEqual(s1, s2);
    CompareZeroIffEqual(x, y);
    var i := 0;
    while true
      invariant i <= |s1| && i <= |s2|
      invariant x[..i] == y[..i]
      decreases |s1| - i
    {
      var c1 := if i < |s1| then Fold(s1[i]) else 0;
      var c2 := if i < |s2| then Fold(s2[i]) else 0;
      assert c1 == x[i] && c2 == y[i];
      CompareSkipsCommonPrefix(x, y, i);
      if c1 < c2 {
        return -1;
      }
      if c1 > c2 {
        return 1;
      }
      assert x[..i + 1] == y[..i + 1] by {
        assert x[..i + 1] == x[..i] + [x[i]] && y[..i + 1] == y[..i] + [y[i]];
      }
      if c1 == 0 {
        assert i == |s1| && i == |s2|;
        assert x == x[..i + 1] && y == y[..i + 1];
        return 0;
      }
      i := i + 1;
    }
  }

  /** FS_FilenameCompare: 0 when the names are the same path, -1 otherwise (never 1). */
  method FilenameCompare(s1: string, s2: string) returns (r: int)
    requires IsCString(s1) && IsCString(s2)
    ensures r == 0 <==> SamePath(s1, s2)
    ensures r == -1 <==> !SamePath(s1, s2)
  {
    ghost var x, y := FoldedCodes(s1), FoldedCodes(s2);
    FoldedCodesEqual(s1, s2);
    var i := 0;
    while true
      invariant i <= |s1| && i <= |s2|
      invariant x[..i] == y[..i]
      decreases |s1| - i
    {
      var c1 := if i < |s1| then Fold(s1[i]) else 0;
      var c2 := if i < |s2| then Fold(s2[i]) else 0;
      assert c1 == x[i] && c2 == y[i];
      if c1 != c2 {
        return -1;
      }
      assert x[..i + 1] == y[..i + 1] by {
        assert x[..i + 1] == x[..i] + [x[i]] && y[..i + 1] == y[..i] + [y[i]];
      }
      if c1 == 0 {
        assert x == x[..i + 1] && y == y[..i + 1];
        return 0;
      }
      i := i + 1;
    }
  }

  /** FS_FilenameCompare reports equality exactly when FS_PathCmp does. */
  lemma FilenameCompareAgreesWithPathCmp(s1: string, s2: string)
    requires IsCString(s1) && IsCString(s2)
    ensures Compare(FoldedCodes(s1), FoldedCodes(s2)) == 0 <==> SamePath(s1, s2)
  {
    FoldedCodesEqual(s1, s2);
    CompareZeroIffEqual(FoldedCodes(s1), FoldedCodes(s2));
  }

  /** FS_PathCmp orders paths: reflexive, antisymmetric and transitive. */
  lemma PathOrderIsTotalPreorder(a: string, b: string, c: string)
    requires IsCString(a) && IsCString(b) && IsCString(c)
    ensures Compare(FoldedCodes(a), FoldedCodes(a)) == 0
    ensures Compare(FoldedCodes(b), FoldedCodes(a)) == -Compare(FoldedCodes(a), FoldedCodes(b))
    ensures Compare(FoldedCodes(a), FoldedCodes(b)) <= 0 && Compare(FoldedCodes(b), FoldedCodes(c)) <= 0
            ==> Compare(FoldedCodes(a), FoldedCodes(c)) <= 0
  {
    CompareReflexive(FoldedCodes(a));
    CompareAntisymmetric(FoldedCodes(a), FoldedCodes(b));
    if Compare(FoldedCodes(a), FoldedCodes(b)) <= 0 && Compare(FoldedCodes(b), FoldedCodes(c)) <= 0 {
      CompareTransitive(FoldedCodes(a), FoldedCodes(b), FoldedCodes(c));
    }
  }

  /** Upper- and lower-case spellings with either separator name the same path. */
  lemma MixedSpellingsAreSamePath()
    ensures IsCString("MP/X") && IsCString("mp\\x")
    ensures SamePath("MP/X", "mp\\x")
  {
  }

  /**
   * A byte above 0x7F is a negative `char`, so it sorts below the terminator:
   * a path compares greater than itself extended by such a byte.
   */
  lemma HighByteSortsBelowTerminator(s: string, c: char)
    requires IsCString(s) && 128 <= c as int < 256
    ensures IsCString(s + [c])
    ensures Compare(FoldedCodes(s), FoldedCodes(s + [c])) == 1
  {
    var x, y := FoldedCodes(s), FoldedCodes(s + [c]);
    assert x[..|s|] == y[..|s|];
    CompareSkipsCommonPrefix(x, y, |s|);
    assert x[|s|..] == [0];
  }

  /**
   * FS_IsExt(filename, ext, namelen): the `|ext|` characters that end at
   * `namelen`, and everything after them up to the terminator, equal `ext`
   * ignoring case.  `namelen` must not point past the terminator.
   */
  function IsExt(filename: string, ext: string, namelen: int): (r: bool)
    requires namelen <= |filename|
    ensures r ==> namelen == |filename|
    ensures namelen == |filename| ==>
              (r <==> |ext| <= |filename| && EqualsIgnoreCase(filename[|filename| - |ext|..], ext))
  {
    if |ext| > namelen then false
    else EqualsIgnoreCase(filename[namelen - |ext|..], ext)
  }
}
