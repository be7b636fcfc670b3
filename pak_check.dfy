/**
 * The pack-name check FS_VerifyPak (filesystem.c) that guards client
 * downloads: a requested name is accepted when it is the name of a mounted
 * pack, the current mod's "mod.ff", or a "usermaps/" name free of ".." and ';'.
 * All comparisons ignore ASCII case (Q_stricmp, Q_stricmpn).
 */
module PakCheck {
  import opened CStrings

  /** A mounted pack: its file name without extension and its game directory. */
  datatype Pack = Pack(pakBasename: string, pakGamename: string)

  /** One entry of the search path: a mounted pack or a plain directory. */
  datatype SearchPath = PackPath(pack: Pack) | DirPath(path: string)

  /** The name a pack is requested under: "<game>/<base>.iwd". */
  function PackIdentity(p: Pack): (r: string)
    ensures |r| == |p.pakGamename| + 1 + |p.pakBasename| + 4
    ensures r[..|p.pakGamename|] == p.pakGamename && r[|p.pakGamename|] == '/'
    ensures r[|r| - 4..] == ".iwd"
  {
    p.pakGamename + "/" + p.pakBasename + ".iwd"
  }

  /** The i-th search-path entry is a pack that `pak` names. */
  predicate MountedAt(searchPaths: seq<SearchPath>, i: int, pak: string) {
    0 <= i < |searchPaths| && searchPaths[i].PackPath?
    && EqualsIgnoreCase(PackIdentity(searchPaths[i].pack), pak)
  }

  predicate IsMountedPak(searchPaths: seq<SearchPath>, pak: string) {
    exists i | 0 <= i < |searchPaths| :: MountedAt(searchPaths, i, pak)
  }

  /** The current mod's fast file, "<fs_game>/mod.ff". */
  predicate IsModPak(fsGame: string, pak: string) {
    EqualsIgnoreCase(fsGame + "/mod.ff", pak)
  }

  /** A user map: under "usermaps/", with no parent-directory step and no ';'. */
  predicate IsUserMap(pak: string) {
    StartsWithIgnoreCase(pak, "usermaps/") && !Contains(pak, "..") && !Contains(pak, ";")
  }

  /** What FS_VerifyPak accepts. */
  predicate PakAccepted(searchPaths: seq<SearchPath>, fsGame: string, pak: string) {
    IsMountedPak(searchPaths, pak) || IsModPak(fsGame, pak) || IsUserMap(pak)
  }

  /** Every mounted pack is accepted under its own name, in any letter case. */
  lemma MountedPakAcceptedInAnyCase(searchPaths: seq<SearchPath>, i: nat, fsGame: string, pak: string)
    requires i < |searchPaths| && searchPaths[i].PackPath?
    requires EqualsIgnoreCase(PackIdentity(searchPaths[i].pack), pak)
    ensures PakAccepted(searchPaths, fsGame, pak)
  {
    assert MountedAt(searchPaths, i, pak);
  }

  /**
   * The mounted-pack test comes first and looks only at the name, so a
   * mounted pack whose name holds ".." is accepted even under "usermaps/".
   */
  lemma MountedPakAcceptedDespiteTraversal(fsGame: string)
    ensures var p := Pack("../mp_x", "usermaps");
            var pak := PackIdentity(p);
            StartsWithIgnoreCase(pak, "usermaps/") && Contains(pak, "..")
            && PakAccepted([PackPath(p)], fsGame, pak)
  {
    var p := Pack("../mp_x", "usermaps");
    var pak := PackIdentity(p);
    assert OccursAt(pak, "..", 9);
    assert MountedAt([PackPath(p)], 0, pak);
  }

  /** A "usermaps/" name that climbs out with ".." is refused unless it is mounted or the mod file. */
  lemma UsermapsTraversalRejected(searchPaths: seq<SearchPath>, fsGame: string, pak: string)
    requires Contains(pak, "..") || Contains(pak, ";")
    requires !IsMountedPak(searchPaths, pak) && !IsModPak(fsGame, pak)
    ensures !PakAccepted(searchPaths, fsGame, pak)
  {
  }

  /** A concrete climb out of "usermaps/" fails the user-map test although it has the prefix. */
  lemma UsermapsEscapeIsRefused()
    ensures StartsWithIgnoreCase("usermaps/../../server.cfg", "usermaps/")
    ensures !IsUserMap("usermaps/../../server.cfg")
  {
    assert OccursAt("usermaps/../../server.cfg", "..", 9);
  }

  /** Nothing else is accepted: a name outside all three classes is refused. */
  lemma UnlistedPakRejected(searchPaths: seq<SearchPath>, fsGame: string, pak: string)
    requires forall i :: 0 <= i < |searchPaths| && searchPaths[i].PackPath? ==>
               !EqualsIgnoreCase(PackIdentity(searchPaths[i].pack), pak)
    requires !IsModPak(fsGame, pak) && !StartsWithIgnoreCase(pak, "usermaps/")
    ensures !PakAccepted(searchPaths, fsGame, pak)
  {
  }
}
