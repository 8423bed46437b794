/**
 * Payload selection from the Magisk package (`extract_from_apk`): which archive
 * entries are copied into the working directory and under which logical name.
 * The package is its list of entry names plus the decoded version script; the
 * copying itself is left to the file system and not modelled.
 */
module ApkPayload {
  import opened Wrappers
  import opened Text
  import VersionCode

  /**
   * An opened package: its entry names in archive order, and the text of
   * `assets/util_functions.sh` (None when that entry is missing or is not UTF-8).
   */
  datatype Archive = Archive(entries: seq<string>, script: Option<string>)

  /** Why extraction returned nothing. */
  datatype ExtractError =
    | Unreadable
      // the package could not be opened as a ZIP archive
    | WriteFailed
      // a selected entry maps to "", "." or "..", which names a directory, so writing it raises
    | MissingInit(archFound: bool, available: seq<string>)
      // no `magiskinit`; whether the requested architecture folder was listed, and the folders that were

  const ExcludedLibraries: seq<string> := ["libmagiskboot.so", "libbusybox.so", "libmagiskpolicy.so"]

  /** Packages whose version code is below this still ship a separate 32-bit folder. */
  const CompatVersionLimit: nat := 28000

  const InitName: string := "magiskinit"
  const StubName: string := "stub.apk"

  predicate IsLibraryFile(file: string) {
    StartsWith(file, "lib") && EndsWith(file, ".so")
  }

  /** `file_name.replace('lib', '').replace('.so', '')`. */
  function LogicalName(file: string): string {
    RemoveAll(RemoveAll(file, "lib"), ".so")
  }

  /** The two primary/32-bit folder pairs the compatibility rule knows. */
  predicate CompatPair(arch: string, parent: string) {
    || (arch == "arm64-v8a" && parent == "armeabi-v7a")
    || (arch == "x86_64" && parent == "x86")
  }

  /** The version code the package declares; 0 when its script is unavailable. */
  function ScriptVersion(script: Option<string>): nat {
    match script
    case None => 0
    case Some(text) => VersionCode.ParseVersionCode(text)
  }

  /** The logical name under which one entry is extracted, if it is extracted at all. */
  function Pick(entry: string, arch: string, version: nat): Option<string> {
    var parts := Split(entry, '/');
    if |parts| < 2 then None
    else
      var file := parts[|parts| - 1];
      var parent := parts[|parts| - 2];
      if IsLibraryFile(file) then
        if file in ExcludedLibraries then None
        else if parent == arch then Some(LogicalName(file))
        else if version < CompatVersionLimit && file == "libmagisk32.so" && CompatPair(arch, parent) then Some("magisk32")
        else None
      else if file == StubName then Some(StubName)
      else None
  }

  /** The per-entry decisions of the extraction loop, in archive order. */
  function Picks(entries: seq<string>, arch: string, version: nat): (names: seq<Option<string>>)
    ensures |names| == |entries|
  {
    seq(|entries|, i requires 0 <= i < |entries| => Pick(entries[i], arch, version))
  }

  /** Iteration `i` writes logical name `k`. */
  ghost predicate Writes(names: seq<Option<string>>, i: int, k: string) {
    0 <= i < |names| && names[i] == Some(k)
  }

  /** Iteration `i` writes `k` and no later one does, so its write is the one that stays. */
  ghost predicate LastWrite(names: seq<Option<string>>, i: int, k: string) {
    Writes(names, i, k) && forall j :: i < j < |names| ==> !Writes(names, j, k)
  }

  /**
   * `m` is the dictionary the loop leaves behind: a name is present iff some
   * iteration writes it, and it maps to the entry of the LAST iteration that does.
   */
  ghost predicate Describes(m: map<string, string>, entries: seq<string>, names: seq<Option<string>>)
    requires |entries| == |names|
  {
    && (forall k :: k in m <==> exists i :: Writes(names, i, k))
    && (forall k :: k in m ==> exists i :: LastWrite(names, i, k) && entries[i] == m[k])
  }

  lemma PrefixWrites(names: seq<Option<string>>, n: nat)
    requires n <= |names|
    ensures forall i, k :: 0 <= i < n ==> (Writes(names[..n], i, k) <==> Writes(names, i, k))
  {
    forall i, k | 0 <= i < n
      ensures Writes(names[..n], i, k) <==> Writes(names, i, k)
    {
      assert names[..n][i] == names[i];
    }
  }

  /** One more iteration: its write, if any, replaces what was stored under its name. */
  lemma {:induction false} AssignStep(entries: seq<string>, names: seq<Option<string>>, m: map<string, string>)
    requires |entries| == |names| > 0
    requires Describes(m, entries[..|entries| - 1], names[..|names| - 1])
    ensures var n := |names| - 1;
            Describes(if names[n].Some? then m[names[n].value := entries[n]] else m, entries, names)
  {
    var n := |names| - 1;
    var m' := if names[n].Some? then m[names[n].value := entries[n]] else m;
    PrefixWrites(names, n);
    forall k
      ensures k in m' <==> exists i :: Writes(names, i, k)
    {
      if k in m' && names[n] != Some(k) {
        var i :| Writes(names[..n], i, k);
        assert Writes(names, i, k);
      } else if k in m' {
        assert Writes(names, n, k);
      }
      if exists i :: Writes(names, i, k) {
        var i :| Writes(names, i, k);
        if i < n {
          assert Writes(names[..n], i, k);
        }
      }
    }
    forall k | k in m'
      ensures exists i :: LastWrite(names, i, k) && entries[i] == m'[k]
    {
      if names[n] == Some(k) {
        assert LastWrite(names, n, k);
      } else {
        var i :| LastWrite(names[..n], i, k) && entries[..n][i] == m[k];
        assert LastWrite(names, i, k);
      }
    }
  }

  /** The dictionary built by assigning `entries[i]` under each written name in turn. */
  function Assign(entries: seq<string>, names: seq<Option<string>>): (m: map<string, string>)
    requires |entries| == |names|
    ensures Describes(m, entries, names)
    decreases |entries|
  {
    if |entries| == 0 then map[]
    else
      var n := |entries| - 1;
      var m := Assign(entries[..n], names[..n]);
      AssignStep(entries, names, m);
      if names[n].Some? then m[names[n].value := entries[n]] else m
  }

  /** `lib/<arch>/<file>.so` entries with exactly three segments name an available architecture. */
  function LibArch(entry: string): Option<string> {
    if StartsWith(entry, "lib/") && EndsWith(entry, ".so") then
      var parts := Split(entry, '/');
      if |parts| == 3 then Some(parts[1]) else None
    else None
  }

  /** The diagnostic's architecture list: every listed folder once, in first-seen order. */
  function AvailableArchs(entries: seq<string>): (archs: seq<string>)
    ensures forall a :: a in archs <==> exists i :: 0 <= i < |entries| && LibArch(entries[i]) == Some(a)
    ensures forall i, j :: 0 <= i < j < |archs| ==> archs[i] != archs[j]
    decreases |entries|
  {
    if |entries| == 0 then []
    else
      var n := |entries| - 1;
      var archs := AvailableArchs(entries[..n]);
      assert forall i :: 0 <= i < n ==> entries[..n][i] == entries[i];
      match LibArch(entries[n])
      case None => archs
      case Some(a) => if a in archs then archs else archs + [a]
  }

  /** A logical name that names the working directory or its parent, so cannot be written. */
  predicate Unwritable(name: string) {
    name == "" || name == "." || name == ".."
  }

  /**
   * `extract_from_apk`: the payload map, or why there is none. Succeeds exactly
   * when some entry yields `magiskinit` and no selected entry is unwritable.
   */
  function ExtractFromApk(apk: Option<Archive>, arch: string): (r: Result<map<string, string>, ExtractError>)
    ensures apk.None? ==> r == Failure(Unreadable)
    ensures apk.Some? ==>
              var names := Picks(apk.value.entries, arch, ScriptVersion(apk.value.script));
              && (r.Success? <==>
                    && (exists i :: Writes(names, i, InitName))
                    && (forall i, k :: Writes(names, i, k) ==> !Unwritable(k)))
              && (r.Success? ==> Describes(r.value, apk.value.entries, names))
              && (r.Failure? ==> !r.error.Unreadable?)
              && (r.Failure? ==> (r.error.WriteFailed? <==> exists i, k :: Writes(names, i, k) && Unwritable(k)))
    ensures r.Success? ==> InitName in r.value
    ensures r.Success? ==> forall k :: k in r.value ==> '/' in r.value[k]
    ensures r.Failure? && r.error.MissingInit? ==>
              && apk.Some?
              && r.error.available == AvailableArchs(apk.value.entries)
              && (r.error.archFound <==> arch in AvailableArchs(apk.value.entries))
  {
    match apk
    case None => Failure(Unreadable)
    case Some(archive) =>
      var names := Picks(archive.entries, arch, ScriptVersion(archive.script));
      var m := Assign(archive.entries, names);
      if "" in m || "." in m || ".." in m then Failure(WriteFailed)
      else if InitName !in m then
        var available := AvailableArchs(archive.entries);
        Failure(MissingInit(arch in available, available))
      else
        assert forall k :: k in m ==> '/' in m[k] by {
          forall k | k in m
            ensures '/' in m[k]
          {
            var i :| LastWrite(names, i, k) && archive.entries[i] == m[k];
            PickNeedsTwoSegments(archive.entries[i], arch, ScriptVersion(archive.script));
          }
        }
        Success(m)
  }

  /** Entries with fewer than two path segments are never extracted. */
  lemma PickNeedsTwoSegments(entry: string, arch: string, version: nat)
    ensures Pick(entry, arch, version).Some? ==> '/' in entry
  {
  }

  /** The path `d1/.../dn/parent/file` as the archive spells it. */
  function PathOf(dirs: seq<string>, parent: string, file: string): string {
    Join(dirs + [parent, file], '/')
  }

  predicate Segment(s: string) {
    '/' !in s
  }

  lemma SplitPath(dirs: seq<string>, parent: string, file: string)
    requires forall i :: 0 <= i < |dirs| ==> Segment(dirs[i])
    requires Segment(parent) && Segment(file)
    ensures Split(PathOf(dirs, parent, file), '/') == dirs + [parent, file]
  {
    var parts := dirs + [parent, file];
    assert forall i :: 0 <= i < |parts| ==> '/' !in parts[i];
    SplitJoin(parts, '/');
  }

  /**
   * A library in the requested architecture's folder, at any depth, is extracted
   * under its name with every `lib` and `.so` removed, unless it is excluded.
   */
  lemma PrimaryLibraryExtracted(dirs: seq<string>, arch: string, file: string, version: nat)
    requires forall i :: 0 <= i < |dirs| ==> Segment(dirs[i])
    requires Segment(arch) && Segment(file)
    requires IsLibraryFile(file) && file !in ExcludedLibraries
    ensures Pick(PathOf(dirs, arch, file), arch, version) == Some(LogicalName(file))
  {
    SplitPath(dirs, arch, file);
  }

  /** The boot tool, busybox and the policy tool are never extracted, whatever their folder. */
  lemma ExcludedNeverExtracted(dirs: seq<string>, parent: string, file: string, arch: string, version: nat)
    requires forall i :: 0 <= i < |dirs| ==> Segment(dirs[i])
    requires Segment(parent) && Segment(file)
    requires file in ExcludedLibraries
    ensures Pick(PathOf(dirs, parent, file), arch, version) == None
  {
    SplitPath(dirs, parent, file);
  }

  /**
   * The 32-bit compatibility rule: a library from a folder other than the
   * requested one is extracted iff the package is older than 28000, the file is
   * `libmagisk32.so` and the folders form one of the two known pairs; it is then
   * extracted as `magisk32`.
   */
  lemma CompatRule(dirs: seq<string>, parent: string, file: string, arch: string, version: nat)
    requires forall i :: 0 <= i < |dirs| ==> Segment(dirs[i])
    requires Segment(parent) && Segment(file)
    requires IsLibraryFile(file) && file !in ExcludedLibraries && parent != arch
    ensures Pick(PathOf(dirs, parent, file), arch, version).Some?
            <==> version < CompatVersionLimit && file == "libmagisk32.so" && CompatPair(arch, parent)
    ensures Pick(PathOf(dirs, parent, file), arch, version).Some?
            ==> Pick(PathOf(dirs, parent, file), arch, version) == Some("magisk32")
  {
    SplitPath(dirs, parent, file);
  }

  /** `stub.apk` below any folder is extracted, whatever the architecture. */
  lemma StubExtracted(dirs: seq<string>, parent: string, arch: string, version: nat)
    requires forall i :: 0 <= i < |dirs| ==> Segment(dirs[i])
    requires Segment(parent)
    ensures Pick(PathOf(dirs, parent, StubName), arch, version) == Some(StubName)
  {
    SplitPath(dirs, parent, StubName);
  }

  /** A package without a readable version script counts as version 0, so the compatibility rule applies. */
  lemma MissingScriptEnablesCompat(dirs: seq<string>, arch: string)
    requires forall i :: 0 <= i < |dirs| ==> Segment(dirs[i])
    requires arch == "arm64-v8a"
    ensures Pick(PathOf(dirs, "armeabi-v7a", "libmagisk32.so"), arch, ScriptVersion(None)) == Some("magisk32")
  {
    SplitPath(dirs, "armeabi-v7a", "libmagisk32.so");
  }

  predicate FreeOf(s: string, pat: string) {
    forall i :: 0 <= i < |s| ==> !OccursAt(s, pat, i)
  }

  lemma FreeOfMissingChar(s: string, pat: string, c: char)
    requires c in pat && c !in s
    ensures FreeOf(s, pat)
  {
  }

  /** `lib<core>.so` maps to `<core>` when `core` itself holds no `lib` and no `.so`. */
  lemma {:induction false} LogicalNameOfCore(core: string)
    requires FreeOf(core, "lib") && FreeOf(core, ".so")
    ensures LogicalName("lib" + core + ".so") == core
  {
    var tail := core + ".so";
    assert ("lib" + core + ".so")[..3] == "lib";
    assert ("lib" + core + ".so")[3..] == tail;
    forall i | 0 <= i < |tail|
      ensures !OccursAt(tail, "lib", i)
    {
      if i + 3 <= |core| {
        assert tail[i..i + 3] == core[i..i + 3];
        assert !OccursAt(core, "lib", i);
      } else if i + 3 <= |tail| {
        assert tail[i + 2] == ".so"[i + 2 - |core|];
        assert tail[i..i + 3][2] == tail[i + 2];
      }
    }
    RemoveAllAbsent(tail, "lib");
    forall i | 0 <= i < |core|
      ensures !OccursAt(core + ".so", ".so", i)
    {
      if i + 3 <= |core| {
        assert tail[i..i + 3] == core[i..i + 3];
        assert !OccursAt(core, ".so", i);
      } else if i + 1 == |core| {
        assert tail[i + 1] == '.';
        assert tail[i..i + 3][1] == tail[i + 1];
      } else {
        assert tail[i + 2] == '.';
        assert tail[i..i + 3][2] == tail[i + 2];
      }
    }
    RemoveAllKeepsPrefix(core, ".so", ".so");
    assert RemoveAll(".so", ".so") == [];
  }

  lemma CoreName(core: string)
    requires 'b' !in core && '.' !in core
    ensures LogicalName("lib" + core + ".so") == core
  {
    FreeOfMissingChar(core, "lib", 'b');
    FreeOfMissingChar(core, ".so", '.');
    LogicalNameOfCore(core);
  }

  /** The cores of the library files a current package ships. */
  const ShippedCores: seq<string> := ["magisk", "magisk32", "magisk64", "magiskinit", "init-ld"]

  /** The file names of a current package map to the names the patch steps look for. */
  lemma PackageNames()
    ensures forall i :: 0 <= i < |ShippedCores| ==> LogicalName("lib" + ShippedCores[i] + ".so") == ShippedCores[i]
  {
    forall i | 0 <= i < |ShippedCores|
      ensures LogicalName("lib" + ShippedCores[i] + ".so") == ShippedCores[i]
    {
      CoreName(ShippedCores[i]);
    }
  }

  /**
   * The scenario of a 27000 package for `arm64-v8a`: `magiskinit` from the
   * primary folder and `magisk32` borrowed from `armeabi-v7a`.
   */
  lemma OldPackageBorrowsMagisk32(dirs: seq<string>, script: string)
    requires forall i :: 0 <= i < |dirs| ==> Segment(dirs[i])
    requires ScriptVersion(Some(script)) == 27000
    ensures var init := PathOf(dirs, "arm64-v8a", "libmagiskinit.so");
            var compat := PathOf(dirs, "armeabi-v7a", "libmagisk32.so");
            ExtractFromApk(Some(Archive([init, compat], Some(script))), "arm64-v8a")
            == Success(map["magiskinit" := init, "magisk32" := compat])
  {
    var init := PathOf(dirs, "arm64-v8a", "libmagiskinit.so");
    var compat := PathOf(dirs, "armeabi-v7a", "libmagisk32.so");
    ScenarioInit(dirs);
    ScenarioCompat(dirs);
    PicksOfTwo(init, compat, "arm64-v8a", 27000);
    ScenarioExtract(init, compat, script);
  }

  lemma ScenarioInit(dirs: seq<string>)
    requires forall i :: 0 <= i < |dirs| ==> Segment(dirs[i])
    ensures Pick(PathOf(dirs, "arm64-v8a", "libmagiskinit.so"), "arm64-v8a", 27000) == Some("magiskinit")
  {
    PrimaryLibraryExtracted(dirs, "arm64-v8a", "libmagiskinit.so", 27000);
    CoreName("magiskinit");
    assert "lib" + "magiskinit" + ".so" == "libmagiskinit.so";
  }

  lemma ScenarioCompat(dirs: seq<string>)
    requires forall i :: 0 <= i < |dirs| ==> Segment(dirs[i])
    ensures Pick(PathOf(dirs, "armeabi-v7a", "libmagisk32.so"), "arm64-v8a", 27000) == Some("magisk32")
  {
    CompatRule(dirs, "armeabi-v7a", "libmagisk32.so", "arm64-v8a", 27000);
  }

  lemma PicksOfTwo(e0: string, e1: string, arch: string, version: nat)
    ensures Picks([e0, e1], arch, version) == [Pick(e0, arch, version), Pick(e1, arch, version)]
  {
  }

  lemma ScenarioExtract(init: string, compat: string, script: string)
    requires ScriptVersion(Some(script)) == 27000
    requires Picks([init, compat], "arm64-v8a", 27000) == [Some("magiskinit"), Some("magisk32")]
    ensures ExtractFromApk(Some(Archive([init, compat], Some(script))), "arm64-v8a")
            == Success(map["magiskinit" := init, "magisk32" := compat])
  {
    AssignTwo(init, compat, "magiskinit", "magisk32");
    assert map["magiskinit" := init]["magisk32" := compat] == map["magiskinit" := init, "magisk32" := compat];
  }

  lemma AssignTwo(e0: string, e1: string, k0: string, k1: string)
    ensures Assign([e0, e1], [Some(k0), Some(k1)]) == map[k0 := e0][k1 := e1]
  {
    assert [e0, e1][..1] == [e0];
    assert [Some(k0), Some(k1)][..1] == [Some(k0)];
    assert [e0][..0] == [];
    assert [Some(k0)][..0] == [];
    assert Assign([e0], [Some(k0)]) == map[k0 := e0];
  }
}
