/**
 * Two small selections the patcher makes outside a run: the APK asset picked
 * from the latest release's asset list, and the leftover working directories
 * the cleanup command removes.
 */
module Selectors {
  import opened Wrappers
  import opened Text

  /** A release asset: its name and download URL ("" when the URL is missing). */
  datatype Asset = Asset(name: string, url: string)

  predicate IsMagiskApk(name: string) {
    StartsWith(name, "Magisk") && EndsWith(name, ".apk")
  }

  /** The first asset whose name looks like the Magisk APK. */
  function FirstApkAsset(assets: seq<Asset>): (r: Option<nat>)
    ensures r.None? <==> forall i :: 0 <= i < |assets| ==> !IsMagiskApk(assets[i].name)
    ensures r.Some? ==> r.value < |assets| && IsMagiskApk(assets[r.value].name)
    ensures r.Some? ==> forall j :: 0 <= j < r.value ==> !IsMagiskApk(assets[j].name)
    decreases |assets|
  {
    if |assets| == 0 then None
    else if IsMagiskApk(assets[0].name) then Some(0)
    else
      assert forall i :: 1 <= i < |assets| ==> assets[i] == assets[1..][i - 1];
      match FirstApkAsset(assets[1..])
      case None => None
      case Some(i) => Some(i + 1)
  }

  /**
   * The asset to download: the search stops at the first APK-looking asset, so
   * when that one has no URL nothing is downloaded, even if a later one has one.
   */
  function ApkToDownload(assets: seq<Asset>): (r: Option<Asset>)
    ensures r.Some? ==> r.value in assets && IsMagiskApk(r.value.name) && r.value.url != ""
    ensures r.Some? <==> exists i :: 0 <= i < |assets| && IsMagiskApk(assets[i].name) && assets[i].url != ""
                                      && forall j :: 0 <= j < i ==> !IsMagiskApk(assets[j].name)
  {
    match FirstApkAsset(assets)
    case None => None
    case Some(i) => if assets[i].url == "" then None else Some(assets[i])
  }

  const TempPrefix: string := "magisk_patch_"

  /** The entries of the temporary directory that are this program's working directories, in listing order. */
  function TempDirs(entries: seq<string>): (dirs: seq<string>)
    ensures |dirs| <= |entries|
    ensures forall d :: d in dirs <==> d in entries && StartsWith(d, TempPrefix)
    decreases |entries|
  {
    if |entries| == 0 then []
    else
      var rest := TempDirs(entries[1..]);
      assert forall d :: d in entries <==> d == entries[0] || d in entries[1..];
      if StartsWith(entries[0], TempPrefix) then [entries[0]] + rest else rest
  }

  /** What the cleanup command reports. */
  datatype CleanReport = NothingFound | Cleaned(removed: nat, failed: seq<string>)

  /** Remove each directory in turn; a failed removal is reported and the rest still go. */
  function RemoveEach(dirs: seq<string>, removable: string -> bool): (r: (nat, seq<string>))
    ensures r.0 + |r.1| == |dirs|
    ensures forall d :: d in r.1 <==> d in dirs && !removable(d)
    ensures (forall d :: d in dirs ==> removable(d)) ==> r.1 == []
    decreases |dirs|
  {
    if |dirs| == 0 then (0, [])
    else
      var (n, failed) := RemoveEach(dirs[1..], removable);
      assert forall d :: d in dirs <==> d == dirs[0] || d in dirs[1..];
      if removable(dirs[0]) then (n + 1, failed) else (n, [dirs[0]] + failed)
  }

  /**
   * The cleanup command: nothing to do when no entry carries the prefix;
   * otherwise every matching directory is tried, the count is of those removed,
   * and exactly the ones that could not be removed are reported.
   */
  function CleanTempFiles(entries: seq<string>, removable: string -> bool): (r: CleanReport)
    ensures r.NothingFound? <==> forall i :: 0 <= i < |entries| ==> !StartsWith(entries[i], TempPrefix)
    ensures r.Cleaned? ==> r.removed + |r.failed| == |TempDirs(entries)|
    ensures r.Cleaned? ==> forall d :: d in r.failed <==> d in entries && StartsWith(d, TempPrefix) && !removable(d)
    ensures r.Cleaned? && (forall d :: d in entries ==> removable(d)) ==> r.removed == |TempDirs(entries)|
  {
    var dirs := TempDirs(entries);
    if |dirs| == 0 then
      assert forall i :: 0 <= i < |entries| ==> entries[i] in entries;
      NothingFound
    else
      assert dirs[0] in entries;
      var (n, failed) := RemoveEach(dirs, removable);
      Cleaned(n, failed)
  }

  /** No entry is listed twice, as with the names `os.listdir` returns. */
  predicate Distinct(s: seq<string>) {
    forall i, j :: 0 <= i < j < |s| ==> s[i] != s[j]
  }

  /** Any two elements of `sub`, taken in order, stand at two positions of `s` in that same order. */
  ghost predicate InListingOrder(sub: seq<string>, s: seq<string>) {
    forall x, y :: 0 <= x < y < |sub| ==> PairInOrder(sub, s, x, y)
  }

  ghost predicate PairInOrder(sub: seq<string>, s: seq<string>, x: int, y: int)
    requires 0 <= x < y < |sub|
  {
    exists a, b :: 0 <= a < b < |s| && sub[x] == s[a] && sub[y] == s[b]
  }

  /** Positions in `s[1..]` are positions in `s`, one further on. */
  lemma InOrderShift(sub: seq<string>, s: seq<string>)
    requires |s| >= 1 && InListingOrder(sub, s[1..])
    ensures InListingOrder(sub, s)
  {
    forall x, y | 0 <= x < y < |sub|
      ensures PairInOrder(sub, s, x, y)
    {
      assert PairInOrder(sub, s[1..], x, y);
      var a, b :| 0 <= a < b < |s[1..]| && sub[x] == s[1..][a] && sub[y] == s[1..][b];
      assert sub[x] == s[a + 1] && sub[y] == s[b + 1];
    }
  }

  /** The first element of `s` goes in front of elements taken from the rest of `s`. */
  lemma InOrderCons(sub: seq<string>, s: seq<string>)
    requires |s| >= 1 && InListingOrder(sub, s)
    requires forall x :: 0 <= x < |sub| ==> sub[x] in s[1..]
    ensures InListingOrder([s[0]] + sub, s)
  {
    var longer := [s[0]] + sub;
    forall x, y | 0 <= x < y < |longer|
      ensures PairInOrder(longer, s, x, y)
    {
      assert longer[y] == sub[y - 1];
      if x == 0 {
        var b :| 0 <= b < |s[1..]| && s[1..][b] == sub[y - 1];
        assert longer[0] == s[0] && longer[y] == s[b + 1];
      } else {
        assert longer[x] == sub[x - 1];
        assert PairInOrder(sub, s, x - 1, y - 1);
      }
    }
  }

  /** Elements taken in order from a list without repeats are themselves without repeats. */
  lemma InOrderDistinct(sub: seq<string>, s: seq<string>)
    requires Distinct(s) && InListingOrder(sub, s)
    ensures Distinct(sub)
  {
    forall x, y | 0 <= x < y < |sub|
      ensures sub[x] != sub[y]
    {
      assert PairInOrder(sub, s, x, y);
    }
  }

  /** Listing order is kept through two selections. */
  lemma InOrderTransitive(a: seq<string>, b: seq<string>, c: seq<string>)
    requires InListingOrder(a, b) && InListingOrder(b, c)
    ensures InListingOrder(a, c)
  {
    forall x, y | 0 <= x < y < |a|
      ensures PairInOrder(a, c, x, y)
    {
      assert PairInOrder(a, b, x, y);
      var i, j :| 0 <= i < j < |b| && a[x] == b[i] && a[y] == b[j];
      assert PairInOrder(b, c, i, j);
    }
  }

  /** The working directories are taken in listing order, none twice. */
  lemma {:induction false} TempDirsInOrder(entries: seq<string>)
    ensures InListingOrder(TempDirs(entries), entries)
    decreases |entries|
  {
    if |entries| > 0 {
      var rest := TempDirs(entries[1..]);
      TempDirsInOrder(entries[1..]);
      InOrderShift(rest, entries);
      if StartsWith(entries[0], TempPrefix) {
        assert forall x :: 0 <= x < |rest| ==> rest[x] in rest;
        InOrderCons(rest, entries);
      }
    }
  }

  /** The failed directories are reported in listing order, none twice. */
  lemma {:induction false} RemoveEachInOrder(dirs: seq<string>, removable: string -> bool)
    ensures InListingOrder(RemoveEach(dirs, removable).1, dirs)
    decreases |dirs|
  {
    if |dirs| > 0 {
      var failed := RemoveEach(dirs[1..], removable).1;
      RemoveEachInOrder(dirs[1..], removable);
      InOrderShift(failed, dirs);
      if !removable(dirs[0]) {
        assert forall x :: 0 <= x < |failed| ==> failed[x] in failed;
        InOrderCons(failed, dirs);
      }
    }
  }

  /**
   * Over distinct directories, the count is exactly the number of removable
   * ones, and no failure is reported twice.
   */
  lemma {:induction false} RemoveEachCount(dirs: seq<string>, removable: string -> bool)
    requires Distinct(dirs)
    ensures RemoveEach(dirs, removable).0 == |set d | d in dirs && removable(d)|
    ensures Distinct(RemoveEach(dirs, removable).1)
    decreases |dirs|
  {
    RemoveEachInOrder(dirs, removable);
    InOrderDistinct(RemoveEach(dirs, removable).1, dirs);
    if |dirs| > 0 {
      var rest := dirs[1..];
      assert Distinct(rest) by {
        forall i, j | 0 <= i < j < |rest|
          ensures rest[i] != rest[j]
        {
          assert rest[i] == dirs[i + 1] && rest[j] == dirs[j + 1];
        }
      }
      RemoveEachCount(rest, removable);
      var now := set d | d in dirs && removable(d);
      var later := set d | d in rest && removable(d);
      assert dirs[0] !in rest;
      assert forall d :: d in dirs <==> d == dirs[0] || d in rest;
      if removable(dirs[0]) {
        assert now == {dirs[0]} + later;
      } else {
        assert now == later;
      }
    }
  }

  /**
   * Over a listing without repeats, as `os.listdir` gives: the count is exactly
   * the number of removable working directories, and the failures are reported
   * once each, in listing order.
   */
  lemma CleanTempFilesCount(entries: seq<string>, removable: string -> bool)
    requires Distinct(entries)
    ensures var r := CleanTempFiles(entries, removable);
            r.Cleaned? ==>
              && r.removed == |set d | d in entries && StartsWith(d, TempPrefix) && removable(d)|
              && Distinct(r.failed)
              && InListingOrder(r.failed, entries)
  {
    var dirs := TempDirs(entries);
    TempDirsInOrder(entries);
    InOrderDistinct(dirs, entries);
    RemoveEachCount(dirs, removable);
    RemoveEachInOrder(dirs, removable);
    InOrderTransitive(RemoveEach(dirs, removable).1, dirs, entries);
    assert (set d | d in dirs && removable(d)) == (set d | d in entries && StartsWith(d, TempPrefix) && removable(d));
  }
}
