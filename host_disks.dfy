/**
 * Data-volume discovery: the directories directly under the host-root mount
 * `/host/`, except the two reserved ones, become the disks the collector
 * reports on (`findDataFolders` and the `path.basename` mapping after it).
 */
module HostDisks {
  import opened Wrappers
  import opened Catalog

  /** A name `readdirSync` can return: not empty, not `.` or `..`, without `/`. */
  type EntryName = n: string | n != "" && n != "." && n != ".." && '/' !in n witness "d"

  /** One `fs.Dirent` of the listing. */
  datatype DirEntry = DirEntry(name: EntryName, isDirectory: bool)

  /** What the file system says about `/host/`: absent (`existsSync` is false),
      present but `readdirSync` throws, or its entries in listing order. */
  datatype HostRoot = Missing | Unlistable | Listed(entries: seq<DirEntry>)

  const BaseDir := "/host/"
  const ConfigDir := "sysfolder"
  const MetadataDir := "etc"

  /** The test a listing entry has to pass to count as a data volume. */
  predicate Eligible(e: DirEntry) {
    e.isDirectory && e.name != ConfigDir && e.name != MetadataDir
  }

  /** `path.join('/host/', name)` for a name without separators or dot segments. */
  function HostPath(name: EntryName): string
  {
    BaseDir + name
  }

  /** The absolute paths of the eligible entries, in listing order. */
  function EligiblePaths(es: seq<DirEntry>): (r: seq<string>)
    ensures |r| <= |es|
    decreases |es|
  {
    if |es| == 0 then []
    else EligiblePaths(es[..|es| - 1]) + (if Eligible(es[|es| - 1]) then [HostPath(es[|es| - 1].name)] else [])
  }

  /** The names of the eligible entries, in listing order. */
  function EligibleNames(es: seq<DirEntry>): (r: seq<string>)
    decreases |es|
  {
    if |es| == 0 then []
    else EligibleNames(es[..|es| - 1]) + (if Eligible(es[|es| - 1]) then [es[|es| - 1].name] else [])
  }

  /** `findDataFolders()`: no mount point is no disks; a listing that fails throws. */
  function DataFolders(root: HostRoot): Result<seq<string>, CollectError>
  {
    match root
    case Missing => Ok([])
    case Unlistable => Err(HostListingFailed)
    case Listed(es) => Ok(EligiblePaths(es))
  }

  /** `findDataFolders()` as the loop the source runs over the listing. */
  method FindDataFolders(root: HostRoot) returns (r: Result<seq<string>, CollectError>)
    ensures r == DataFolders(root)
  {
    match root
    case Missing =>
      return Ok([]);
    case Unlistable =>
      return Err(HostListingFailed);
    case Listed(entries) =>
      var result: seq<string> := [];
      for i := 0 to |entries|
        invariant result == EligiblePaths(entries[..i])
      {
        assert entries[..i + 1][..i] == entries[..i];
        if Eligible(entries[i]) {
          result := result + [HostPath(entries[i].name)];
        }
      }
      assert entries[..|entries|] == entries;
      return Ok(result);
  }

  // ---------------------------------------------------------------- basename

  /** The text after the last `/` (all of it when there is none). */
  function LastSegment(p: string): (r: string)
    ensures '/' !in r
    decreases |p|
  {
    if |p| == 0 || p[|p| - 1] == '/' then "" else LastSegment(p[..|p| - 1]) + [p[|p| - 1]]
  }

  function StripTrailingSlashes(p: string): string
    decreases |p|
  {
    if |p| > 0 && p[|p| - 1] == '/' then StripTrailingSlashes(p[..|p| - 1]) else p
  }

  /** `path.basename(p)` of POSIX paths: the last segment, trailing separators ignored. */
  function Basename(p: string): string
  {
    LastSegment(StripTrailingSlashes(p))
  }

  /** `paths.map(p => path.basename(p))`. */
  function Basenames(paths: seq<string>): (r: seq<string>)
    ensures |r| == |paths|
    decreases |paths|
  {
    if |paths| == 0 then [] else Basenames(paths[..|paths| - 1]) + [Basename(paths[|paths| - 1])]
  }

  /** The disk names the collector iterates over, or the listing error. */
  function DiskNames(root: HostRoot): Result<seq<string>, CollectError>
  {
    match DataFolders(root)
    case Err(e) => Err(e)
    case Ok(paths) => Ok(Basenames(paths))
  }

  // ---------------------------------------------------------------- properties

  /** A text without separators is its own last segment. */
  lemma {:induction false} LastSegmentOfName(a: string, n: string)
    requires '/' !in n
    requires a == [] || a[|a| - 1] == '/'
    ensures LastSegment(a + n) == n
    decreases |n|
  {
    if |n| > 0 {
      var s := a + n;
      assert s[..|s| - 1] == a + n[..|n| - 1];
      var m := n[..|n| - 1];
      assert '/' !in m by {
        forall k | 0 <= k < |m| ensures m[k] != '/' {
          assert m[k] == n[k];
        }
      }
      LastSegmentOfName(a, n[..|n| - 1]);
      assert n == n[..|n| - 1] + [n[|n| - 1]];
    }
  }

  /** The basename of a host path is the entry name it was built from. */
  lemma BasenameOfHostPath(n: EntryName)
    ensures Basename(HostPath(n)) == n
  {
    var p := HostPath(n);
    assert p[|p| - 1] == n[|n| - 1];
    LastSegmentOfName(BaseDir, n);
  }

  /** Taking basenames of the eligible paths gives the eligible names back. */
  lemma {:induction false} BasenamesOfPaths(es: seq<DirEntry>)
    ensures Basenames(EligiblePaths(es)) == EligibleNames(es)
    decreases |es|
  {
    if |es| > 0 {
      var init := es[..|es| - 1];
      var last := es[|es| - 1];
      BasenamesOfPaths(init);
      if Eligible(last) {
        var ps := EligiblePaths(init) + [HostPath(last.name)];
        assert ps[..|ps| - 1] == EligiblePaths(init);
        BasenameOfHostPath(last.name);
      } else {
        assert EligiblePaths(es) == EligiblePaths(init);
      }
    }
  }

  /** A name is reported exactly when some listed entry with that name is
      eligible: a directory other than the two reserved names. */
  lemma {:induction false} EligibleNamesMembers(es: seq<DirEntry>, n: string)
    ensures n in EligibleNames(es) <==> exists k :: 0 <= k < |es| && Eligible(es[k]) && es[k].name == n
    decreases |es|
  {
    if |es| > 0 {
      var init := es[..|es| - 1];
      EligibleNamesMembers(init, n);
      if n in EligibleNames(init) {
        var k :| 0 <= k < |init| && Eligible(init[k]) && init[k].name == n;
        assert es[k] == init[k];
      }
      if exists k :: 0 <= k < |es| && Eligible(es[k]) && es[k].name == n {
        var k :| 0 <= k < |es| && Eligible(es[k]) && es[k].name == n;
        if k < |es| - 1 {
          assert init[k] == es[k];
        }
      }
    }
  }

  /** Listing order is kept: the names of a listing split in two are the names
      of the first part followed by those of the second. */
  lemma {:induction false} EligibleNamesAppend(a: seq<DirEntry>, b: seq<DirEntry>)
    ensures EligibleNames(a + b) == EligibleNames(a) + EligibleNames(b)
    decreases |b|
  {
    if |b| == 0 {
      assert a + b == a;
    } else {
      var ab := a + b;
      assert ab[..|ab| - 1] == a + b[..|b| - 1];
      assert ab[|ab| - 1] == b[|b| - 1];
      EligibleNamesAppend(a, b[..|b| - 1]);
    }
  }

  /** The disk names: none without a mount point, a listing failure is an
      error, and otherwise exactly the eligible names in listing order. */
  lemma DiskNamesSpec(root: HostRoot)
    ensures root.Missing? ==> DiskNames(root) == Ok([])
    ensures DiskNames(root).Err? <==> root.Unlistable?
    ensures root.Listed? ==> DiskNames(root) == Ok(EligibleNames(root.entries))
  {
    if root.Listed? {
      BasenamesOfPaths(root.entries);
    }
  }

  /** A reserved name is never reported, whatever else is listed. */
  lemma ReservedNamesExcluded(es: seq<DirEntry>)
    ensures ConfigDir !in EligibleNames(es) && MetadataDir !in EligibleNames(es)
  {
    EligibleNamesMembers(es, ConfigDir);
    EligibleNamesMembers(es, MetadataDir);
  }

  /** The match is exact and case-sensitive, and the name need not start with
      "data": `Etc` and `backup` directories are both data volumes. */
  lemma OtherDirectoriesIncluded()
    ensures EligibleNames([DirEntry("Etc", true), DirEntry("etc", true), DirEntry("backup", true),
                           DirEntry("sysfolder", true), DirEntry("data1", false)]) == ["Etc", "backup"]
  {
    var es := [DirEntry("Etc", true), DirEntry("etc", true), DirEntry("backup", true), DirEntry("sysfolder", true), DirEntry("data1", false)];
    assert es[..1][..0] == [];
    assert EligibleNames(es[..1]) == ["Etc"];
    assert es[..2][..1] == es[..1];
    assert EligibleNames(es[..2]) == ["Etc"];
    assert es[..3][..2] == es[..2];
    assert EligibleNames(es[..3]) == ["Etc", "backup"];
    assert es[..4][..3] == es[..3];
    assert EligibleNames(es[..4]) == ["Etc", "backup"];
    assert es[..4] == es[..|es| - 1];
  }
}
