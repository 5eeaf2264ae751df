/**
 * The ancestor walk of `resolveProjectFromUri` (ProjectUtil.kt): starting at
 * the resource's parent directory and climbing one level at a time, the first
 * directory whose listing holds a child with extension "iml" is the project
 * root.
 *
 * Paths are sequences of segments from the filesystem root (`[]` is the root).
 * The filesystem is a map from each directory that can be listed to its
 * listing, in the order `listFiles()` returns it.
 */
module ProjectWalk {
  import opened Wrappers

  type Path = seq<string>
  type FileSystem = map<Path, seq<string>>

  /** The index of the last '.' in `name`, if any. */
  function LastDot(name: string): (r: Option<nat>)
    ensures r.Some? ==>
              && r.value < |name| && name[r.value] == '.'
              && forall j :: r.value < j < |name| ==> name[j] != '.'
    ensures r.None? ==> forall j :: 0 <= j < |name| ==> name[j] != '.'
    decreases |name|
  {
    if name == [] then None
    else if name[|name| - 1] == '.' then Some(|name| - 1)
    else LastDot(name[..|name| - 1])
  }

  /** Kotlin's `File.extension`: `name.substringAfterLast('.', "")`. */
  function Extension(name: string): (ext: string)
    ensures '.' !in ext
    ensures ('.' !in name) ==> ext == ""
    ensures ('.' in name) ==>
              && |ext| < |name| && name[|name| - |ext| - 1] == '.'
              && ext == name[|name| - |ext|..]
  {
    match LastDot(name)
    case None => ""
    case Some(i) => name[i + 1..]
  }

  /** The suffix every project marker's name ends with. */
  const MarkerSuffix := ".iml"

  /** A project marker: a child whose name ends in ".iml". */
  predicate IsMarker(name: string) {
    |MarkerSuffix| <= |name| && name[|name| - |MarkerSuffix|..] == MarkerSuffix
  }

  /** A child is a marker exactly when its extension is "iml". */
  lemma MarkerIffImlExtension(name: string)
    ensures IsMarker(name) <==> Extension(name) == "iml"
  {
    var ext := Extension(name);
    if IsMarker(name) {
      var k := |name| - 4;
      assert name[k] == '.';
      assert '.' in name;
      match LastDot(name)
      case Some(i) =>
        assert i >= k;
        assert name[i+1..] == name[k+1..];
    }
  }

  /** No child before index `i` of `listing` is a marker. */
  predicate NoMarkerBefore(listing: seq<string>, i: int)
    requires i <= |listing|
  {
    forall j :: 0 <= j < i ==> !IsMarker(listing[j])
  }

  /** The index of the first marker in `listing` at or after `from`. */
  function FirstMarkerFrom(listing: seq<string>, from: nat): (r: Option<nat>)
    requires from <= |listing|
    ensures r.Some? ==>
              && from <= r.value < |listing| && IsMarker(listing[r.value])
              && forall j :: from <= j < r.value ==> !IsMarker(listing[j])
    ensures r.None? ==> forall j :: from <= j < |listing| ==> !IsMarker(listing[j])
    decreases |listing| - from
  {
    if from == |listing| then None
    else if IsMarker(listing[from]) then Some(from)
    else
      var r := FirstMarkerFrom(listing, from + 1);
      assert !IsMarker(listing[from]);
      r
  }

  /** `listFiles().firstOrNull { it.extension == "iml" }`. */
  function FirstMarker(listing: seq<string>): (r: Option<string>)
    ensures r.None? <==> forall i :: 0 <= i < |listing| ==> !IsMarker(listing[i])
    ensures r.Some? ==>
              && IsMarker(r.value)
              && exists i :: 0 <= i < |listing| && listing[i] == r.value && NoMarkerBefore(listing, i)
  {
    match FirstMarkerFrom(listing, 0)
    case None => None
    case Some(i) => Some(listing[i])
  }

  /** `File.parentFile`: `None` at the root. */
  function ParentOf(p: Path): (r: Option<Path>)
    ensures r.None? <==> p == []
    ensures r.Some? ==> r.value + [p[|p| - 1]] == p
  {
    if p == [] then None else Some(p[..|p| - 1])
  }

  /** `dir.toPath().relativize(file.toPath())` for an ancestor `dir` of `file`. */
  function Relativize(dir: Path, file: Path): (rel: Path)
    requires |dir| <= |file| && file[..|dir|] == dir
    ensures dir + rel == file
    ensures |rel| == |file| - |dir|
  {
    file[|dir|..]
  }

  /** `File.absolutePath` of a path, with '/' as separator. */
  function AbsolutePath(p: Path): (r: string)
    // an absolute path: never empty, always starting at the root
    ensures r != [] && r[0] == '/'
    ensures p != [] ==> r == Joined(p)
  {
    if p == [] then "/" else Joined(p)
  }

  /** Every segment preceded by a '/'. */
  function Joined(p: Path): (r: string)
    ensures r == [] <==> p == []
    ensures p != [] ==> r[0] == '/'
    // the last segment is what follows the last '/'
    ensures p != [] ==>
              && |r| > |p[|p| - 1]|
              && r[|r| - |p[|p| - 1]| - 1] == '/'
              && r[|r| - |p[|p| - 1]|..] == p[|p| - 1]
    decreases |p|
  {
    if p == [] then "" else Joined(p[..|p| - 1]) + "/" + p[|p| - 1]
  }

  /** No segment of `p` holds the separator. */
  predicate SegmentsWithoutSlash(p: Path) {
    forall i :: 0 <= i < |p| ==> '/' !in p[i]
  }

  /** With segments free of '/', different paths have different joined forms. */
  lemma {:induction false} JoinedInjective(p: Path, q: Path)
    requires SegmentsWithoutSlash(p) && SegmentsWithoutSlash(q)
    requires Joined(p) == Joined(q)
    ensures p == q
    decreases |p|
  {
    if p != [] {
      var j := Joined(p);
      var p', s := p[..|p| - 1], p[|p| - 1];
      var q', t := q[..|q| - 1], q[|q| - 1];
      assert j == Joined(p') + "/" + s && j == Joined(q') + "/" + t;
      var i, k := |Joined(p')|, |Joined(q')|;
      assert j[i] == '/' && j[k] == '/';
      assert forall x :: i < x < |j| ==> j[x] == s[x - i - 1];
      assert forall x :: k < x < |j| ==> j[x] == t[x - k - 1];
      assert '/' !in s && '/' !in t;
      assert i == k;
      assert Joined(p') == j[..i] == Joined(q');
      JoinedInjective(p', q');
      assert s == j[i + 1..] == t;
    }
  }

  /**
   * The cache key of a marker file: the marker's directory and name are
   * recovered from it, when no segment holds a '/'.
   */
  lemma MarkerKeyInjective(d: Path, m: string, d': Path, m': string)
    requires SegmentsWithoutSlash(d + [m]) && SegmentsWithoutSlash(d' + [m'])
    requires AbsolutePath(d + [m]) == AbsolutePath(d' + [m'])
    ensures d == d' && m == m'
  {
    JoinedInjective(d + [m], d' + [m']);
    assert d == (d + [m])[..|d|] && d' == (d' + [m'])[..|d'|];
  }

  /** How the walk ends. */
  datatype WalkResult =
    | Found(dir: Path, marker: string)  // `dir` lists `marker`, the first "iml" child
    | NoMarker                          // the root was passed without finding one
    | Unlistable(dir: Path)             // `listFiles()` returned null for `dir`

  /** `d` can be listed and holds no marker: the walk climbs past it. */
  predicate Clean(fs: FileSystem, d: Path) {
    d in fs && FirstMarker(fs[d]).None?
  }

  /**
   * The walk over the ancestors `file[..n-1]`, `file[..n-2]`, ..., `file[..0]`
   * (the root), deepest first. `Scan(fs, file, |file|)` starts at the parent.
   */
  function Scan(fs: FileSystem, file: Path, n: nat): WalkResult
    requires n <= |file|
    decreases n
  {
    if n == 0 then NoMarker
    else
      var d := file[..n - 1];
      if d !in fs then Unlistable(d)
      else match FirstMarker(fs[d])
        case Some(m) => Found(d, m)
        case None => Scan(fs, file, n - 1)
  }

  /** Every ancestor `file[..j]` with `lo < j < hi` is clean. */
  ghost predicate CleanBetween(fs: FileSystem, file: Path, lo: int, hi: int)
    requires hi <= |file|
  {
    forall j :: lo < j < hi && 0 <= j ==> Clean(fs, file[..j])
  }

  /**
   * The outcome `r` of a walk over the ancestors of depth below `n`, stated
   * without the walk: the deepest ancestor that is not clean decides it.
   */
  ghost predicate Nearest(fs: FileSystem, file: Path, n: nat, r: WalkResult)
    requires n <= |file|
  {
    match r
    case Found(d, m) =>
      |d| < n && d == file[..|d|] && d in fs && FirstMarker(fs[d]) == Some(m) &&
      CleanBetween(fs, file, |d|, n)
    case NoMarker =>
      CleanBetween(fs, file, -1, n)
    case Unlistable(d) =>
      |d| < n && d == file[..|d|] && d !in fs &&
      CleanBetween(fs, file, |d|, n)
  }

  /** The walk ends at the nearest ancestor that is not clean. */
  lemma {:induction false} ScanIsNearest(fs: FileSystem, file: Path, n: nat)
    requires n <= |file|
    ensures Nearest(fs, file, n, Scan(fs, file, n))
    decreases n
  {
    if n > 0 {
      var d := file[..n - 1];
      assert |d| == n - 1 && d == file[..|d|];
      if d in fs && FirstMarker(fs[d]).None? {
        ScanIsNearest(fs, file, n - 1);
        var r := Scan(fs, file, n - 1);
        assert Scan(fs, file, n) == r;
        CleanBetweenExtends(fs, file, StopDepth(r), n);
      }
    }
  }

  /** A clean directory at depth `hi - 1` extends a clean stretch below it by one. */
  lemma CleanBetweenExtends(fs: FileSystem, file: Path, lo: int, hi: nat)
    requires 0 < hi <= |file| && lo < hi
    requires CleanBetween(fs, file, lo, hi - 1) && Clean(fs, file[..hi - 1])
    ensures CleanBetween(fs, file, lo, hi)
  {
  }

  /** The depth of the directory where the walk stopped; -1 when it passed the root. */
  function StopDepth(r: WalkResult): int {
    if r.NoMarker? then -1 else |r.dir|
  }

  /** The directory where a walk stops is not clean, and every deeper ancestor is. */
  lemma StopIsNotClean(fs: FileSystem, file: Path, n: nat, r: WalkResult)
    requires n <= |file|
    requires Nearest(fs, file, n, r)
    ensures StopDepth(r) < n
    ensures CleanBetween(fs, file, StopDepth(r), n)
    ensures 0 <= StopDepth(r) ==> r.dir == file[..StopDepth(r)] && !Clean(fs, file[..StopDepth(r)])
  {
  }

  /** At most one outcome fits the description. */
  lemma NearestUnique(fs: FileSystem, file: Path, n: nat, r1: WalkResult, r2: WalkResult)
    requires n <= |file|
    requires Nearest(fs, file, n, r1) && Nearest(fs, file, n, r2)
    ensures r1 == r2
  {
    StopIsNotClean(fs, file, n, r1);
    StopIsNotClean(fs, file, n, r2);
    assert StopDepth(r1) == StopDepth(r2);
  }

  /** Both directions: an outcome is the walk's exactly when it is the nearest one. */
  lemma NearestIffScan(fs: FileSystem, file: Path, r: WalkResult)
    ensures Nearest(fs, file, |file|, r) <==> r == Scan(fs, file, |file|)
  {
    ScanIsNearest(fs, file, |file|);
    if Nearest(fs, file, |file|, r) {
      NearestUnique(fs, file, |file|, r, Scan(fs, file, |file|));
    }
  }

  /**
   * No ancestor farther than the project root is examined: changing the
   * filesystem anywhere above it leaves the outcome as it was.
   */
  lemma FartherAncestorsIgnored(fs: FileSystem, fs': FileSystem, file: Path, d: Path, m: string)
    requires Scan(fs, file, |file|) == Found(d, m)
    requires forall j :: |d| <= j < |file| ==>
      (file[..j] in fs <==> file[..j] in fs') && (file[..j] in fs ==> fs[file[..j]] == fs'[file[..j]])
    ensures Scan(fs', file, |file|) == Found(d, m)
  {
    ScanIsNearest(fs, file, |file|);
    assert Nearest(fs', file, |file|, Found(d, m)) by {
      forall j | |d| < j < |file| ensures Clean(fs', file[..j]) {
        assert Clean(fs, file[..j]);
      }
    }
    NearestIffScan(fs', file, Found(d, m));
  }

  /**
   * The loop of `resolveProjectFromUri`: `directory` starts at the parent of
   * `file` and becomes its own parent after each directory without a marker.
   */
  method FindMarker(fs: FileSystem, file: Path) returns (r: WalkResult)
    ensures r == Scan(fs, file, |file|)
  {
    var directory := ParentOf(file);
    ghost var n: nat := |file|;
    while directory.Some?
      invariant n <= |file|
      invariant directory.None? <==> n == 0
      invariant directory.Some? ==> directory.value == file[..n - 1]
      invariant Scan(fs, file, |file|) == Scan(fs, file, n)
      decreases n
    {
      var dir := directory.value;
      if dir !in fs {
        return Unlistable(dir);
      }
      var marker := FirstMarker(fs[dir]);
      if marker.Some? {
        return Found(dir, marker.value);
      }
      directory := ParentOf(dir);
      n := n - 1;
      assert directory.Some? ==> directory.value == file[..n - 1];
    }
    return NoMarker;
  }
}
