/**
 * The process-wide project cache of ProjectUtil.kt (`sProjectCache`,
 * `getProject`, `ensureProject`) and `resolveProjectFromUri`, which puts the
 * URI rewrite, the ancestor walk and the cache together.
 *
 * The IDE is reached only through a `Host` value: which project handles are
 * disposed, which paths exist on disk, and what `loadAndOpenProject` yields
 * for a path (`None` when it fails with one of the exceptions `getProject`
 * catches).
 */
module Projects {
  import opened Wrappers
  import opened Uri
  import opened ProjectWalk

  /** An opened project, as the IDE hands it out. */
  datatype ProjectHandle = ProjectHandle(id: nat)

  datatype Host = Host(
    disposed: set<ProjectHandle>,
    existing: set<string>,
    open: string -> Option<ProjectHandle>)

  /** What one `getProject` call returns, the cache it leaves, and whether it opened a project. */
  datatype Lookup = Lookup(result: Option<ProjectHandle>, cache: map<string, ProjectHandle>, didOpen: bool)

  /** The cache holds a project for `path` that is not disposed. */
  predicate LiveHit(cache: map<string, ProjectHandle>, path: string, host: Host) {
    path in cache && cache[path] !in host.disposed
  }

  /** One `getProject(path)` call against the cache contents `cache`. */
  function GetProjectStep(cache: map<string, ProjectHandle>, path: string, host: Host): (s: Lookup)
    // a live hit returns the cached project, opens nothing and changes nothing
    ensures LiveHit(cache, path, host) ==> s == Lookup(Some(cache[path]), cache, false)
    // otherwise a project is opened exactly when the path exists
    ensures !LiveHit(cache, path, host) ==> (s.didOpen <==> path in host.existing)
    ensures s.didOpen ==> s.result == host.open(path)
    // a project handed back without opening is never a disposed one
    ensures s.result.Some? && !s.didOpen ==> s.result.value !in host.disposed
    // a null result leaves the cache as it was, stale entry included
    ensures s.result.None? ==> s.cache == cache
    // a project returned is the one cached for `path`; no other key changes
    ensures s.result.Some? ==> s.cache == cache[path := s.result.value]
  {
    if LiveHit(cache, path, host) then Lookup(Some(cache[path]), cache, false)
    else if path !in host.existing then Lookup(None, cache, false)
    else match host.open(path)
      case None => Lookup(None, cache, true)
      case Some(p) => Lookup(Some(p), cache[path := p], true)
  }

  /**
   * Asking twice for the same path with nothing disposed in between returns
   * the identical project the second time, without opening anything.
   */
  lemma SecondLookupHits(cache: map<string, ProjectHandle>, path: string, host: Host)
    requires GetProjectStep(cache, path, host).result.Some?
    requires GetProjectStep(cache, path, host).result.value !in host.disposed
    ensures var first := GetProjectStep(cache, path, host);
      GetProjectStep(first.cache, path, host) == Lookup(first.result, first.cache, false)
  {
  }

  /**
   * Once the cached project has been disposed, the next lookup opens a reopened
   * one (if the path exists and the open succeeds) and it replaces the entry.
   */
  lemma DisposedEntryReplaced(cache: map<string, ProjectHandle>, path: string, host: Host, reopened: ProjectHandle)
    requires path in cache && cache[path] in host.disposed
    requires path in host.existing && host.open(path) == Some(reopened)
    ensures GetProjectStep(cache, path, host) == Lookup(Some(reopened), cache[path := reopened], true)
  {
  }

  /** The two exceptions `ensureProject` throws. */
  datatype ProjectError =
    | ProjectNotFound(path: string)  // getProject returned null
    | AlreadyDisposed(path: string)  // getProject returned a disposed project

  /** `ensureProject` on top of one `getProject` step. */
  function EnsureProjectStep(cache: map<string, ProjectHandle>, path: string, host: Host): (r: Result<ProjectHandle, ProjectError>)
    ensures r.Success? <==>
              && GetProjectStep(cache, path, host).result.Some?
              && GetProjectStep(cache, path, host).result.value !in host.disposed
    ensures r.Success? ==> r.value == GetProjectStep(cache, path, host).result.value
    ensures r.Success? ==> r.value !in host.disposed
    ensures r == Failure(ProjectNotFound(path)) <==> GetProjectStep(cache, path, host).result.None?
  {
    match GetProjectStep(cache, path, host).result
    case None => Failure(ProjectNotFound(path))
    case Some(p) => if p in host.disposed then Failure(AlreadyDisposed(path)) else Success(p)
  }

  /** `sProjectCache`, keyed by the absolute path of a project's marker file. */
  class ProjectCache {
    var entries: map<string, ProjectHandle>

    constructor ()
      ensures entries == map[]
    {
      entries := map[];
    }

    /**
     * `getProject`: a live cached project is returned as it is; a missing or
     * disposed one is (re)opened if the path exists, and a successful open is
     * cached under `path`. `didOpen` tells whether `loadAndOpenProject` ran.
     */
    method GetProject(path: string, host: Host) returns (project: Option<ProjectHandle>, didOpen: bool)
      modifies this
      ensures Lookup(project, entries, didOpen) == GetProjectStep(old(entries), path, host)
      ensures LiveHit(old(entries), path, host) ==>
                project == Some(old(entries)[path]) && !didOpen && entries == old(entries)
      ensures !LiveHit(old(entries), path, host) && path !in host.existing ==>
                project.None? && !didOpen && entries == old(entries)
      ensures !LiveHit(old(entries), path, host) && path in host.existing ==>
                didOpen && project == host.open(path) &&
                entries == (if project.Some? then old(entries)[path := project.value] else old(entries))
    {
      if path in entries {
        var cached := entries[path];
        if cached !in host.disposed {
          return Some(cached), false;
        }
      }
      if path !in host.existing {
        return None, false;
      }
      var loaded := host.open(path);
      if loaded.None? {
        return None, true;
      }
      entries := entries[path := loaded.value];
      return loaded, true;
    }

    /** `ensureProject`: `getProject`, then an exception for null or for a disposed project. */
    method EnsureProject(path: string, host: Host) returns (r: Result<ProjectHandle, ProjectError>)
      modifies this
      ensures r == EnsureProjectStep(old(entries), path, host)
      ensures entries == GetProjectStep(old(entries), path, host).cache
    {
      var project, _ := GetProject(path, host);
      if project.None? {
        return Failure(ProjectNotFound(path));
      }
      if project.value in host.disposed {
        return Failure(AlreadyDisposed(path));
      }
      return Success(project.value);
    }
  }

  /** The exceptions that escape `resolveProjectFromUri`. */
  datatype ResolveError =
    | MalformedUri(uri: string)      // `URI(...)` or `File(URI)` rejected the rewritten string
    | UnlistableDirectory(dir: Path) // `listFiles()` returned null
    | Project(error: ProjectError)   // `ensureProject` threw

  /**
   * `resolveProjectFromUri`: rewrite the URI, parse it into the resource's
   * path (`parseFileUri` stands for `File(URI(...))`), walk up to the nearest
   * directory holding an "iml" file, and look that file's project up in the
   * cache. `Success(None)` is the null return when no ancestor has a marker.
   */
  method ResolveProjectFromUri(
    cache: ProjectCache, fs: FileSystem, host: Host, parseFileUri: string -> Option<Path>, uri: string)
    returns (r: Result<Option<(ProjectHandle, Path)>, ResolveError>)
    modifies cache
    ensures parseFileUri(NormalizeFileUri(uri)).None? ==>
              r == Failure(MalformedUri(uri)) && cache.entries == old(cache.entries)
    ensures parseFileUri(NormalizeFileUri(uri)).Some? ==>
              var file := parseFileUri(NormalizeFileUri(uri)).value;
              match Scan(fs, file, |file|)
              case NoMarker =>
                r == Success(None) && cache.entries == old(cache.entries)
              case Unlistable(d) =>
                r == Failure(UnlistableDirectory(d)) && cache.entries == old(cache.entries)
              case Found(d, m) =>
                var key := AbsolutePath(d + [m]);
                && cache.entries == GetProjectStep(old(cache.entries), key, host).cache
                && |d| < |file| && file[..|d|] == d
                && match EnsureProjectStep(old(cache.entries), key, host)
                   case Success(p) => r == Success(Some((p, Relativize(d, file))))
                   case Failure(e) => r == Failure(Project(e))
  {
    var newUri := NormalizeFileUri(uri);
    var parsed := parseFileUri(newUri);
    if parsed.None? {
      return Failure(MalformedUri(uri));
    }
    var topFile := parsed.value;
    var walk := FindMarker(fs, topFile);
    ScanIsNearest(fs, topFile, |topFile|);
    match walk
    case NoMarker =>
      return Success(None);
    case Unlistable(d) =>
      return Failure(UnlistableDirectory(d));
    case Found(directory, marker) =>
      var project := cache.EnsureProject(AbsolutePath(directory + [marker]), host);
      match project
      case Failure(e) =>
        return Failure(Project(e));
      case Success(p) =>
        return Success(Some((p, Relativize(directory, topFile))));
  }
}
