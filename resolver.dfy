/**
 * The registry as the audit sees it, and the per-mod compatibility verdict
 * of the two search strategies.
 */
module Resolver {
  import opened Results
  import opened Manifest

  /** A project's metadata: display title, loaders and game versions it lists. */
  datatype ProjectInfo = ProjectInfo(title: string, loaders: set<string>, gameVersions: set<string>)

  /** One published build of a project. */
  datatype VersionInfo = VersionInfo(loaders: set<string>, gameVersions: set<string>)

  /**
   * The two registry lookups, by project id: project metadata, and the list of
   * builds newest first. An id absent from a map is a lookup that fails.
   */
  datatype Registry = Registry(projects: map<string, ProjectInfo>, versions: map<string, seq<VersionInfo>>)

  /** Why a search stops: each is an exception in `main.py` that ends the whole run. */
  datatype AuditError =
    | MissingDownload(path: string)        // `downloads[0]` on an empty list
    | MalformedLocator(locator: string)    // fewer than five `/`-pieces in the locator
    | ProjectLookupFailed(id: string)      // project metadata request failed
    | VersionsLookupFailed(id: string)     // version list request failed

  /** Fast checks project metadata only; Comprehensive also checks builds for a loader. */
  datatype Strategy = Fast | Comprehensive(loader: string)

  /** What the audit records of one counted mod. */
  datatype Outcome = Outcome(category: string, title: string, updatable: bool)

  /** A build runs on the target game version with the requested loader. */
  predicate Supports(build: VersionInfo, gameVersion: string, loader: string)
  {
    gameVersion in build.gameVersions && loader in build.loaders
  }

  /** Some build, in any position of the list, supports the combination. */
  predicate HasBuild(builds: seq<VersionInfo>, gameVersion: string, loader: string)
  {
    exists k :: 0 <= k < |builds| && Supports(builds[k], gameVersion, loader)
  }

  /** Python's `builds[::-1]`. */
  function Reversed(builds: seq<VersionInfo>): seq<VersionInfo>
  {
    seq(|builds|, k requires 0 <= k < |builds| => builds[|builds| - 1 - k])
  }

  /** The registry id of an entry whose project metadata can be fetched. */
  function Locate(reg: Registry, e: ModEntry): Result<string, AuditError>
  {
    if |e.downloads| == 0 then Failure(MissingDownload(e.path))
    else match ProjectId(e.downloads[0])
      case None => Failure(MalformedLocator(e.downloads[0]))
      case Some(id) => if id in reg.projects then Success(id) else Failure(ProjectLookupFailed(id))
  }

  /** Comprehensive mode goes down to the builds only for a `mods/` entry whose project lists both. */
  predicate NeedsBuildCheck(e: ModEntry, info: ProjectInfo, gameVersion: string, loader: string)
  {
    Category(e.path) == "mods" && loader in info.loaders && gameVersion in info.gameVersions
  }

  /** The verdict on one (non-disabled) entry under a strategy. */
  function Resolve(reg: Registry, e: ModEntry, gameVersion: string, strategy: Strategy): Result<Outcome, AuditError>
  {
    match Locate(reg, e)
    case Failure(err) => Failure(err)
    case Success(id) =>
      var info := reg.projects[id];
      match strategy
      case Comprehensive(loader) =>
        if NeedsBuildCheck(e, info, gameVersion, loader) then
          if id in reg.versions then
            Success(Outcome(Category(e.path), info.title, HasBuild(reg.versions[id], gameVersion, loader)))
          else Failure(VersionsLookupFailed(id))
        else Success(Outcome(Category(e.path), info.title, gameVersion in info.gameVersions))
      case Fast => Success(Outcome(Category(e.path), info.title, gameVersion in info.gameVersions))
  }

  /**
   * The version scan of the comprehensive search: walks the builds newest
   * first, or oldest first when `reverse`, and stops at the first build that
   * supports the combination. The order only decides where it stops.
   */
  method ScanVersions(builds: seq<VersionInfo>, gameVersion: string, loader: string, reverse: bool)
    returns (found: bool)
    ensures found <==> HasBuild(builds, gameVersion, loader)
  {
    var order := builds;
    if reverse {
      order := Reversed(builds);
    }
    found := false;
    for i := 0 to |order|
      invariant forall j :: 0 <= j < i ==> !Supports(order[j], gameVersion, loader)
    {
      if Supports(order[i], gameVersion, loader) {
        found := true;
        assert reverse ==> order[i] == builds[|builds| - 1 - i];
        break;
      }
    }
    if !found && reverse {
      forall k | 0 <= k < |builds|
        ensures !Supports(builds[k], gameVersion, loader)
      {
        assert builds[k] == order[|builds| - 1 - k];
      }
    }
  }

  /** Fast verdict: updatable exactly when the project lists the target version; no loader enters. */
  lemma FastVerdict(reg: Registry, e: ModEntry, gameVersion: string)
    ensures Locate(reg, e).Failure? ==> Resolve(reg, e, gameVersion, Fast) == Failure(Locate(reg, e).error)
    ensures Locate(reg, e).Success? ==>
      var info := reg.projects[Locate(reg, e).value];
      Resolve(reg, e, gameVersion, Fast) == Success(Outcome(Category(e.path), info.title, gameVersion in info.gameVersions))
  {
  }

  /** Outside the build check, comprehensive mode gives the fast verdict, whatever the loader. */
  lemma ComprehensiveFallback(reg: Registry, e: ModEntry, gameVersion: string, loader: string)
    requires Locate(reg, e).Success?
    requires !NeedsBuildCheck(e, reg.projects[Locate(reg, e).value], gameVersion, loader)
    ensures Resolve(reg, e, gameVersion, Comprehensive(loader)) == Resolve(reg, e, gameVersion, Fast)
  {
  }

  /**
   * As written, a `mods/` entry whose project does not list the loader is
   * judged on the version alone, so it can be updatable for a loader it
   * does not support.
   */
  lemma MissingLoaderStillUpdatable(reg: Registry, e: ModEntry, gameVersion: string, loader: string)
    requires Locate(reg, e).Success?
    requires var info := reg.projects[Locate(reg, e).value];
      loader !in info.loaders && gameVersion in info.gameVersions
    ensures Resolve(reg, e, gameVersion, Comprehensive(loader)).Success?
    ensures Resolve(reg, e, gameVersion, Comprehensive(loader)).value.updatable
  {
  }

  /** Inside the build check the verdict is the existence of a supporting build; a failed list lookup ends the run. */
  lemma ComprehensiveBuildCheck(reg: Registry, e: ModEntry, gameVersion: string, loader: string)
    requires Locate(reg, e).Success?
    requires NeedsBuildCheck(e, reg.projects[Locate(reg, e).value], gameVersion, loader)
    ensures var id := Locate(reg, e).value;
      Resolve(reg, e, gameVersion, Comprehensive(loader)) ==
        if id in reg.versions
        then Success(Outcome(Category(e.path), reg.projects[id].title, HasBuild(reg.versions[id], gameVersion, loader)))
        else Failure(VersionsLookupFailed(id))
  {
  }

  /** Comprehensive mode never accepts a mod that fast mode rejects, and both file it under the same title and category. */
  lemma ComprehensiveStricter(reg: Registry, e: ModEntry, gameVersion: string, loader: string)
    requires Resolve(reg, e, gameVersion, Comprehensive(loader)).Success?
    ensures Resolve(reg, e, gameVersion, Fast).Success?
    ensures var c := Resolve(reg, e, gameVersion, Comprehensive(loader)).value;
      var f := Resolve(reg, e, gameVersion, Fast).value;
      c.category == f.category && c.title == f.title && (c.updatable ==> f.updatable)
  {
  }
}
