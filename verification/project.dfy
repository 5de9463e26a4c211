/**
 * Projects: the format-version gate on a parsed project file, the environment commands run in, the
 * check whether an opened project still needs setting up, the plan of setup tasks built for it, and
 * where the start page sends the user after opening it.
 */
module Project {
  import opened Outcomes
  import opened Text

  /** A filesystem path as its components; `/` appends one. */
  type Path = seq<string>

  const CurrentVersion: int := 1
  const MinVersion: int := 1

  /** The value of `format_version` as TOML parsing delivers it. */
  datatype TomlValue = TomlInt(n: int) | TomlBool(b: bool) | TomlOther

  /** isinstance(v, int): Python's bools are ints, True being 1 and False 0. */
  function AsInt(v: TomlValue): (r: Option<int>)
    ensures r.Some? <==> !v.TomlOther?
  {
    match v
    case TomlInt(n) => Some(n)
    case TomlBool(b) => Some(if b then 1 else 0)
    case TomlOther => None
  }

  /** A `[dependency.<dir>]` table; `setup` may be absent. */
  datatype RawDependency = RawDependency(
    dirName: string, name: string, url: string, sha256: string,
    includePaths: seq<string>, setup: Option<seq<seq<string>>>)

  datatype Dependency = Dependency(
    name: string, dirName: string, url: string, hash: string,
    paths: seq<string>, setupCommands: seq<seq<string>>)

  datatype ActionInfo = ActionInfo(name: string, description: string, commands: seq<seq<string>>)

  /** A parsed project file; only `format_version` may be missing or of the wrong type. */
  datatype RawConfig = RawConfig(
    formatVersion: Option<TomlValue>,
    name: string, description: string,
    repoUrl: string, repoCommit: string, repoEnvPath: string,
    baseromName: string, baseromHash: string, baseromPath: string,
    dependencies: seq<RawDependency>,
    actions: seq<ActionInfo>)

  datatype Config = Config(
    name: string, description: string,
    repoUrl: string, repoCommit: string, repoEnvPath: string,
    baseromName: string, baseromHash: string, baseromPath: string,
    dependencies: seq<Dependency>,
    actions: seq<ActionInfo>)

  /** KeyError for a missing version, and the two ValueErrors of the gate. */
  datatype ConfigError = MissingFormatVersion | InvalidFormatVersion(value: TomlValue) | UnsupportedFormatVersion(version: int)

  /** Dependency(dir_name, info): a missing `setup` key means no setup commands. */
  function MakeDependency(raw: RawDependency): (d: Dependency)
    ensures raw.setup.None? ==> d.setupCommands == []
    ensures raw.setup.Some? ==> d.setupCommands == raw.setup.value
    ensures d.name == raw.name && d.dirName == raw.dirName && d.url == raw.url && d.hash == raw.sha256
    ensures d.paths == raw.includePaths
  {
    Dependency(raw.name, raw.dirName, raw.url, raw.sha256, raw.includePaths,
      match raw.setup case Some(s) => s case None => [])
  }

  /** The dependency tables in file order. */
  function MakeDependencies(raws: seq<RawDependency>): (ds: seq<Dependency>)
    ensures |ds| == |raws|
    ensures forall i :: 0 <= i < |ds| ==> ds[i] == MakeDependency(raws[i])
  {
    if raws == [] then [] else [MakeDependency(raws[0])] + MakeDependencies(raws[1..])
  }

  /** Config(path) once the file is parsed: the version is checked before anything else is read. */
  function LoadConfig(raw: RawConfig): (r: Result<Config, ConfigError>)
    ensures r.Ok? ==> r.value.dependencies == MakeDependencies(raw.dependencies) && r.value.actions == raw.actions
    ensures r.Ok? ==> r.value.repoEnvPath == raw.repoEnvPath && r.value.baseromPath == raw.baseromPath
    ensures r.Ok? ==> r.value.baseromHash == raw.baseromHash && r.value.repoUrl == raw.repoUrl
    ensures r.Ok? ==> r.value.repoCommit == raw.repoCommit
  {
    match raw.formatVersion
    case None => Err(MissingFormatVersion)
    case Some(v) =>
      match AsInt(v)
      case None => Err(InvalidFormatVersion(v))
      case Some(n) =>
        if n < MinVersion then Err(InvalidFormatVersion(v))
        else if n > CurrentVersion then Err(UnsupportedFormatVersion(n))
        else Ok(Config(raw.name, raw.description, raw.repoUrl, raw.repoCommit, raw.repoEnvPath,
          raw.baseromName, raw.baseromHash, raw.baseromPath, MakeDependencies(raw.dependencies), raw.actions))
  }

  // ---------------------------------------------------------------- the project environment

  datatype Project = Project(path: Path, config: Config)

  /** get_env_path: where dependencies are set up. */
  function EnvPath(p: Project): Path {
    p.path + [p.config.repoEnvPath]
  }

  function DependencyDir(p: Project, d: Dependency): Path {
    EnvPath(p) + [d.dirName]
  }

  function BaseromPath(p: Project): Path {
    p.path + [p.config.baseromPath]
  }

  const Comspec: string := "C:\\Windows\\System32\\cmd.exe"
  const Prompt: string := "$E[32m$P$_$E[38;5;226m$$$E[m$S"

  /** The resolved include paths of one dependency, in the order listed. */
  function DependencyIncludes(env: Path, d: Dependency, resolve: Path -> string): (r: seq<string>)
    ensures |r| == |d.paths|
    ensures forall i :: 0 <= i < |r| ==> r[i] == resolve(env + [d.dirName] + [d.paths[i]])
  {
    seq(|d.paths|, i requires 0 <= i < |d.paths| => resolve(env + [d.dirName] + [d.paths[i]]))
  }

  /** The include paths of all dependencies: dependency order, then include-path order. */
  function IncludePaths(env: Path, deps: seq<Dependency>, resolve: Path -> string): (r: seq<string>)
    ensures forall q :: q in r <==> exists i :: 0 <= i < |deps| && q in DependencyIncludes(env, deps[i], resolve)
    ensures |deps| == 1 ==> r == DependencyIncludes(env, deps[0], resolve)
  {
    if deps == [] then []
    else
      var first, rest := DependencyIncludes(env, deps[0], resolve), IncludePaths(env, deps[1..], resolve);
      assert forall i :: 1 <= i < |deps| ==> deps[i] == deps[1..][i - 1];
      first + rest
  }

  /**
   * get_env: a copy of the process environment with the include paths put in front of PATH and COMSPEC
   * and PROMPT fixed. Without a PATH variable the lookup raises KeyError.
   */
  function GetEnv(p: Project, environ: map<string, string>, resolve: Path -> string): (r: Option<map<string, string>>)
    ensures r.Some? <==> "PATH" in environ
    ensures r.Some? ==> r.value.Keys == environ.Keys + {"COMSPEC", "PROMPT"}
    ensures r.Some? ==> r.value["COMSPEC"] == Comspec && r.value["PROMPT"] == Prompt
    ensures r.Some? ==> forall k :: k in environ && k !in {"COMSPEC", "PATH", "PROMPT"} ==> r.value[k] == environ[k]
  {
    if "PATH" !in environ then None
    else
      var entries := IncludePaths(EnvPath(p), p.config.dependencies, resolve) + SplitOn(environ["PATH"], ';');
      Some(environ["COMSPEC" := Comspec]["PATH" := Join(entries, ";")]["PROMPT" := Prompt])
  }

  // ---------------------------------------------------------------- does an opened project need setup?

  /** The loop over the dependencies: some dependency directory is missing. */
  function SomeDependencyMissing(p: Project, deps: seq<Dependency>, existing: set<Path>): bool {
    if deps == [] then false
    else if DependencyDir(p, deps[0]) !in existing then true
    else SomeDependencyMissing(p, deps[1..], existing)
  }

  /**
   * existing_project_requires_setup, over the set of paths that exist: setup is needed exactly when
   * the environment, a dependency directory or the game ROM is missing.
   */
  function RequiresSetup(p: Project, existing: set<Path>): (r: bool)
    ensures r <==>
      || EnvPath(p) !in existing
      || (exists i :: 0 <= i < |p.config.dependencies| && DependencyDir(p, p.config.dependencies[i]) !in existing)
      || BaseromPath(p) !in existing
  {
    SomeDependencyMissingIff(p, p.config.dependencies, existing);
    if EnvPath(p) !in existing then true
    else if SomeDependencyMissing(p, p.config.dependencies, existing) then true
    else BaseromPath(p) !in existing
  }

  // ---------------------------------------------------------------- the setup plan

  /** What a leaf task does, with the arguments it is constructed with. */
  datatype Step =
    | Download(destination: Path, url: string, expectedHash: string)
    | Extract(archive: Path, destination: Path)
    | FileOperations(directory: Path, commands: seq<seq<string>>)
    | CloneRepo(url: string, commit: string, directory: Path, env: map<string, string>)
    | CopyFile(source: Path, destination: Path, failureMessage: string)

  /**
   * The task tree get_setup_task returns. `DependencySetup` is the sequence that first creates the
   * environment directory.
   */
  datatype Plan =
    | Sequence(name: string, children: seq<Plan>)
    | DependencySetup(name: string, envPath: Path, children: seq<Plan>)
    | Task(name: string, step: Step)

  const RomCopyFailure: string := "An error occurred when copying the game ROM to the project folder."

  /** The sequence for one dependency: empty when its directory exists. */
  function DependencyPlan(p: Project, d: Dependency, existing: set<Path>, depCache: Path): (r: Plan)
    ensures r.Sequence? && r.name == d.name
    ensures DependencyDir(p, d) in existing <==> r.children == []
  {
    var dir := DependencyDir(p, d);
    if dir in existing then Sequence(d.name, [])
    else
      var cache := depCache + [d.hash];
      Sequence(d.name, [
        Task("Download archive", Download(cache, d.url, d.hash)),
        Task("Extract archive", Extract(cache, dir)),
        Task("Finish setup", FileOperations(dir, d.setupCommands))])
  }

  function DependencyPlans(p: Project, deps: seq<Dependency>, existing: set<Path>, depCache: Path): (r: seq<Plan>)
    ensures |r| == |deps|
    ensures forall i :: 0 <= i < |r| ==> r[i] == DependencyPlan(p, deps[i], existing, depCache)
  {
    if deps == [] then [] else [DependencyPlan(p, deps[0], existing, depCache)] + DependencyPlans(p, deps[1..], existing, depCache)
  }

  /**
   * get_setup_task. The repository task captures get_env() when it is built, so without a PATH
   * variable building the plan raises (None) unless the repository already exists.
   */
  function SetupPlan(
    p: Project, existing: set<Path>, fromExistingRepo: bool,
    environ: map<string, string>, resolve: Path -> string, depCache: Path, romCache: Path): (r: Option<Plan>)
    ensures r.None? <==> !fromExistingRepo && "PATH" !in environ
    ensures r.Some? ==> r.value.Sequence? && r.value.name == "Create project"
  {
    var deps := DependencySetup("Set up dependencies", EnvPath(p), DependencyPlans(p, p.config.dependencies, existing, depCache));
    var rom := if BaseromPath(p) in existing then []
      else [Task("Copy game ROM", CopyFile(romCache + [p.config.baseromHash], BaseromPath(p), RomCopyFailure))];
    if fromExistingRepo then Some(Sequence("Create project", [deps] + rom))
    else
      match GetEnv(p, environ, resolve)
      case None => None
      case Some(env) =>
        var repo := Task("Set up repository", CloneRepo(p.config.repoUrl, p.config.repoCommit, p.path, env));
        Some(Sequence("Create project", [deps] + [repo] + rom))
  }

  /** The leaf tasks of a plan, in execution order. */
  function Leaves(plan: Plan): seq<Step>
    decreases plan, 1
  {
    match plan
    case Task(_, s) => [s]
    case Sequence(_, cs) => LeavesOf(cs)
    case DependencySetup(_, _, cs) => LeavesOf(cs)
  }

  function LeavesOf(cs: seq<Plan>): seq<Step>
    decreases cs, 0
  {
    if cs == [] then [] else Leaves(cs[0]) + LeavesOf(cs[1..])
  }

  // ---------------------------------------------------------------- where the start page goes next

  /** gui_common.PageId */
  datatype PageId = Start | SetupTemplate | SetupDirectory | SetupBaserom | SetupProgressFromTemplate | SetupProgressFromRepo | ProjectActions

  function PageNumber(id: PageId): (n: nat)
    ensures n <= 6
  {
    match id
    case Start => 0
    case SetupTemplate => 1
    case SetupDirectory => 2
    case SetupBaserom => 3
    case SetupProgressFromTemplate => 4
    case SetupProgressFromRepo => 5
    case ProjectActions => 6
  }

  /** The next page and the setup_from_repo flag after opening an existing project. */
  datatype Route = Route(next: PageId, setupFromRepo: bool)

  /**
   * validatePage for an existing project. It goes to the actions page iff the environment, every
   * dependency directory and the ROM are present, keeping the flag; otherwise setup starts from the
   * repository, on the progress page when the ROM is in the cache and on the ROM page when not.
   */
  function OpenProjectRoute(p: Project, existing: set<Path>, romCache: Path, setupFromRepo: bool): (r: Route)
    ensures r.next in {ProjectActions, SetupProgressFromRepo, SetupBaserom}
    ensures r.next == ProjectActions <==>
      && EnvPath(p) in existing
      && (forall i :: 0 <= i < |p.config.dependencies| ==> DependencyDir(p, p.config.dependencies[i]) in existing)
      && BaseromPath(p) in existing
    ensures r.next == ProjectActions ==> r.setupFromRepo == setupFromRepo
    ensures r.next != ProjectActions ==>
      r.setupFromRepo && (r.next == SetupProgressFromRepo <==> romCache + [p.config.baseromHash] in existing)
  {
    if RequiresSetup(p, existing) then
      if romCache + [p.config.baseromHash] in existing then Route(SetupProgressFromRepo, true)
      else Route(SetupBaserom, true)
    else Route(ProjectActions, setupFromRepo)
  }

  // ---------------------------------------------------------------- properties

  /** The gate accepts exactly version 1, which TOML may also spell `true`. */
  lemma VersionGate(raw: RawConfig)
    ensures LoadConfig(raw).Ok? <==> raw.formatVersion == Some(TomlInt(1)) || raw.formatVersion == Some(TomlBool(true))
    ensures LoadConfig(raw).Err? && LoadConfig(raw).error.UnsupportedFormatVersion? <==>
      raw.formatVersion.Some? && AsInt(raw.formatVersion.value).Some? && AsInt(raw.formatVersion.value).value > CurrentVersion
  {
  }

  lemma {:induction false} IncludePathsAppend(env: Path, xs: seq<Dependency>, ys: seq<Dependency>, resolve: Path -> string)
    ensures IncludePaths(env, xs + ys, resolve) == IncludePaths(env, xs, resolve) + IncludePaths(env, ys, resolve)
  {
    if xs == [] {
      assert xs + ys == ys;
    } else {
      assert (xs + ys)[0] == xs[0] && (xs + ys)[1..] == xs[1..] + ys;
      IncludePathsAppend(env, xs[1..], ys, resolve);
    }
  }

  /**
   * PATH is the include paths followed by the old PATH entries: splitting the new value on ';' gives
   * exactly those, provided no resolved include path contains ';'.
   */
  lemma PathEntries(p: Project, environ: map<string, string>, resolve: Path -> string)
    requires "PATH" in environ
    requires forall q :: q in IncludePaths(EnvPath(p), p.config.dependencies, resolve) ==> ';' !in q
    ensures SplitOn(GetEnv(p, environ, resolve).value["PATH"], ';') ==
      IncludePaths(EnvPath(p), p.config.dependencies, resolve) + SplitOn(environ["PATH"], ';')
  {
    var inc := IncludePaths(EnvPath(p), p.config.dependencies, resolve);
    var entries := inc + SplitOn(environ["PATH"], ';');
    assert forall k :: 0 <= k < |entries| ==> ';' !in entries[k] by {
      forall k | 0 <= k < |entries| ensures ';' !in entries[k] {
        if k < |inc| {
          assert entries[k] == inc[k] && inc[k] in inc;
        } else {
          assert entries[k] == SplitOn(environ["PATH"], ';')[k - |inc|];
        }
      }
    }
    SplitJoin(entries, ';');
  }

  lemma {:induction false} SomeDependencyMissingIff(p: Project, deps: seq<Dependency>, existing: set<Path>)
    ensures SomeDependencyMissing(p, deps, existing) <==> exists i :: 0 <= i < |deps| && DependencyDir(p, deps[i]) !in existing
  {
    if deps != [] {
      SomeDependencyMissingIff(p, deps[1..], existing);
      if DependencyDir(p, deps[0]) in existing {
        assert forall i :: 1 <= i < |deps| ==> deps[i] == deps[1..][i - 1];
      }
    }
  }

  /**
   * The root sequence holds, in order: the dependencies sequence, the repository task unless the
   * repository already exists, and the ROM copy from the ROM cache iff the ROM is missing.
   */
  lemma PlanOrder(
    p: Project, existing: set<Path>, fromExistingRepo: bool,
    environ: map<string, string>, resolve: Path -> string, depCache: Path, romCache: Path)
    requires fromExistingRepo || "PATH" in environ
    ensures var cs := SetupPlan(p, existing, fromExistingRepo, environ, resolve, depCache, romCache).value.children;
      && |cs| == 1 + (if fromExistingRepo then 0 else 1) + (if BaseromPath(p) in existing then 0 else 1)
      && cs[0] == DependencySetup("Set up dependencies", EnvPath(p), DependencyPlans(p, p.config.dependencies, existing, depCache))
      && (!fromExistingRepo ==> cs[1] == Task("Set up repository",
            CloneRepo(p.config.repoUrl, p.config.repoCommit, p.path, GetEnv(p, environ, resolve).value)))
      && (BaseromPath(p) !in existing ==>
            cs[|cs| - 1] == Task("Copy game ROM", CopyFile(romCache + [p.config.baseromHash], BaseromPath(p), RomCopyFailure)))
  {
  }

  /**
   * Every dependency gets its own sequence; a missing directory is filled by downloading into the
   * cache under the archive's hash, extracting into the directory and running the setup commands.
   */
  lemma DependencySteps(p: Project, d: Dependency, existing: set<Path>, depCache: Path)
    requires DependencyDir(p, d) !in existing
    ensures Leaves(DependencyPlan(p, d, existing, depCache)) == [
      Download(depCache + [d.hash], d.url, d.hash),
      Extract(depCache + [d.hash], DependencyDir(p, d)),
      FileOperations(DependencyDir(p, d), d.setupCommands)]
  {
    var plan := DependencyPlan(p, d, existing, depCache);
    var cs := plan.children;
    assert Leaves(plan) == LeavesOf(cs);
    assert LeavesOf(cs[2..]) == Leaves(cs[2]) + LeavesOf([]) by {
      assert cs[2..][0] == cs[2] && cs[2..][1..] == [];
    }
    assert LeavesOf(cs[1..]) == Leaves(cs[1]) + LeavesOf(cs[2..]) by {
      assert cs[1..][0] == cs[1] && cs[1..][1..] == cs[2..];
    }
    assert LeavesOf(cs) == Leaves(cs[0]) + LeavesOf(cs[1..]);
  }

  lemma {:induction false} DependencyLeavesEmpty(p: Project, deps: seq<Dependency>, existing: set<Path>, depCache: Path)
    ensures LeavesOf(DependencyPlans(p, deps, existing, depCache)) == [] <==>
      forall i :: 0 <= i < |deps| ==> DependencyDir(p, deps[i]) in existing
  {
    if deps != [] {
      var cs := DependencyPlans(p, deps, existing, depCache);
      assert cs[1..] == DependencyPlans(p, deps[1..], existing, depCache);
      DependencyLeavesEmpty(p, deps[1..], existing, depCache);
      var first := DependencyPlan(p, deps[0], existing, depCache);
      assert |Leaves(first)| == 0 <==> DependencyDir(p, deps[0]) in existing by {
        if DependencyDir(p, deps[0]) !in existing {
          DependencySteps(p, deps[0], existing, depCache);
        }
      }
      assert forall i :: 1 <= i < |deps| ==> deps[i] == deps[1..][i - 1];
    }
  }

  /**
   * With the repository in place, the plan has leaf tasks exactly when a dependency directory or the
   * ROM is missing; in particular a project that needs no setup gets a plan with nothing to do.
   */
  lemma NothingToDoWhenReady(
    p: Project, existing: set<Path>, environ: map<string, string>, resolve: Path -> string, depCache: Path, romCache: Path)
    ensures var plan := SetupPlan(p, existing, true, environ, resolve, depCache, romCache).value;
      Leaves(plan) == [] <==>
        (forall i :: 0 <= i < |p.config.dependencies| ==> DependencyDir(p, p.config.dependencies[i]) in existing)
        && BaseromPath(p) in existing
    ensures !RequiresSetup(p, existing) ==> Leaves(SetupPlan(p, existing, true, environ, resolve, depCache, romCache).value) == []
  {
    var plan := SetupPlan(p, existing, true, environ, resolve, depCache, romCache).value;
    var depPlans := DependencyPlans(p, p.config.dependencies, existing, depCache);
    var deps := DependencySetup("Set up dependencies", EnvPath(p), depPlans);
    DependencyLeavesEmpty(p, p.config.dependencies, existing, depCache);
    var cs := plan.children;
    assert Leaves(cs[0]) == LeavesOf(depPlans);
    if BaseromPath(p) in existing {
      assert cs == [deps];
      assert LeavesOf(cs) == Leaves(cs[0]) + LeavesOf([]) by {
        assert cs[1..] == [];
      }
    } else {
      var copy := cs[1];
      assert LeavesOf(cs) == Leaves(cs[0]) + LeavesOf(cs[1..]);
      assert cs[1..] == [copy] && cs[1..][1..] == [];
      assert |Leaves(copy)| == 1;
    }
  }
}
