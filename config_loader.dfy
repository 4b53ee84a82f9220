/** Layered configuration: built-in defaults, the project's config/blade.php, the caller's
    overrides and the block for the current environment, deep-merged in that order, checked for
    the two required paths and kept in a process-wide cache. */
module Config {
  import opened PhpStrings
  import opened PhpValues

  // ---------------------------------------------------------------------------
  // What the loader reads from the machine it runs on

  /** A config file that exists: either unreadable, or a PHP file that returns a value. */
  datatype ConfigFile = Unreadable | Returns(value: Value)

  /** The loader's view of its host: the directory the loader's own source lives in, the
      directories that exist, the files that exist, `$_ENV['APP_ENV']` and `getenv('APP_ENV')`
      (None standing for an unset entry and for `false` respectively). */
  datatype Host = Host(
    sourceDir: string,
    dirs: set<string>,
    files: map<string, ConfigFile>,
    envVar: Option<string>,
    getenvVar: Option<string>)

  /** The values under the consecutive keys f, f+1, ... */
  function IndexedFrom(vs: seq<Value>, f: nat): (r: seq<Entry>)
    ensures |r| == |vs| && forall i :: 0 <= i < |vs| ==> r[i] == Entry(IntKey(f + i), vs[i])
  {
    seq(|vs|, i requires 0 <= i < |vs| => Entry(IntKey(f + i), vs[i]))
  }

  /** A PHP list: the values under the keys 0, 1, 2, ... */
  function ListEntries(vs: seq<Value>): seq<Entry> {
    IndexedFrom(vs, 0)
  }

  function Field(name: string, v: Value): Entry {
    Entry(StrKey(name), v)
  }

  /** getDefaultConfig(): everything but the paths has a default; the three paths are null. */
  function DefaultConfig(): seq<Entry> {
    [ Field("viewsPath", Null),
      Field("cachePath", Null),
      Field("componentPath", Null),
      Field("componentNamespace", Str("components")),
      Field("namespaces", Arr([])),
      Field("debug", Bool(true)),
      Field("autoReload", Bool(true)),
      Field("extensions", Arr(ListEntries([Str("blade.php"), Str("blade.html")]))),
      Field("customDirectives", Arr([])),
      Field("errorHandling", Arr([
        Field("showErrors", Bool(true)),
        Field("logErrors", Bool(true)),
        Field("errorView", Null)])),
      Field("performance", Arr([
        Field("precompileViews", Bool(false)),
        Field("cacheFileChecks", Bool(true)),
        Field("optimizeIncludes", Bool(true))])),
      Field("security", Arr([
        Field("csrfToken", Bool(true)),
        Field("escapeByDefault", Bool(true)),
        Field("allowPhpTags", Bool(false))])),
      Field("environments", Arr([])) ]
  }

  // ---------------------------------------------------------------------------
  // getCurrentEnvironment

  /** `($_ENV['APP_ENV'] ?? getenv('APP_ENV')) ?: 'development'`: getenv is consulted only when
      `$_ENV` has no entry, and a falsy name ("" or "0") becomes 'development'. The name is used
      as given, with no case folding. */
  function CurrentEnvironment(host: Host): (r: string)
    ensures r != "" && r != "0"
    ensures host.envVar.Some? ==> r == host.envVar.value || r == "development"
    ensures host.envVar.None? && host.getenvVar.Some? ==> r == host.getenvVar.value || r == "development"
    ensures host.envVar.None? && host.getenvVar.None? ==> r == "development"
    ensures host.envVar.Some? && host.envVar.value != "" && host.envVar.value != "0" ==> r == host.envVar.value
    ensures host.envVar.None? && host.getenvVar.Some? && host.getenvVar.value != "" && host.getenvVar.value != "0" ==>
      r == host.getenvVar.value
  {
    var v := if host.envVar.Some? then Str(host.envVar.value)
             else if host.getenvVar.Some? then Str(host.getenvVar.value)
             else Bool(false);
    if IsEmpty(v) then "development" else v.s
  }

  // ---------------------------------------------------------------------------
  // findProjectRoot

  /** The loader looks at no more than this many directories. */
  const MaxProbes: nat := 10

  const RootNotFound: string := "Could not find the project root. The `vendor` directory is missing."

  predicate HasVendor(host: Host, dir: string) {
    dir + "/vendor" in host.dirs
  }

  /** The k-th parent of a directory, by dirname(). */
  function Ancestor(dir: string, k: nat): string
    decreases k
  {
    if k == 0 then dir else Ancestor(Dirname(dir), k - 1)
  }

  /** The walk up from `dir`, with `probes` directories still allowed. */
  function SearchRoot(host: Host, dir: string, probes: nat): (r: Result<string>)
    ensures r.Err? ==> r == Err(RuntimeException(RootNotFound))
    decreases probes
  {
    if probes == 0 then Err(RuntimeException(RootNotFound))
    else if HasVendor(host, dir) then Ok(dir)
    else if Dirname(dir) == dir then Err(RuntimeException(RootNotFound))
    else SearchRoot(host, Dirname(dir), probes - 1)
  }

  /** The project root seen from the loader's own directory. */
  function ProjectRoot(host: Host): Result<string> {
    SearchRoot(host, host.sourceDir, MaxProbes)
  }

  lemma {:induction false} AncestorOfFixedPoint(dir: string, k: nat)
    requires Dirname(dir) == dir
    ensures Ancestor(dir, k) == dir
    decreases k
  {
    if k > 0 {
      AncestorOfFixedPoint(dir, k - 1);
    }
  }

  /** The j-th ancestor of `dir` is the first one holding a `vendor` directory. */
  ghost predicate NearestVendor(host: Host, dir: string, j: nat) {
    HasVendor(host, Ancestor(dir, j)) && forall i :: 0 <= i < j ==> !HasVendor(host, Ancestor(dir, i))
  }

  /** The search finds the nearest of the first `probes` ancestors that holds a `vendor`
      directory, and fails only when none of them does. */
  lemma {:induction false} SearchRootFindsNearest(host: Host, dir: string, probes: nat)
    ensures SearchRoot(host, dir, probes).Ok? ==> HasVendor(host, SearchRoot(host, dir, probes).value)
    ensures forall j: nat :: j < probes && NearestVendor(host, dir, j) ==>
      SearchRoot(host, dir, probes) == Ok(Ancestor(dir, j))
    ensures SearchRoot(host, dir, probes).Err? ==>
      forall j :: 0 <= j < probes ==> !HasVendor(host, Ancestor(dir, j))
    decreases probes
  {
    if probes == 0 {
    } else if HasVendor(host, dir) {
      forall j: nat | j < probes && NearestVendor(host, dir, j)
        ensures SearchRoot(host, dir, probes) == Ok(Ancestor(dir, j))
      {
        assert Ancestor(dir, 0) == dir;
      }
    } else if Dirname(dir) == dir {
      forall j | 0 <= j < probes
        ensures Ancestor(dir, j) == dir
      {
        AncestorOfFixedPoint(dir, j);
      }
    } else {
      var parent := Dirname(dir);
      SearchRootFindsNearest(host, parent, probes - 1);
      assert forall j :: 1 <= j < probes ==> Ancestor(dir, j) == Ancestor(parent, j - 1);
      forall j: nat | j < probes && NearestVendor(host, dir, j)
        ensures SearchRoot(host, dir, probes) == Ok(Ancestor(dir, j))
      {
        assert j != 0;
        forall i | 0 <= i < j - 1
          ensures !HasVendor(host, Ancestor(parent, i))
        {
          assert Ancestor(parent, i) == Ancestor(dir, i + 1);
        }
        assert NearestVendor(host, parent, j - 1);
      }
    }
  }

  // ---------------------------------------------------------------------------
  // loadConfigFile

  function ConfigPath(root: string): string {
    root + "/config/blade.php"
  }

  /** loadConfigFile(): a missing or unreadable file is a RuntimeException naming it; a file that
      returns anything but an array counts as []. */
  function LoadConfigFile(host: Host, root: string): (r: Result<seq<Entry>>)
    ensures ConfigPath(root) !in host.files ==>
      r == Err(RuntimeException("Blade configuration file not found at: " + ConfigPath(root)))
    ensures ConfigPath(root) in host.files && host.files[ConfigPath(root)].Unreadable? ==>
      r == Err(RuntimeException("Blade configuration file is not readable: " + ConfigPath(root)))
    ensures r.Ok? ==>
      && ConfigPath(root) in host.files && host.files[ConfigPath(root)].Returns?
      && r.value == (var v := host.files[ConfigPath(root)].value; if v.Arr? then v.entries else [])
  {
    var file := ConfigPath(root);
    if file !in host.files then Err(RuntimeException("Blade configuration file not found at: " + file))
    else match host.files[file]
      case Unreadable => Err(RuntimeException("Blade configuration file is not readable: " + file))
      case Returns(v) => Ok(if v.Arr? then v.entries else [])
  }

  // ---------------------------------------------------------------------------
  // validateRequiredPaths

  const RequiredPaths: seq<string> := ["viewsPath", "cachePath"]

  /** A required path is present as a non-empty string ("0" counting as empty). */
  predicate ValidPath(config: seq<Entry>, name: string) {
    var v := Get(config, StrKey(name));
    v.Str? && !IsEmpty(v)
  }

  predicate ValidConfig(config: seq<Entry>) {
    forall i :: 0 <= i < |RequiredPaths| ==> ValidPath(config, RequiredPaths[i])
  }

  function PathError(name: string): Error {
    InvalidArgumentException("Configuration value for '" + name +
      "' must be a non-empty string. Please check your 'config/blade.php'.")
  }

  /** The position of the first of `names[k..]` that is not a valid path, or |names|. */
  function FirstInvalidFrom(config: seq<Entry>, names: seq<string>, k: nat): (i: nat)
    requires k <= |names|
    ensures k <= i <= |names|
    ensures forall j :: k <= j < i ==> ValidPath(config, names[j])
    ensures i < |names| ==> !ValidPath(config, names[i])
    decreases |names| - k
  {
    if k == |names| || !ValidPath(config, names[k]) then k
    else FirstInvalidFrom(config, names, k + 1)
  }

  /** The exception for the first of `names` that is not a valid path, if any. */
  function FirstPathError(config: seq<Entry>, names: seq<string>): (r: Option<Error>)
    ensures r.None? <==> forall i :: 0 <= i < |names| ==> ValidPath(config, names[i])
    ensures r.Some? ==> exists i ::
      && 0 <= i < |names| && !ValidPath(config, names[i])
      && r.value == PathError(names[i]) && (forall j :: 0 <= j < i ==> ValidPath(config, names[j]))
  {
    var i := FirstInvalidFrom(config, names, 0);
    if i < |names| then Some(PathError(names[i])) else None
  }

  function RequiredPathsError(config: seq<Entry>): Option<Error> {
    FirstPathError(config, RequiredPaths)
  }

  /** validateRequiredPaths(): checks the required keys in order and reports the first failure. */
  method ValidateRequiredPaths(config: seq<Entry>) returns (r: Option<Error>)
    ensures r == RequiredPathsError(config)
    ensures r.None? <==> ValidConfig(config)
  {
    var i := 0;
    while i < |RequiredPaths|
      invariant 0 <= i <= |RequiredPaths|
      invariant forall j :: 0 <= j < i ==> ValidPath(config, RequiredPaths[j])
    {
      var key := RequiredPaths[i];
      if !ValidPath(config, key) {
        return Some(PathError(key));
      }
      i := i + 1;
    }
    return None;
  }

  /** The defaults alone never pass: both paths default to null. */
  lemma DefaultsLackPaths()
    ensures RequiredPathsError(DefaultConfig()) == Some(PathError("viewsPath"))
  {
    assert Get(DefaultConfig(), StrKey("viewsPath")) == Null;
  }

  // ---------------------------------------------------------------------------
  // The merge of the layers and the environment block

  /** array_replace_recursive($defaults, $fileConfig, $customConfig). */
  function MergeLayers(file: seq<Entry>, custom: seq<Entry>): seq<Entry> {
    ReplaceRecursiveAll(DefaultConfig(), [file, custom])
  }

  /** Top-level precedence: the caller's overrides beat the file, which beats the defaults;
      a key only a lower layer has survives; two arrays under the same key are merged key-wise. */
  lemma MergeLayersLookup(file: seq<Entry>, custom: seq<Entry>, k: Key)
    requires DistinctKeys(file) && DistinctKeys(custom)
    ensures var merged := Lookup(MergeLayers(file, custom), k);
      var lower := match Lookup(file, k)
        case None => Lookup(DefaultConfig(), k)
        case Some(v) => Some(ReplacedValue(Lookup(DefaultConfig(), k), v));
      merged == match Lookup(custom, k)
        case None => lower
        case Some(v) => Some(ReplacedValue(lower, v))
  {
    var afterFile := ReplaceRecursive(DefaultConfig(), file);
    assert MergeLayers(file, custom) == ReplaceRecursive(afterFile, custom) by {
      assert [file, custom][0] == file && [file, custom][1..] == [custom];
      assert ReplaceRecursiveAll(DefaultConfig(), [file, custom]) == ReplaceRecursiveAll(afterFile, [custom]);
      assert [custom][1..] == [];
      assert ReplaceRecursiveAll(afterFile, [custom]) == ReplaceRecursiveAll(ReplaceRecursive(afterFile, custom), []);
    }
    ReplaceRecursiveLookup(DefaultConfig(), file, k);
    ReplaceRecursiveLookup(afterFile, custom, k);
  }

  /** A scalar from a higher layer is what the merged config holds. */
  lemma ScalarOverridesWin(file: seq<Entry>, custom: seq<Entry>, k: Key)
    requires DistinctKeys(file) && DistinctKeys(custom)
    ensures Lookup(custom, k).Some? && !Lookup(custom, k).value.Arr? ==>
      Lookup(MergeLayers(file, custom), k) == Lookup(custom, k)
    ensures Lookup(custom, k).None? && Lookup(file, k).Some? && !Lookup(file, k).value.Arr? ==>
      Lookup(MergeLayers(file, custom), k) == Lookup(file, k)
    ensures Lookup(custom, k).None? && Lookup(file, k).None? ==>
      Lookup(MergeLayers(file, custom), k) == Lookup(DefaultConfig(), k)
  {
    MergeLayersLookup(file, custom, k);
  }

  /** The entries of a list after the entries of another list are written over it by position. */
  function Overlaid(prior: seq<Value>, over: seq<Value>): (r: seq<Value>)
    ensures |r| == if |over| > |prior| then |over| else |prior|
  {
    seq(if |over| > |prior| then |over| else |prior|,
        j requires 0 <= j < (if |over| > |prior| then |over| else |prior|) =>
          if j < |over| then over[j] else prior[j])
  }

  /** Writing value v at position f of a list: the value is replaced in place, or appended right
      after the end. */
  lemma PutListEntry(ds: seq<Value>, f: nat, v: Value)
    requires f <= |ds|
    ensures Lookup(ListEntries(ds), IntKey(f)) == if f < |ds| then Some(ds[f]) else None
    ensures Put(ListEntries(ds), IntKey(f), v) ==
      ListEntries(if f < |ds| then ds[f := v] else ds + [v])
  {
    var a := ListEntries(ds);
    if f < |ds| {
      assert a[f].key == IntKey(f);
      assert IndexOf(a, IntKey(f)) == Some(f);
      assert a[f := Entry(IntKey(f), v)] == ListEntries(ds[f := v]);
    } else {
      IndexOfAbsent(a, IntKey(f));
      assert a + [Entry(IntKey(f), v)] == ListEntries(ds + [v]);
    }
  }

  /** The list `ds` with `ns` written over it from position f on. */
  function Spliced(ds: seq<Value>, f: nat, ns: seq<Value>): (r: seq<Value>)
    requires f <= |ds|
    ensures |r| == if f + |ns| > |ds| then f + |ns| else |ds|
    ensures forall j :: 0 <= j < |r| ==> r[j] == if f <= j < f + |ns| then ns[j - f] else ds[j]
  {
    ds[..f] + Overlaid(ds[f..], ns)
  }

  lemma SplicedStep(ds: seq<Value>, f: nat, ns: seq<Value>)
    requires f <= |ds| && ns != []
    ensures Spliced(WrittenAt(ds, f, ns[0]), f + 1, ns[1..]) == Spliced(ds, f, ns)
  {
  }

  /** The list after its entry at position f is written. */
  function WrittenAt(ds: seq<Value>, f: nat, v: Value): seq<Value>
    requires f <= |ds|
  {
    if f < |ds| then ds[f := v] else ds + [v]
  }

  /** Replacing into a list with entries keyed f, f+1, ... where no array meets an array. */
  lemma {:induction false} ReplaceListFrom(ds: seq<Value>, f: nat, ns: seq<Value>)
    requires f <= |ds|
    requires forall j :: 0 <= j < |ns| && f + j < |ds| ==> !(ns[j].Arr? && ds[f + j].Arr?)
    ensures ReplaceRecursive(ListEntries(ds), IndexedFrom(ns, f)) == ListEntries(Spliced(ds, f, ns))
    decreases |ns|
  {
    if ns == [] {
      assert Spliced(ds, f, ns) == ds;
    } else {
      var ds' := WrittenAt(ds, f, ns[0]);
      var ns' := ns[1..];
      NoArrayMeetsArray(ds, f, ns);
      ReplaceListFrom(ds', f + 1, ns');
      ReplaceListStep(ds, f, ns);
      SplicedStep(ds, f, ns);
    }
  }

  lemma NoArrayMeetsArray(ds: seq<Value>, f: nat, ns: seq<Value>)
    requires f <= |ds| && ns != []
    requires forall j :: 0 <= j < |ns| && f + j < |ds| ==> !(ns[j].Arr? && ds[f + j].Arr?)
    ensures var ds' := WrittenAt(ds, f, ns[0]); var ns' := ns[1..];
      forall j :: 0 <= j < |ns'| && f + 1 + j < |ds'| ==> !(ns'[j].Arr? && ds'[f + 1 + j].Arr?)
  {
    var ds' := WrittenAt(ds, f, ns[0]);
    var ns' := ns[1..];
    forall j | 0 <= j < |ns'| && f + 1 + j < |ds'|
      ensures !(ns'[j].Arr? && ds'[f + 1 + j].Arr?)
    {
      assert ns'[j] == ns[j + 1] && ds'[f + 1 + j] == ds[f + (j + 1)];
    }
  }

  /** Replacing the first entry writes its value in place: no array meets an array there. */
  lemma ReplaceListStep(ds: seq<Value>, f: nat, ns: seq<Value>)
    requires f <= |ds| && ns != []
    requires f < |ds| ==> !(ns[0].Arr? && ds[f].Arr?)
    ensures ReplaceRecursive(ListEntries(ds), IndexedFrom(ns, f)) ==
      ReplaceRecursive(ListEntries(WrittenAt(ds, f, ns[0])), IndexedFrom(ns[1..], f + 1))
  {
    var src := IndexedFrom(ns, f);
    PutListEntry(ds, f, ns[0]);
    assert ReplacedValue(Lookup(ListEntries(ds), IntKey(f)), ns[0]) == ns[0];
    assert src[0] == Entry(IntKey(f), ns[0]);
    assert src[1..] == IndexedFrom(ns[1..], f + 1);
  }

  /** A list such as `extensions` is replaced position by position, never appended to: the
      higher layer's entries take the first positions and the lower layer's remaining entries
      stay after them. */
  lemma ListsReplacedByPosition(prior: seq<Value>, over: seq<Value>)
    requires forall j :: 0 <= j < |over| && j < |prior| ==> !(over[j].Arr? && prior[j].Arr?)
    ensures ReplaceRecursive(ListEntries(prior), ListEntries(over)) == ListEntries(Overlaid(prior, over))
  {
    ReplaceListFrom(prior, 0, over);
    assert Spliced(prior, 0, over) == Overlaid(prior, over);
  }

  const EnvironmentsKey: Key := StrKey("environments")

  /** applyEnvironmentOverrides() on a config: when `environments[env]` is set, it is deep-merged
      over the whole config; a block that is set but is not an array is rejected by
      array_replace_recursive with a TypeError. */
  function EnvironmentOverride(config: seq<Entry>, env: string): (r: Result<seq<Entry>>)
    ensures At(Get(config, EnvironmentsKey), NormalizeKey(env)) == Null ==> r == Ok(config)
    ensures r.Err? <==>
      && !At(Get(config, EnvironmentsKey), NormalizeKey(env)).Arr?
      && At(Get(config, EnvironmentsKey), NormalizeKey(env)) != Null
  {
    if !Isset(config, EnvironmentsKey) then Ok(config)
    else
      var block := At(Get(config, EnvironmentsKey), NormalizeKey(env));
      if block == Null then Ok(config)
      else if !block.Arr? then Err(TypeError("array_replace_recursive(): Argument #2 must be of type array"))
      else Ok(ReplaceRecursive(config, block.entries))
  }

  /** The environment block is applied last, so its scalars beat every other layer, the
      caller's overrides included; keys it does not mention keep their value. */
  lemma EnvironmentBlockWins(config: seq<Entry>, env: string, k: Key)
    requires var block := At(Get(config, EnvironmentsKey), NormalizeKey(env));
      block.Arr? && DistinctKeys(block.entries)
    ensures var block := At(Get(config, EnvironmentsKey), NormalizeKey(env)).entries;
      && EnvironmentOverride(config, env).Ok?
      && (Lookup(block, k).Some? && !Lookup(block, k).value.Arr? ==>
            Lookup(EnvironmentOverride(config, env).value, k) == Lookup(block, k))
      && (Lookup(block, k).None? ==> Lookup(EnvironmentOverride(config, env).value, k) == Lookup(config, k))
  {
    var block := At(Get(config, EnvironmentsKey), NormalizeKey(env)).entries;
    ReplaceRecursiveLookup(config, block, k);
  }

  // ---------------------------------------------------------------------------
  // load(), as a transition of the loader's two static fields

  /** The static `$config` and `$rootPath`; None is null. */
  datatype LoaderState = LoaderState(config: Option<seq<Entry>>, rootPath: Option<string>)

  /** findProjectRoot() from a state: the remembered root, or the search. */
  function RootFrom(s: LoaderState, host: Host): Result<string> {
    if s.rootPath.Some? then Ok(s.rootPath.value) else ProjectRoot(host)
  }

  /** load($customConfig) as written: a cached config answers a call without overrides; otherwise
      the layers are merged and stored in the cache, then the environment block is applied to the
      cached config and the result validated. The config is stored before validation, so a
      failed call leaves it cached. */
  function LoadStep(s: LoaderState, host: Host, custom: seq<Entry>): (LoaderState, Result<seq<Entry>>)
  {
    if s.config.Some? && custom == [] then (s, Ok(s.config.value))
    else match RootFrom(s, host)
      case Err(e) => (s, Err(e))
      case Ok(root) =>
        var s1 := s.(rootPath := Some(root));
        match LoadConfigFile(host, root)
        case Err(e) => (s1, Err(e))
        case Ok(file) =>
          var merged := MergeLayers(file, custom);
          match EnvironmentOverride(merged, CurrentEnvironment(host))
          case Err(e) => (s1.(config := Some(merged)), Err(e))
          case Ok(config) =>
            var s2 := s1.(config := Some(config));
            match RequiredPathsError(config)
            case Some(e) => (s2, Err(e))
            case None => (s2, Ok(config))
  }

  /** A cached config answers a call without overrides, unchanged; a call with overrides always
      recomputes, whatever is cached. */
  lemma LoadUsesCacheOnlyWithoutOverrides(s: LoaderState, host: Host, custom: seq<Entry>, cached: seq<Entry>)
    ensures s.config.Some? && custom == [] ==> LoadStep(s, host, custom) == (s, Ok(s.config.value))
    ensures custom != [] ==>
      LoadStep(s, host, custom).1 == LoadStep(s.(config := Some(cached)), host, custom).1
  {
  }

  /** A freshly computed config is returned only when it carries both required paths, and it is
      the merged layers with the environment block applied. */
  lemma {:induction false} ComputedLoadIsValid(s: LoaderState, host: Host, custom: seq<Entry>)
    requires s.config.None? || custom != []
    ensures var (s', r) := LoadStep(s, host, custom);
      r.Ok? ==> && ValidConfig(r.value)
                && s'.config == Some(r.value)
                && RootFrom(s, host).Ok? && s'.rootPath == Some(RootFrom(s, host).value)
                && LoadConfigFile(host, RootFrom(s, host).value).Ok?
                && r == EnvironmentOverride(
                     MergeLayers(LoadConfigFile(host, RootFrom(s, host).value).value, custom),
                     CurrentEnvironment(host))
  {
    var (s', r) := LoadStep(s, host, custom);
    if r.Ok? {
      var root := RootFrom(s, host).value;
      var file := LoadConfigFile(host, root).value;
      var config := EnvironmentOverride(MergeLayers(file, custom), CurrentEnvironment(host)).value;
      assert RequiredPathsError(config).None?;
    }
  }

  /** The validity a cache must have for load() never to return an invalid config. */
  predicate CacheIsValid(s: LoaderState) {
    s.config.Some? ==> ValidConfig(s.config.value)
  }

  /** load() with the config stored only once it has passed validation: a failed call leaves the
      cache as it was. */
  function ValidatedLoadStep(s: LoaderState, host: Host, custom: seq<Entry>): (LoaderState, Result<seq<Entry>>)
  {
    var (s', r) := LoadStep(s, host, custom);
    if r.Err? then (s'.(config := s.config), r) else (s', r)
  }

  /** With validation before caching, every result of load(), cached or not, has both paths,
      and the cache stays valid. */
  lemma ValidatedLoadNeverReturnsInvalid(s: LoaderState, host: Host, custom: seq<Entry>)
    requires CacheIsValid(s)
    ensures var (s', r) := ValidatedLoadStep(s, host, custom);
      CacheIsValid(s') && (r.Ok? ==> ValidConfig(r.value))
  {
    if !(s.config.Some? && custom == []) {
      ComputedLoadIsValid(s, host, custom);
    }
  }

  /** A project whose config/blade.php returns [] and which has `vendor` next to the loader. */
  function NoPathsHost(): Host {
    Host("/app", {"/app/vendor"}, map["/app/config/blade.php" := Returns(Arr([]))], None, None)
  }

  lemma NoPathsHostLoadsDefaults()
    ensures ProjectRoot(NoPathsHost()) == Ok("/app")
    ensures LoadConfigFile(NoPathsHost(), "/app") == Ok([])
  {
    assert "/app" + "/vendor" == "/app/vendor";
    assert ConfigPath("/app") == "/app/config/blade.php";
  }

  /** Merging nothing over the defaults gives the defaults. */
  lemma MergeNothing()
    ensures MergeLayers([], []) == DefaultConfig()
  {
    var none: seq<Entry> := [];
    assert [none, none][0] == none && [none, none][1..] == [none];
    assert [none][0] == none && [none][1..] == [];
  }

  /** The defaults declare no environment blocks, so no environment changes them. */
  lemma DefaultsHaveNoEnvironmentBlocks(env: string)
    ensures EnvironmentOverride(DefaultConfig(), env) == Ok(DefaultConfig())
  {
    var d := DefaultConfig();
    assert |d| == 13;
    forall j | 0 <= j < 12
      ensures d[j].key != EnvironmentsKey
    {
      assert |d[j].key.s| != 12;
    }
    LookupLast(d, EnvironmentsKey);
    assert Get(d, EnvironmentsKey) == Arr([]);
  }

  /** A key found only in the last entry is read from there. */
  lemma LookupLast(a: seq<Entry>, k: Key)
    requires |a| > 0 && a[|a| - 1].key == k
    requires forall j :: 0 <= j < |a| - 1 ==> a[j].key != k
    ensures Lookup(a, k) == Some(a[|a| - 1].val)
  {
  }

  /** As written, the first load() fails validation, yet leaves the invalid config cached, and
      the next load() without overrides returns it: viewsPath is null. */
  lemma InvalidConfigServedFromCache()
    ensures var (s1, r1) := LoadStep(LoaderState(None, None), NoPathsHost(), []);
      && r1 == Err(PathError("viewsPath"))
      && var (_, r2) := LoadStep(s1, NoPathsHost(), []);
         r2.Ok? && Get(r2.value, StrKey("viewsPath")) == Null
  {
    NoPathsHostLoadsDefaults();
    MergeNothing();
    DefaultsHaveNoEnvironmentBlocks(CurrentEnvironment(NoPathsHost()));
    DefaultsLackPaths();
    var (s1, r1) := LoadStep(LoaderState(None, None), NoPathsHost(), []);
    assert s1.config == Some(DefaultConfig());
  }

  // ---------------------------------------------------------------------------
  // get(): a dotted path walked through nested arrays

  /** The value at the end of `segments`, each one an existing key of an array; None as soon as
      a segment is missing or the value reached is not an array. A key holding null resolves to
      null, not to None. */
  function Resolve(v: Value, segments: seq<string>): Option<Value> {
    if segments == [] then Some(v)
    else if v.Arr? && HasKey(v.entries, NormalizeKey(segments[0])) then
      Resolve(Get(v.entries, NormalizeKey(segments[0])), segments[1..])
    else None
  }

  /** get($key, $default) on a loaded config: the walk along the dot-separated segments, or the
      default. */
  function GetPath(config: seq<Entry>, key: string, default: Value): Value {
    match Resolve(Arr(config), Explode('.', key))
    case Some(v) => v
    case None => default
  }

  /** Walking a path in two pieces is walking it whole. */
  lemma {:induction false} ResolveAppend(v: Value, a: seq<string>, b: seq<string>)
    ensures Resolve(v, a + b) == match Resolve(v, a)
      case None => None
      case Some(w) => Resolve(w, b)
    decreases |a|
  {
    if a == [] {
      assert a + b == b;
    } else {
      assert (a + b)[0] == a[0] && (a + b)[1..] == a[1..] + b;
      if v.Arr? && HasKey(v.entries, NormalizeKey(a[0])) {
        ResolveAppend(Get(v.entries, NormalizeKey(a[0])), a[1..], b);
      }
    }
  }

  /** get() with a dotted key looks the segments up one level at a time: a key present with a
      null value yields null, a missing key or a non-array on the way yields the default. */
  lemma {:induction false} GetFollowsSegments(config: seq<Entry>, segments: seq<string>, default: Value)
    requires |segments| >= 1
    requires forall k, j :: 0 <= k < |segments| && 0 <= j < |segments[k]| ==> segments[k][j] != '.'
    ensures GetPath(config, Implode('.', segments), default) ==
      match Resolve(Arr(config), segments)
      case Some(v) => v
      case None => default
  {
    ExplodeImplode('.', segments);
  }

  /** A key without dots is one lookup: the stored value, null included, or the default. */
  lemma GetTopLevel(config: seq<Entry>, key: string, default: Value)
    requires forall j :: 0 <= j < |key| ==> key[j] != '.'
    ensures GetPath(config, key, default) ==
      if HasKey(config, NormalizeKey(key)) then Get(config, NormalizeKey(key)) else default
  {
    ExplodeNoSeparator('.', key);
    assert [key][0] == key && [key][1..] == [];
    assert Resolve(Arr(config), [key]) ==
      if HasKey(config, NormalizeKey(key)) then Some(Get(config, NormalizeKey(key))) else None;
  }

  // ---------------------------------------------------------------------------
  // The loader with its static fields

  /** ConfigLoader's static `$config` and `$rootPath`, as the fields of one loader object. */
  class ConfigLoader {
    var config: Option<seq<Entry>>
    var rootPath: Option<string>

    function State(): LoaderState
      reads this
    {
      LoaderState(config, rootPath)
    }

    constructor ()
      ensures State() == LoaderState(None, None)
    {
      config := None;
      rootPath := None;
    }

    /** findProjectRoot(): the remembered root, or a walk up at most ten directories from the
        loader's own, stopping early once dirname() reaches a fixed point. */
    method FindProjectRoot(host: Host) returns (r: Result<string>)
      modifies this`rootPath
      ensures r == RootFrom(old(State()), host)
      ensures rootPath == if r.Ok? then Some(r.value) else old(rootPath)
    {
      if rootPath.Some? {
        return Ok(rootPath.value);
      }
      var dir := host.sourceDir;
      var i := 0;
      while i < MaxProbes
        invariant 0 <= i <= MaxProbes
        invariant SearchRoot(host, dir, MaxProbes - i) == ProjectRoot(host)
      {
        if HasVendor(host, dir) {
          rootPath := Some(dir);
          return Ok(dir);
        }
        var parentDir := Dirname(dir);
        if parentDir == dir {
          break;
        }
        dir := parentDir;
        i := i + 1;
      }
      return Err(RuntimeException(RootNotFound));
    }

    /** applyEnvironmentOverrides() on the cached config. */
    method ApplyEnvironmentOverrides(host: Host) returns (r: Option<Error>)
      requires config.Some?
      modifies this`config
      ensures var o := EnvironmentOverride(old(config).value, CurrentEnvironment(host));
        && (o.Ok? ==> r.None? && config == Some(o.value))
        && (o.Err? ==> r == Some(o.error) && config == old(config))
    {
      var o := EnvironmentOverride(config.value, CurrentEnvironment(host));
      if o.Err? {
        return Some(o.error);
      }
      config := Some(o.value);
      return None;
    }

    /** load($customConfig). */
    method Load(host: Host, custom: seq<Entry>) returns (r: Result<seq<Entry>>)
      modifies this
      ensures (State(), r) == LoadStep(old(State()), host, custom)
    {
      if config.Some? && custom == [] {
        return Ok(config.value);
      }
      var root := FindProjectRoot(host);
      if root.Err? {
        return Err(root.error);
      }
      var file := LoadConfigFile(host, root.value);
      if file.Err? {
        return Err(file.error);
      }
      var merged := MergeLayers(file.value, custom);
      config := Some(merged);
      var overrideError := ApplyEnvironmentOverrides(host);
      if overrideError.Some? {
        return Err(overrideError.value);
      }
      var pathError := ValidateRequiredPaths(config.value);
      if pathError.Some? {
        return Err(pathError.value);
      }
      return Ok(config.value);
    }

    /** get($key, $default): load(), then the walk along the segments of the key. */
    method Get(host: Host, key: string, default: Value) returns (r: Result<Value>)
      modifies this
      ensures State() == LoadStep(old(State()), host, []).0
      ensures r == match LoadStep(old(State()), host, []).1
        case Err(e) => Err(e)
        case Ok(c) => Ok(GetPath(c, key, default))
    {
      var loaded := Load(host, []);
      if loaded.Err? {
        return Err(loaded.error);
      }
      var keys := Explode('.', key);
      var value := Arr(loaded.value);
      var i := 0;
      while i < |keys|
        invariant 0 <= i <= |keys|
        invariant Resolve(Arr(loaded.value), keys) == Resolve(value, keys[i..])
      {
        var segment := keys[i];
        if value.Arr? && HasKey(value.entries, NormalizeKey(segment)) {
          assert keys[i..][1..] == keys[i + 1..];
          value := PhpValues.Get(value.entries, NormalizeKey(segment));
        } else {
          return Ok(default);
        }
        i := i + 1;
      }
      assert keys[i..] == [];
      return Ok(value);
    }

    /** reset(): both static fields back to null. */
    method Reset()
      modifies this
      ensures State() == LoaderState(None, None)
    {
      config := None;
      rootPath := None;
    }
  }

  /** After reset(), load() ignores whatever was cached or remembered before. */
  lemma LoadAfterResetRecomputes(host: Host, custom: seq<Entry>)
    ensures LoadStep(LoaderState(None, None), host, custom).1 ==
      match ProjectRoot(host)
      case Err(e) => Err(e)
      case Ok(root) =>
        match LoadConfigFile(host, root)
        case Err(e) => Err(e)
        case Ok(file) =>
          var merged := MergeLayers(file, custom);
          match EnvironmentOverride(merged, CurrentEnvironment(host))
          case Err(e) => Err(e)
          case Ok(config) =>
            match RequiredPathsError(config)
            case Some(e) => Err(e)
            case None => Ok(config)
  {
  }
}
