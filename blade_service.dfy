/** The service that owns the template engine: it prepares the directories the engine needs,
    registers the directives once, feeds every render the processed view data, and turns an
    engine failure into a rethrow, a log line, an error view or a fixed placeholder. */
module Services {
  import opened PhpStrings
  import opened PhpValues
  import opened BladeExtensions
  import Config

  // ---------------------------------------------------------------------------
  // The engine and the filesystem, as the service sees them

  /** make($view, $data)->render() on the engine, given its directive table: the rendered text,
      or the exception it throws. */
  type Engine = (map<string, Handler>, string, seq<Entry>) -> Result<string>

  /** The directories that exist, the ones mkdir() can create (parents included), and the ones
      that are writable once they exist. */
  datatype Disk = Disk(dirs: set<string>, creatable: set<string>, writable: set<string>)

  const ViewsPathKey: Key := StrKey("viewsPath")
  const CachePathKey: Key := StrKey("cachePath")
  const ComponentPathKey: Key := StrKey("componentPath")

  /** A loaded config holds both paths as strings. */
  function PathString(config: seq<Entry>, k: Key): string
    requires Config.ValidConfig(config) && (k == ViewsPathKey || k == CachePathKey)
  {
    assert Config.ValidPath(config, Config.RequiredPaths[0]);
    assert Config.ValidPath(config, Config.RequiredPaths[1]);
    Get(config, k).s
  }

  /** The component path defaulting of ensureDirectoriesExist(): an empty `componentPath` becomes
      the views path followed by `/components`; any other entry is left alone. */
  function WithComponentPath(config: seq<Entry>): (r: seq<Entry>)
    requires Config.ValidConfig(config)
    ensures !IsEmpty(Get(r, ComponentPathKey))
    ensures IsEmpty(Get(config, ComponentPathKey)) ==>
      Get(r, ComponentPathKey) == Str(PathString(config, ViewsPathKey) + "/components")
    ensures !IsEmpty(Get(config, ComponentPathKey)) ==> r == config
    ensures forall k :: k != ComponentPathKey ==> Lookup(r, k) == Lookup(config, k)
  {
    if IsEmpty(Get(config, ComponentPathKey)) then
      var path := PathString(config, ViewsPathKey) + "/components";
      var r := Put(config, ComponentPathKey, Str(path));
      PutLookup(config, ComponentPathKey, Str(path), ComponentPathKey);
      assert forall k :: k != ComponentPathKey ==> Lookup(r, k) == Lookup(config, k) by {
        forall k | k != ComponentPathKey {
          PutLookup(config, ComponentPathKey, Str(path), k);
        }
      }
      r
    else config
  }

  /** The defaulted component path keeps both required paths. */
  lemma ComponentPathKeepsPaths(config: seq<Entry>)
    requires Config.ValidConfig(config)
    ensures Config.ValidConfig(WithComponentPath(config))
  {
    var r := WithComponentPath(config);
    forall i | 0 <= i < |Config.RequiredPaths|
      ensures Config.ValidPath(r, Config.RequiredPaths[i])
    {
      assert Config.ValidPath(config, Config.RequiredPaths[i]);
      assert StrKey(Config.RequiredPaths[i]) != ComponentPathKey;
    }
  }

  /** The component path as is_dir() receives it cannot be coerced to a string. */
  predicate BadComponentPath(config: seq<Entry>) {
    !IsEmpty(Get(config, ComponentPathKey)) && StringArgument(Get(config, ComponentPathKey)).None?
  }

  /** ensureDirectoriesExist(): the views and the cache directory must exist or be creatable,
      the cache directory must be writable, and the component path is defaulted. A component
      path that is a non-empty array or an object makes is_dir() throw a TypeError, which the
      `@` in front of mkdir() does not silence; creating the directory itself is silenced. */
  function EnsureDirectories(config: seq<Entry>, disk: Disk): (r: Result<seq<Entry>>)
    requires Config.ValidConfig(config)
    ensures var views := PathString(config, ViewsPathKey); var cache := PathString(config, CachePathKey);
      r.Err? <==> (views !in disk.dirs && views !in disk.creatable)
                  || (cache !in disk.dirs && cache !in disk.creatable)
                  || cache !in disk.writable
                  || BadComponentPath(config)
    ensures r.Err? && r.error.TypeError? ==> BadComponentPath(config)
    ensures r.Ok? ==>
      && Config.ValidConfig(r.value)
      && !IsEmpty(Get(r.value, ComponentPathKey))
      && StringArgument(Get(r.value, ComponentPathKey)).Some?
    ensures r.Ok? ==> r.value == WithComponentPath(config)
  {
    var views := PathString(config, ViewsPathKey);
    var cache := PathString(config, CachePathKey);
    if views !in disk.dirs && views !in disk.creatable then
      Err(RuntimeException("Cannot create views directory: " + views))
    else if cache !in disk.dirs && cache !in disk.creatable then
      Err(RuntimeException("Cannot create cache directory: " + cache))
    else if cache !in disk.writable then
      Err(RuntimeException("Blade cache path is not writable: " + cache))
    else
      var prepared := WithComponentPath(config);
      if StringArgument(Get(prepared, ComponentPathKey)).None? then
        Err(TypeError("is_dir(): Argument #1 ($filename) must be of type string"))
      else
        ComponentPathKeepsPaths(config);
        Ok(prepared)
  }

  /** getConfig() returns the service's copy, with the component path defaulted, while
      getConfig('componentPath') asks the loader, whose cached config never had it defaulted:
      on a config that leaves the path null the two disagree. */
  lemma ComponentPathDisagreement(config: seq<Entry>, disk: Disk, default: Value)
    requires Config.ValidConfig(config) && EnsureDirectories(config, disk).Ok?
    requires Lookup(config, ComponentPathKey) == Some(Null)
    ensures Config.GetPath(config, "componentPath", default) == Null
    ensures Get(EnsureDirectories(config, disk).value, ComponentPathKey) ==
      Str(PathString(config, ViewsPathKey) + "/components")
  {
    assert EnsureDirectories(config, disk).value == WithComponentPath(config);
    Config.GetTopLevel(config, "componentPath", default);
    assert NormalizeKey("componentPath") == ComponentPathKey by {
      assert !IsIntegerKeyString("componentPath");
    }
  }

  // ---------------------------------------------------------------------------
  // applyExtensions

  /** The custom directives the config declares: a non-empty array under `customDirectives`.
      A foreach over anything else iterates nothing. */
  function CustomDirectives(config: seq<Entry>): seq<Entry> {
    var v := Get(config, StrKey("customDirectives"));
    if !IsEmpty(v) && v.Arr? then v.entries else []
  }

  /** The table after directive($name, $callback) for each entry in order, the key printed as
      the name. */
  function WithCustomDirectives(m: map<string, Handler>, es: seq<Entry>): map<string, Handler> {
    if es == [] then m
    else WithCustomDirectives(m, es[..|es| - 1])[KeyName(es[|es| - 1].key) := Custom(es[|es| - 1].val)]
  }

  /** A custom directive is bound to the callback of the last entry with its name, so it
      replaces a built-in of the same name; names no entry uses keep their handler. */
  lemma {:induction false} CustomDirectivesWin(m: map<string, Handler>, es: seq<Entry>)
    ensures WithCustomDirectives(m, es).Keys == m.Keys + (set i | 0 <= i < |es| :: KeyName(es[i].key))
    ensures forall n :: n in m && (forall i :: 0 <= i < |es| ==> KeyName(es[i].key) != n) ==>
      WithCustomDirectives(m, es)[n] == m[n]
    ensures forall i :: 0 <= i < |es| && (forall j :: i < j < |es| ==> KeyName(es[j].key) != KeyName(es[i].key)) ==>
      WithCustomDirectives(m, es)[KeyName(es[i].key)] == Custom(es[i].val)
    decreases |es|
  {
    if es != [] {
      var init := es[..|es| - 1];
      CustomDirectivesWin(m, init);
      assert forall i :: 0 <= i < |init| ==> init[i] == es[i];
      assert (set i | 0 <= i < |es| :: KeyName(es[i].key)) ==
        (set i | 0 <= i < |init| :: KeyName(init[i].key)) + {KeyName(es[|es| - 1].key)};
    }
  }

  /** The service's state besides the engine: the once-flag, the engine's directive table,
      the view data of setData() and the lines written to the error log. */
  datatype ServiceState = ServiceState(
    extensionsLoaded: bool,
    handlers: map<string, Handler>,
    viewData: seq<Entry>,
    errorLog: seq<string>)

  /** The table after registerDirectives() and then the custom directives. */
  function Extensions(m: map<string, Handler>, config: seq<Entry>): map<string, Handler> {
    WithCustomDirectives(WithBuiltinDirectives(m), CustomDirectives(config))
  }

  /** applyExtensions(): the directives are registered on the first call only. */
  function ApplyExtensionsStep(st: ServiceState, config: seq<Entry>): ServiceState {
    if st.extensionsLoaded then st
    else st.(extensionsLoaded := true, handlers := Extensions(st.handlers, config))
  }

  /** However often applyExtensions() runs, the table is the one of its first run. */
  lemma ApplyExtensionsOnce(st: ServiceState, config: seq<Entry>)
    ensures ApplyExtensionsStep(ApplyExtensionsStep(st, config), config) == ApplyExtensionsStep(st, config)
    ensures ApplyExtensionsStep(st, config).extensionsLoaded
    ensures st.extensionsLoaded ==> ApplyExtensionsStep(st, config) == st
  {
  }

  /** A name no custom entry of the config uses. */
  predicate NotCustom(config: seq<Entry>, n: string) {
    forall i :: 0 <= i < |CustomDirectives(config)| ==> KeyName(CustomDirectives(config)[i].key) != n
  }

  /** After the first applyExtensions(), a name the config declares as a custom directive runs the
      callback of its last entry; every other built-in name runs its built-in handler, and every
      other name keeps the handler it had. */
  lemma {:induction false} RegisteredTable(st: ServiceState, config: seq<Entry>)
    requires !st.extensionsLoaded
    ensures var table := ApplyExtensionsStep(st, config).handlers; var es := CustomDirectives(config);
      && table.Keys == st.handlers.Keys + BuiltinNames() + (set i | 0 <= i < |es| :: KeyName(es[i].key))
      && (forall i :: 0 <= i < |es| && (forall j :: i < j < |es| ==> KeyName(es[j].key) != KeyName(es[i].key)) ==>
            table[KeyName(es[i].key)] == Custom(es[i].val))
    ensures forall n :: n in BuiltinTable && NotCustom(config, n) ==>
      ApplyExtensionsStep(st, config).handlers[n] == Builtin(BuiltinTable[n])
    ensures forall n :: n in st.handlers && n !in BuiltinTable && NotCustom(config, n) ==>
      ApplyExtensionsStep(st, config).handlers[n] == st.handlers[n]
  {
    BuiltinRegistration(st.handlers);
    CustomDirectivesWin(WithBuiltinDirectives(st.handlers), CustomDirectives(config));
  }

  // ---------------------------------------------------------------------------
  // render

  /** `$this->config['errorHandling'][$name]`; null where either level is missing. */
  function ErrorHandling(config: seq<Entry>, name: string): Value {
    At(Get(config, StrKey("errorHandling")), StrKey(name))
  }

  const Placeholder: string := "<!-- View Rendering Error -->"

  const LogPrefix: string := "Blade rendering error in view ["

  /** The line error_log() receives for a failed view. */
  function LogLine(view: string, e: Error): string {
    LogPrefix + view + "]: " + e.message
  }

  /** The line names the view between the brackets and ends with the exception's message. */
  lemma LogLineNamesViewAndMessage(view: string, e: Error)
    ensures var line := LogLine(view, e);
      && |line| == |LogPrefix| + |view| + 3 + |e.message|
      && line[|LogPrefix|..|LogPrefix| + |view|] == view
      && line[|line| - |e.message|..] == e.message
  {
    var line := LogLine(view, e);
    assert line == LogPrefix + (view + ("]: " + e.message));
  }

  /** The data the error view is rendered with: the exception and the failed view's name. */
  function ErrorViewData(e: Error, view: string): seq<Entry> {
    [Entry(StrKey("error"), ExceptionObject(e.message)), Entry(StrKey("view"), Str(view))]
  }

  /** What the catch block returns once it does not rethrow: the configured error view, rendered,
      or the placeholder when there is none or when rendering it fails in any way. */
  function Recovered(config: seq<Entry>, handlers: map<string, Handler>, engine: Engine, view: string, e: Error): string {
    var errorView := ErrorHandling(config, "errorView");
    if IsEmpty(errorView) then Placeholder
    else match StringArgument(errorView)
      case None => Placeholder
      case Some(name) =>
        match engine(handlers, name, ErrorViewData(e, view))
        case Ok(text) => text
        case Err(_) => Placeholder
  }

  /** The try/catch of render(): the result and the lines written to the error log. */
  function Attempt(config: seq<Entry>, handlers: map<string, Handler>, engine: Engine, view: string,
                   data: seq<Entry>): (Result<string>, seq<string>) {
    match engine(handlers, view, data)
    case Ok(text) => (Ok(text), [])
    case Err(e) =>
      if !IsEmpty(ErrorHandling(config, "showErrors")) then (Err(e), [])
      else
        var lines := if !IsEmpty(ErrorHandling(config, "logErrors")) then [LogLine(view, e)] else [];
        (Ok(Recovered(config, handlers, engine, view, e)), lines)
  }

  /** render($view, $data) on the service's state: the extensions are applied, the view data
      and the call's data are merged and processed (a failure there escapes before the try),
      the engine is called, and the finally block clears the view data. */
  function RenderStep(config: seq<Entry>, session: Session, st: ServiceState, engine: Engine,
                      view: string, data: seq<Entry>): (ServiceState, Result<string>)
    reads session
  {
    var st1 := ApplyExtensionsStep(st, config);
    match ProcessData(ArrayMerge(st1.viewData, data), session)
    case Err(e) => (st1, Err(e))
    case Ok(processed) =>
      var (r, lines) := Attempt(config, st1.handlers, engine, view, processed);
      (st1.(viewData := [], errorLog := st1.errorLog + lines), r)
  }

  /** The engine sees the table with the extensions applied and the processed merge of the view
      data and the call's data. */
  function EngineInput(config: seq<Entry>, session: Session, st: ServiceState, data: seq<Entry>): Result<seq<Entry>>
    reads session
  {
    ProcessData(ArrayMerge(ApplyExtensionsStep(st, config).viewData, data), session)
  }

  /** A successful engine call is returned as it is, and the view data is cleared. */
  lemma SuccessPassesThrough(config: seq<Entry>, session: Session, st: ServiceState, engine: Engine,
                             view: string, data: seq<Entry>)
    requires EngineInput(config, session, st, data).Ok?
    requires engine(EngineTable(st, config), view, EngineInput(config, session, st, data).value).Ok?
    ensures var (st', r) := RenderStep(config, session, st, engine, view, data);
      && r == engine(EngineTable(st, config), view, EngineInput(config, session, st, data).value)
      && st'.viewData == [] && st'.errorLog == st.errorLog
  {
  }

  /** The table render() hands to the engine. */
  function EngineTable(st: ServiceState, config: seq<Entry>): map<string, Handler> {
    ApplyExtensionsStep(st, config).handlers
  }

  /** With a non-empty showErrors, the engine's exception is rethrown unchanged, nothing is
      logged and no error view is rendered; the view data is still cleared. */
  lemma ShowErrorsRethrows(config: seq<Entry>, session: Session, st: ServiceState, engine: Engine,
                           view: string, data: seq<Entry>)
    requires EngineInput(config, session, st, data).Ok?
    requires engine(EngineTable(st, config), view, EngineInput(config, session, st, data).value).Err?
    requires !IsEmpty(ErrorHandling(config, "showErrors"))
    ensures var (st', r) := RenderStep(config, session, st, engine, view, data);
      && r == Err(engine(EngineTable(st, config), view, EngineInput(config, session, st, data).value).error)
      && st'.errorLog == st.errorLog && st'.viewData == []
  {
  }

  /** Without showErrors, a failed render never throws: it yields the error view or the
      placeholder, and writes exactly one log line, naming the view and the message, when
      logErrors is set, and none otherwise. */
  lemma RecoveryNeverThrows(config: seq<Entry>, session: Session, st: ServiceState, engine: Engine,
                            view: string, data: seq<Entry>)
    requires EngineInput(config, session, st, data).Ok?
    requires engine(EngineTable(st, config), view, EngineInput(config, session, st, data).value).Err?
    requires IsEmpty(ErrorHandling(config, "showErrors"))
    ensures var (st', r) := RenderStep(config, session, st, engine, view, data);
      var e := engine(EngineTable(st, config), view, EngineInput(config, session, st, data).value).error;
      && r == Ok(Recovered(config, EngineTable(st, config), engine, view, e))
      && st'.errorLog == st.errorLog + (if IsEmpty(ErrorHandling(config, "logErrors")) then [] else [LogLine(view, e)])
      && st'.viewData == []
  {
  }

  /** The error view's output is used when it renders; any failure of it, including an error
      view name that is not a string, falls through to the placeholder. */
  lemma ErrorViewOrPlaceholder(config: seq<Entry>, handlers: map<string, Handler>, engine: Engine, view: string, e: Error)
    ensures var r := Recovered(config, handlers, engine, view, e); var errorView := ErrorHandling(config, "errorView");
      r == Placeholder || (!IsEmpty(errorView) && StringArgument(errorView).Some? &&
        engine(handlers, StringArgument(errorView).value, ErrorViewData(e, view)) == Ok(r))
    ensures IsEmpty(ErrorHandling(config, "errorView")) ==> Recovered(config, handlers, engine, view, e) == Placeholder
  {
  }

  /** A failure of processData() escapes before the try: the view data is kept and nothing is
      logged; only the extensions have been applied. */
  lemma ProcessDataFailureKeepsViewData(config: seq<Entry>, session: Session, st: ServiceState, engine: Engine,
                                        view: string, data: seq<Entry>)
    requires EngineInput(config, session, st, data).Err?
    ensures RenderStep(config, session, st, engine, view, data) ==
      (ApplyExtensionsStep(st, config), Err(EngineInput(config, session, st, data).error))
  {
  }

  /** Whatever the engine does, the view data is empty after a render that reached the try. */
  lemma ViewDataCleared(config: seq<Entry>, session: Session, st: ServiceState, engine: Engine,
                        view: string, data: seq<Entry>)
    requires EngineInput(config, session, st, data).Ok?
    ensures RenderStep(config, session, st, engine, view, data).0.viewData == []
    ensures RenderStep(config, session, st, engine, view, data).0.extensionsLoaded
    ensures |RenderStep(config, session, st, engine, view, data).0.errorLog| <= |st.errorLog| + 1
  {
  }

  // ---------------------------------------------------------------------------
  // The service object

  class BladeService {
    /** The engine, represented by its directive table. */
    const blade: DirectiveTable
    const config: seq<Entry>
    /** The `$_SESSION` the extension reads. */
    const session: Session
    var viewData: seq<Entry>
    var extensionsLoaded: bool
    /** The lines error_log() has received. */
    var errorLog: seq<string>

    function State(): ServiceState
      reads this, blade
    {
      ServiceState(extensionsLoaded, blade.handlers, viewData, errorLog)
    }

    /** The service over a config whose directories have been prepared. */
    constructor (config: seq<Entry>, session: Session)
      ensures this.config == config && this.session == session && fresh(blade)
      ensures State() == ServiceState(false, map[], [], [])
    {
      this.config := config;
      this.session := session;
      blade := new DirectiveTable();
      viewData := [];
      extensionsLoaded := false;
      errorLog := [];
    }

    /** applyExtensions(). */
    method ApplyExtensions()
      modifies this, blade
      ensures State() == ApplyExtensionsStep(old(State()), config)
    {
      if extensionsLoaded {
        return;
      }
      RegisterDirectives(blade);
      var custom := CustomDirectives(config);
      ghost var builtin := blade.handlers;
      var i := 0;
      while i < |custom|
        modifies blade
        invariant 0 <= i <= |custom|
        invariant blade.handlers == WithCustomDirectives(builtin, custom[..i])
      {
        assert custom[..i + 1][..i] == custom[..i];
        blade.Register(KeyName(custom[i].key), Custom(custom[i].val));
        i := i + 1;
      }
      assert custom[..i] == custom;
      extensionsLoaded := true;
    }

    /** processData($data): the extension's hook over the session. */
    function ProcessData(data: seq<Entry>): Result<seq<Entry>>
      reads session
    {
      BladeExtensions.ProcessData(data, session)
    }

    /** setData($data): the processed data becomes the view data; a failure leaves it alone. */
    method SetData(data: seq<Entry>) returns (r: Option<Error>)
      modifies this`viewData
      ensures var p := ProcessData(data);
        && (p.Ok? ==> r.None? && viewData == p.value)
        && (p.Err? ==> r == Some(p.error) && viewData == old(viewData))
    {
      var p := ProcessData(data);
      if p.Err? {
        return Some(p.error);
      }
      viewData := p.value;
      return None;
    }

    /** render($view, $data). */
    method Render(engine: Engine, view: string, data: seq<Entry>) returns (r: Result<string>)
      modifies this, blade
      ensures (State(), r) == RenderStep(config, session, old(State()), engine, view, data)
    {
      ApplyExtensions();
      ghost var st1 := State();
      var merged := ArrayMerge(viewData, data);
      var processed :- ProcessData(merged);
      var result := engine(blade.handlers, view, processed);
      assert RenderStep(config, session, old(State()), engine, view, data) ==
        (st1.(viewData := [], errorLog := st1.errorLog + Attempt(config, st1.handlers, engine, view, processed).1),
         Attempt(config, st1.handlers, engine, view, processed).0);
      if result.Ok? {
        assert Attempt(config, st1.handlers, engine, view, processed) == (result, []);
        assert st1.errorLog + [] == st1.errorLog;
        viewData := [];
        return result;
      }
      var e := result.error;
      if !IsEmpty(ErrorHandling(config, "showErrors")) {
        assert Attempt(config, st1.handlers, engine, view, processed) == (Err(e), []);
        assert st1.errorLog + [] == st1.errorLog;
        viewData := [];
        return Err(e);
      }
      if !IsEmpty(ErrorHandling(config, "logErrors")) {
        errorLog := errorLog + [LogLine(view, e)];
      } else {
        assert st1.errorLog + [] == st1.errorLog;
      }
      var errorView := ErrorHandling(config, "errorView");
      if !IsEmpty(errorView) {
        var name := StringArgument(errorView);
        if name.Some? {
          var fallback := engine(blade.handlers, name.value, ErrorViewData(e, view));
          if fallback.Ok? {
            viewData := [];
            return fallback;
          }
        }
      }
      viewData := [];
      return Ok(Placeholder);
    }

    /** getConfig($key, $default): the service's own config for a null key, otherwise get() on
        the loader. */
    method GetConfig(loader: Config.ConfigLoader, host: Config.Host, key: Option<string>, default: Value)
      returns (r: Result<Value>)
      modifies loader
      ensures key.None? ==> r == Ok(Arr(config)) && loader.State() == old(loader.State())
      ensures key.Some? ==>
        && loader.State() == Config.LoadStep(old(loader.State()), host, []).0
        && r == match Config.LoadStep(old(loader.State()), host, []).1
                case Err(e) => Err(e)
                case Ok(c) => Ok(Config.GetPath(c, key.value, default))
    {
      if key.None? {
        return Ok(Arr(config));
      }
      r := loader.Get(host, key.value, default);
    }
  }

  const NamespacesKey: Key := StrKey("namespaces")

  /** The entries initialize()'s foreach over `namespaces` visits: an array's entries. A scalar is
      skipped with a warning, and the objects a config can hold have no property visible to the
      service, so anything else visits nothing. */
  function NamespaceEntries(config: seq<Entry>): seq<Entry> {
    var v := Get(config, NamespacesKey);
    if v.Arr? then v.entries else []
  }

  /** `!empty($path) && is_dir($path)` throws: the path is set but cannot be a string argument. */
  predicate BadPath(path: Value) {
    !IsEmpty(path) && StringArgument(path).None?
  }

  /** Some namespace path makes is_dir() throw a TypeError. */
  predicate BadNamespacePath(config: seq<Entry>) {
    exists i :: 0 <= i < |NamespaceEntries(config)| && BadPath(NamespaceEntries(config)[i].val)
  }

  /** Preparing the directories leaves the namespaces alone. */
  lemma PreparedNamespaces(config: seq<Entry>, disk: Disk)
    requires Config.ValidConfig(config) && EnsureDirectories(config, disk).Ok?
    ensures NamespaceEntries(EnsureDirectories(config, disk).value) == NamespaceEntries(config)
  {
    assert NamespacesKey != ComponentPathKey;
  }

  /** initialize()'s foreach over the namespaces: the first path is_dir() cannot take throws. */
  method CheckNamespaces(namespaces: seq<Entry>) returns (r: Option<Error>)
    ensures r.Some? <==> exists i :: 0 <= i < |namespaces| && BadPath(namespaces[i].val)
    ensures r.Some? ==> r.value.TypeError?
  {
    var i := 0;
    while i < |namespaces|
      invariant 0 <= i <= |namespaces|
      invariant forall j :: 0 <= j < i ==> !BadPath(namespaces[j].val)
    {
      if BadPath(namespaces[i].val) {
        return Some(TypeError("is_dir(): Argument #1 ($filename) must be of type string"));
      }
      i := i + 1;
    }
    return None;
  }

  /** new BladeService(): the loaded config's directories are prepared, then initialize() walks
      the configured namespaces; a failure in either is the constructor's exception. */
  method NewBladeService(config: seq<Entry>, disk: Disk, session: Session) returns (r: Result<BladeService>)
    requires Config.ValidConfig(config)
    ensures r.Err? <==> EnsureDirectories(config, disk).Err? || BadNamespacePath(config)
    ensures EnsureDirectories(config, disk).Err? ==> r.Err? && r.error == EnsureDirectories(config, disk).error
    ensures EnsureDirectories(config, disk).Ok? && BadNamespacePath(config) ==> r.Err? && r.error.TypeError?
    ensures r.Ok? ==>
      && fresh(r.value) && fresh(r.value.blade)
      && r.value.config == EnsureDirectories(config, disk).value
      && r.value.session == session
      && r.value.State() == ServiceState(false, map[], [], [])
  {
    var prepared := EnsureDirectories(config, disk);
    if prepared.Err? {
      return Err(prepared.error);
    }
    PreparedNamespaces(config, disk);
    var failure := CheckNamespaces(NamespaceEntries(prepared.value));
    if failure.Some? {
      return Err(failure.value);
    }
    var service := new BladeService(prepared.value, session);
    return Ok(service);
  }
}
