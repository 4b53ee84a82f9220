# blade-lite, modelled in Dafny

blade-lite wraps a Blade template engine for use outside a framework. This project models its
core:

- **ConfigLoader** (`Config` module). It finds the project root by walking up to ten parent
  directories to one that holds `vendor`. It reads `config/blade.php` and deep-merges the
  defaults, the file and the caller's overrides with `array_replace_recursive`. It applies the
  block for the current environment, checks the two required paths and caches the result in
  static fields. `get()` walks a dotted key through the nested arrays, and `reset()` clears
  the cache.
- **BladeExtension** (`BladeExtensions` module). It holds the text every registered directive
  compiles to and the order in which `registerDirectives()` binds them. `processData()` exposes
  session validation errors to templates as an `ErrorBag` under `errors`. `getCsrfToken()`
  creates the CSRF token once per session and then reuses it.
- **ErrorBag** (`ErrorBags` module). This is the read-only bag of validation messages, with
  `has`, `first`, `getBag`, `any`, `all` and the `__serialize`/`__unserialize` pair.
- **BladeService** (`Services` module). It prepares the views, cache and component
  directories. It registers the built-in and the configured custom directives once. It merges
  and processes the view data for each render. When the engine fails it either rethrows,
  writes a log line, renders the error view or returns the placeholder comment, and a
  `finally` block clears the view data.
- **BladeViewRenderer** (`Renderers` module). This is the fluent front end: `view()`, `with()`,
  `fragment()`, `fragmentIf()` and `render()`. When fragments are requested, `render()` cuts
  them out of the rendered HTML with the pattern
  `<!--\s*fragment\s*:\s*NAME\s*-->(.*?)<!--\s*endfragment\s*:\s*NAME\s*-->`.
  The `FragmentPatterns` module writes that pattern out as the search a backtracking regex
  engine does.

Supporting modules:

- `PhpValues` models PHP values and ordered arrays: integer-string key normalisation,
  `isset`, `empty`, assignment, `array_merge` and `array_replace_recursive`.
- `PhpStrings` models the string built-ins the code calls: `trim`, `strtoupper`, `explode`,
  `dirname` and `bin2hex`.

Each stateful PHP object is a Dafny `class` whose methods are proved against a pure step
function:

- `ConfigLoader` against `LoadStep`;
- `BladeService` against `ApplyExtensionsStep` and `RenderStep`;
- `BladeViewRenderer.Render` against `RenderStep`, `SentData` and `Finished`.

The loader's two static fields become the fields of one loader object. Exceptions are `Err`
values of `Result`.

Some facts about the code that the model keeps:

- The loader's docblock (`src/Config/ConfigLoader.php:5-8`) promises correct paths. The only
  check is that `viewsPath` and `cachePath` are non-empty strings
  (`src/Config/ConfigLoader.php:70-80`). Nothing checks that they are absolute or that they
  exist.
- `src/BladeService.php:58` relies on the loader to guarantee string paths. The loader caches
  the merged config before it validates it, so a later `load()` can return an invalid config
  (see Findings).
- Only the component path is derived from the views path, as `viewsPath/components`
  (`src/BladeService.php:79-81`). Other namespaces are taken as configured.
- `processData()` puts the session's `errors` array into the bag exactly as it is stored
  (`src/BladeExtensions.php:35-45`). It does not pick a first message per field.

## Model

| member | source | states |
|---|---|---|
| PhpStrings.TrimLeft | src/BladeExtensions.php:59 | ltrim removes exactly the longest prefix made of listed characters; the result is a suffix of the input |
| PhpStrings.TrimRight | src/BladeExtensions.php:59 | rtrim removes exactly the longest suffix made of listed characters; the result is a prefix of the input |
| PhpStrings.TrimChars | src/BladeViewRenderer.php:80 | trim() with a character list; its properties are the TrimChars lemmas below |
| PhpStrings.TrimCharsSpec | src/BladeViewRenderer.php:80 | trim's result is a contiguous slice of the input; everything stripped on both sides is a listed character |
| PhpStrings.TrimCharsEnds | src/BladeViewRenderer.php:80 | a non-empty trimmed string starts and ends with a character that is not listed |
| PhpStrings.TrimCharsIdempotent | src/BladeExtensions.php:109 | trimming twice gives the same as trimming once |
| PhpStrings.TrimCharsNoop | src/BladeExtensions.php:109 | a string whose ends are not listed characters is returned unchanged |
| PhpStrings.TrimCharsPadded | src/BladeExtensions.php:59 | any padding made of listed characters around a word is removed, and the word comes back intact |
| PhpStrings.ToUpper | src/BladeExtensions.php:59 | strtoupper keeps the length, leaves no lower-case ASCII letter and changes no other character |
| PhpStrings.Explode | src/Config/ConfigLoader.php:137 | explode on '.' always yields at least one segment |
| PhpStrings.ExplodePartsHaveNoSeparator | src/Config/ConfigLoader.php:137 | no segment of explode contains the separator |
| PhpStrings.Implode | src/Config/ConfigLoader.php:137 | implode(), the inverse of explode(); the two round trips below connect them |
| PhpStrings.ImplodeExplode | src/Config/ConfigLoader.php:137 | joining the segments with the separator gives back the key |
| PhpStrings.ExplodeImplode | src/Config/ConfigLoader.php:137 | splitting a join of separator-free segments gives back the segments |
| PhpStrings.ExplodeNoSeparator | src/Config/ConfigLoader.php:137 | a key without a dot is a single segment |
| PhpStrings.NatToString | src/Config/ConfigLoader.php:140 | a natural number prints as canonical digits whose value is that number |
| PhpStrings.CanonicalDigitsArePrinted | src/Config/ConfigLoader.php:140 | canonical digits are exactly the printed form of their value |
| PhpStrings.IntToStringIsIntegerKey | src/Config/ConfigLoader.php:140 | every 64-bit integer prints as a string PHP stores as that integer key |
| PhpStrings.IntegerKeyIsPrinted | src/Config/ConfigLoader.php:140 | every string PHP stores as an integer key is the printed form of that integer |
| PhpStrings.Dirname | src/Config/ConfigLoader.php:45 | dirname of a non-empty path is non-empty |
| PhpStrings.DirnameFixedPoints | src/Config/ConfigLoader.php:45-48 | "/" and "." are their own parents, so the walk up stops there |
| PhpStrings.DirnameShortens | src/Config/ConfigLoader.php:45-49 | a parent that differs from an absolute path is a proper prefix of it |
| PhpStrings.Bin2Hex | src/BladeExtensions.php:164 | bin2hex gives two lower-case hex digits per byte |
| PhpStrings.Hex2BinBin2Hex | src/BladeExtensions.php:164 | bin2hex loses nothing: decoding the digits gives back the bytes |
| PhpValues.NormalizeKey | src/Config/ConfigLoader.php:140 | a string offset becomes an integer key exactly when it is a canonical 64-bit integer string, which reads back as itself |
| PhpValues.NormalizeKeyName | src/BladeService.php:99-100 | printing an array key and using it as an offset again gives the same key |
| PhpValues.Put | src/BladeExtensions.php:40 | assignment keeps an existing key in its position with the other entries untouched, or appends a new key at the end |
| PhpValues.PutLookup | src/BladeExtensions.php:40 | after assignment the key reads back the new value and every other key reads what it read before |
| PhpValues.StringArgument | src/BladeViewRenderer.php:77 | a string parameter takes a string as it is, and rejects arrays and objects (for an exception object see "Left out") |
| PhpValues.ReplaceRecursive | src/Config/ConfigLoader.php:24 | array_replace_recursive() on ordered arrays; its per-key result is stated by ReplaceRecursiveLookup |
| PhpValues.ReplaceRecursiveLookup | src/Config/ConfigLoader.php:24 | after array_replace_recursive a key holds the source's value; when both sides hold arrays it holds their recursive merge; a key the source lacks keeps the destination's value |
| PhpValues.ReplaceRecursiveKeepsOrder | src/Config/ConfigLoader.php:24 | the destination's keys keep their positions; new keys come after them |
| PhpValues.ReplaceRecursiveDistinct | src/Config/ConfigLoader.php:24 | the merge keeps the keys distinct |
| PhpValues.ReplaceRecursiveEmpty | src/Config/ConfigLoader.php:24 | replacing with an empty array changes nothing |
| PhpValues.ArrayMerge | src/BladeService.php:122 | array_merge() on ordered arrays; ArrayMergeStringKey, ArrayMergeIntKeys and ArrayMergeDistinct state what it gives |
| PhpValues.ArrayMergeStringKey | src/BladeService.php:122 | under array_merge a string key holds the second array's value if it has one, else the first array's |
| PhpValues.ArrayMergeIntKeys | src/BladeService.php:122 | the integer-keyed values of the merge are the first array's followed by the second's, renumbered 0, 1, 2, ... |
| PhpValues.ArrayMergeDistinct | src/BladeViewRenderer.php:28 | the result of array_merge never holds a key twice |
| ErrorBags.BagFirst | src/ErrorBag.php:22-25 | first() is null exactly when has() is false; a stored string is returned as it is |
| ErrorBags.BagHasAt | src/ErrorBag.php:17-20 | has() is true exactly when some entry under the key holds a non-null message |
| ErrorBags.ErrorBag.constructor | src/ErrorBag.php:12-15 | the bag holds the given array |
| ErrorBags.ErrorBag.Has | src/ErrorBag.php:17-20 | has($key) is true exactly when some entry under the normalised key is not null |
| ErrorBags.ErrorBag.First | src/ErrorBag.php:22-25 | first($key) is non-null exactly when has($key) is true, and it is the stored string message |
| ErrorBags.ErrorBag.GetBag | src/ErrorBag.php:27-30 | getBag() returns the whole array whatever bag name is asked for |
| ErrorBags.ErrorBag.Any | src/ErrorBag.php:32-35 | any() is true exactly when there is at least one entry |
| ErrorBags.ErrorBag.All | src/ErrorBag.php:37-40 | all() returns the stored array |
| ErrorBags.ErrorBag.Serialize | src/ErrorBag.php:52-55 | __serialize() gives the stored array |
| ErrorBags.ErrorBag.Unserialize | src/ErrorBag.php:57-60 | __unserialize() replaces the stored array |
| ErrorBags.SerializeRoundTrip | src/ErrorBag.php:52-60 | a bag restored from another's serialized form holds the same array and answers has() and first() the same way for every key |
| BladeExtensions.Compile | src/BladeExtensions.php:56-150 | the PHP text each built-in directive compiles to; the lemmas below state how it depends on the argument |
| BladeExtensions.ExpressionEmbeddedVerbatim | src/BladeExtensions.php:70-150 | each directive that takes an expression splices it verbatim at one fixed offset into a fixed text |
| BladeExtensions.ExpressionRecoverable | src/BladeExtensions.php:70-150 | two different expressions never compile to the same text |
| BladeExtensions.ConstantDirectivesIgnoreArgument | src/BladeExtensions.php:138-150 | the argument-less directives compile to the same text whatever the argument |
| BladeExtensions.CannotNegatesCan | src/BladeExtensions.php:72-75 | cannot is can with the permission check negated |
| BladeExtensions.GuestNegatesAuth | src/BladeExtensions.php:80-83 | guest is auth with the check negated |
| BladeExtensions.MethodDirectiveStripsQuotes | src/BladeExtensions.php:58-61 | method strips quotes and parentheses from the verb and upper-cases it into the hidden _method field |
| BladeExtensions.MethodMapIsUpperCased | src/BladeExtensions.php:12-16 | each verb in the method map is its directive name upper-cased |
| BladeExtensions.MethodMatchesVerbDirectives | src/BladeExtensions.php:58-65 | method('delete') and delete compile to the same field, and likewise put and patch |
| BladeExtensions.FragmentMarkersAgree | src/BladeExtensions.php:106-117 | fragment and endfragment print their markers with the same name |
| BladeExtensions.FragmentNameIdempotent | src/BladeExtensions.php:109-114 | a printed fragment name, used again as the argument, names the same fragment |
| BladeExtensions.ErrorBlock | src/BladeExtensions.php:88-95 | the error block's guarded section runs exactly when the bag has the field; an empty $errors skips it |
| BladeExtensions.ErrorBlockShowsFirstMessage | src/BladeExtensions.php:88-96 | with a string message for the field, the section runs with $message bound to it; with no entry for the field it is skipped |
| BladeExtensions.SessionErrors | src/BladeExtensions.php:47-54 | outside an active session the result is []; a stored array is returned; a non-array, non-null value fails the array return type |
| BladeExtensions.AddErrorsHandler | src/BladeExtensions.php:35-45 | a set errors key is left alone; otherwise a non-empty session array becomes an ErrorBag under errors; all other keys and their order are kept; it fails only when the session errors do |
| BladeExtensions.GetCsrfToken | src/BladeExtensions.php:159-170 | without a session the token is ""; a missing token is created as 64 hex digits from 32 random bytes and stored; an existing token is returned unchanged |
| BladeExtensions.GetCsrfField | src/BladeExtensions.php:152-157 | the token inside a hidden _token field |
| BladeExtensions.CsrfTokenIsReused | src/BladeExtensions.php:159-170 | two calls return the same token whatever the random source gives, and an active session keeps a token |
| BladeExtensions.CompileDirective | src/BladeExtensions.php:56-150 | only csrf touches the session; every other directive returns its compiled text |
| BladeExtensions.RegistersCompose | src/BladeExtensions.php:23-33 | registering one group after another registers both groups' names, a later group winning a shared name |
| BladeExtensions.DirectiveTable.Register | src/BladeExtensions.php:58 | directive() on the engine binds the name to the handler, replacing an earlier one |
| BladeExtensions.MethodGroup | src/BladeExtensions.php:56-68 | the method group binds method, csrf and each verb of the method map to its own directive, and changes no other entry |
| BladeExtensions.PermissionGroup | src/BladeExtensions.php:70-76 | binds can, endcan, cannot and endcannot to their directives, and changes no other entry |
| BladeExtensions.AuthGroup | src/BladeExtensions.php:78-84 | binds auth, endauth, guest and endguest to their directives, and changes no other entry |
| BladeExtensions.ErrorGroup | src/BladeExtensions.php:86-97 | binds error and enderror to their directives, and changes no other entry |
| BladeExtensions.LangGroup | src/BladeExtensions.php:99-104 | binds lang to its directive, and changes no other entry |
| BladeExtensions.FragmentGroup | src/BladeExtensions.php:106-117 | binds fragment and endfragment to their directives, and changes no other entry |
| BladeExtensions.UtilityGroup | src/BladeExtensions.php:119-136 | binds asset, url, route and config to their directives, and changes no other entry |
| BladeExtensions.ConditionalGroup | src/BladeExtensions.php:138-150 | binds production, development and env and their closing directives, and changes no other entry |
| BladeExtensions.BuiltinRegistration | src/BladeExtensions.php:23-33 | after registerDirectives() every built-in name holds its own directive, whatever it held before; all other entries are unchanged |
| BladeExtensions.RegisterMethodDirectives | src/BladeExtensions.php:56-68 | the loop over the method map registers the verb directives in order |
| BladeExtensions.RegisterPermissionDirectives | src/BladeExtensions.php:70-76 | registers can, endcan, cannot and endcannot |
| BladeExtensions.RegisterAuthDirectives | src/BladeExtensions.php:78-84 | registers auth, endauth, guest and endguest |
| BladeExtensions.RegisterErrorDirectives | src/BladeExtensions.php:86-97 | registers error and enderror |
| BladeExtensions.RegisterLangDirectives | src/BladeExtensions.php:99-104 | registers lang |
| BladeExtensions.RegisterFragmentDirectives | src/BladeExtensions.php:106-117 | registers fragment and endfragment |
| BladeExtensions.RegisterUtilityDirectives | src/BladeExtensions.php:119-136 | registers asset, url, route and config |
| BladeExtensions.RegisterConditionalDirectives | src/BladeExtensions.php:138-150 | registers production, development and env with their closing directives |
| BladeExtensions.RegisterDirectives | src/BladeExtensions.php:23-33 | the table after the eight groups are registered in order |
| Config.CurrentEnvironment | src/Config/ConfigLoader.php:129-132 | $_ENV['APP_ENV'] wins when it is truthy; getenv is consulted only when it is unset; a falsy value gives "development" |
| Config.SearchRoot | src/Config/ConfigLoader.php:34-53 | the only failure of the walk is the "vendor directory is missing" exception |
| Config.SearchRootFindsNearest | src/Config/ConfigLoader.php:40-52 | the walk returns the nearest ancestor, within the probe limit, that holds vendor; it fails only when none of them does |
| Config.AncestorOfFixedPoint | src/Config/ConfigLoader.php:45-48 | the walk stays at a directory that is its own parent |
| Config.LoadConfigFile | src/Config/ConfigLoader.php:55-68 | a missing file and an unreadable file are RuntimeExceptions naming the path; a file returning a non-array counts as [] |
| Config.FirstInvalidFrom | src/Config/ConfigLoader.php:73-79 | finds the first required key that is not a non-empty string; all keys before it are valid |
| Config.FirstPathError | src/Config/ConfigLoader.php:70-80 | no error exactly when every required path is valid; otherwise the error names an invalid path |
| Config.ValidateRequiredPaths | src/Config/ConfigLoader.php:70-80 | validation passes exactly when viewsPath and cachePath are non-empty strings; it reports the first failing key |
| Config.DefaultConfig | src/Config/ConfigLoader.php:86-115 | the built-in defaults, with null viewsPath, cachePath and componentPath |
| Config.DefaultsLackPaths | src/Config/ConfigLoader.php:86-115 | the defaults alone fail validation on viewsPath |
| Config.MergeLayersLookup | src/Config/ConfigLoader.php:24 | at the top level the caller's overrides beat the file, which beats the defaults; arrays on both sides merge |
| Config.ScalarOverridesWin | src/Config/ConfigLoader.php:24 | a scalar from a higher layer is the merged value; a key no layer above sets keeps its default |
| Config.ListsReplacedByPosition | src/Config/ConfigLoader.php:24 | a list such as extensions is overwritten position by position and never appended to |
| Config.ReplaceListFrom | src/Config/ConfigLoader.php:24 | values written at consecutive integer keys splice into a list |
| Config.EnvironmentOverride | src/Config/ConfigLoader.php:117-127 | a missing or null environment block leaves the config unchanged; a non-array block is a TypeError |
| Config.EnvironmentBlockWins | src/Config/ConfigLoader.php:117-127 | the environment block is merged last, so its scalars beat every other layer |
| Config.LoadStep | src/Config/ConfigLoader.php:14-32 | load() as a transition of the cache and the remembered root; the lemmas below state what it returns and caches |
| Config.LoadUsesCacheOnlyWithoutOverrides | src/Config/ConfigLoader.php:14-18 | the cache answers a call without overrides; a call with overrides recomputes whatever is cached |
| Config.ComputedLoadIsValid | src/Config/ConfigLoader.php:20-31 | a freshly computed config is returned only when valid; it is the merged layers with the environment block applied, and it is cached |
| Config.ValidatedLoadNeverReturnsInvalid | src/Config/ConfigLoader.php:14-31 | if the config is cached only after it passes validation, every load() result is valid and the cache stays valid |
| Config.NoPathsHostLoadsDefaults | src/Config/ConfigLoader.php:55-68 | a project whose config file returns [] has its root found and its file read as [] |
| Config.MergeNothing | src/Config/ConfigLoader.php:24 | merging two empty layers over the defaults gives the defaults |
| Config.DefaultsHaveNoEnvironmentBlocks | src/Config/ConfigLoader.php:113 | the defaults hold no environment block, so no environment changes them |
| Config.InvalidConfigServedFromCache | src/Config/ConfigLoader.php:26-31 | as written, the first load() fails validation, and the next load() returns the cached config with a null viewsPath |
| Config.ResolveAppend | src/Config/ConfigLoader.php:138-145 | walking a path in two pieces is walking it whole |
| Config.GetFollowsSegments | src/Config/ConfigLoader.php:134-147 | get() on a dotted key looks the segments up one level at a time |
| Config.GetTopLevel | src/Config/ConfigLoader.php:134-147 | a key without dots is one lookup: the stored value, null included, or the default |
| Config.ConfigLoader.constructor | src/Config/ConfigLoader.php:11-12 | both static fields start null |
| Config.ConfigLoader.FindProjectRoot | src/Config/ConfigLoader.php:34-53 | the remembered root, or the walk, whose result is remembered |
| Config.ConfigLoader.ApplyEnvironmentOverrides | src/Config/ConfigLoader.php:117-127 | the cached config becomes the environment-merged one, or is kept when the merge fails |
| Config.ConfigLoader.Load | src/Config/ConfigLoader.php:14-32 | load() is the transition LoadStep of the cache and remembered root |
| Config.ConfigLoader.Get | src/Config/ConfigLoader.php:134-147 | get() is load() followed by the walk along the dot-separated segments |
| Config.ConfigLoader.Reset | src/Config/ConfigLoader.php:149-153 | both static fields are null again |
| Config.LoadAfterResetRecomputes | src/Config/ConfigLoader.php:149-153 | after reset(), load() gives what a first load() gives, whatever was cached before |
| FragmentPatterns.FindFragment | src/BladeViewRenderer.php:77-79 | preg_match() of the fragment pattern: the body captured by the leftmost match, or none; the lemmas below state what it finds |
| FragmentPatterns.SkipSpace | src/BladeViewRenderer.php:77 | \s* first takes the whole run of white space |
| FragmentPatterns.NameFromTriesEveryPlacement | src/BladeViewRenderer.php:77 | backtracking into \s* before the quoted name finds a placement exactly when one exists |
| FragmentPatterns.VisibleNameHasOnePlacement | src/BladeViewRenderer.php:77 | a name with a visible character fits at one place only after the white space |
| FragmentPatterns.MarkerAt | src/BladeViewRenderer.php:77 | a matched marker ends after its literal parts and the name |
| FragmentPatterns.MatchSpan | src/BladeViewRenderer.php:77 | the captured body lies between the opening marker's end and the closing marker |
| FragmentPatterns.MatchNeedsClose | src/BladeViewRenderer.php:77-79 | a match at a position exists exactly when an opening marker there is followed by a closing marker |
| FragmentPatterns.MatchIsLazy | src/BladeViewRenderer.php:77 | the lazy body ends at the nearest closing marker |
| FragmentPatterns.LeftmostMatch | src/BladeViewRenderer.php:79 | preg_match reports the leftmost starting position at which the pattern matches |
| FragmentPatterns.MarkerIsFound | src/BladeViewRenderer.php:77 | a marker as the directives print it is matched where it stands, whatever surrounds it |
| FragmentPatterns.PlacedFragmentIsFound | src/BladeViewRenderer.php:77-81 | an opening and a closing marker with no comment before or between them capture exactly the text between |
| FragmentPatterns.PrintedFragmentIsFound | src/BladeViewRenderer.php:77-81 | the directives' output around a body, in a page with no comment before it or in it, captures the body |
| FragmentPatterns.PrintedFragmentIsFoundExactly | src/BladeViewRenderer.php:77-81 | the same with the weakest conditions: no opening marker for the name before it, and no closing marker for the name inside the body |
| Services.WithComponentPath | src/BladeService.php:78-81 | an empty componentPath becomes viewsPath + "/components"; a non-empty one leaves the config unchanged; no other key changes |
| Services.ComponentPathKeepsPaths | src/BladeService.php:78-81 | defaulting the component path keeps both required paths valid |
| Services.EnsureDirectories | src/BladeService.php:56-85 | fails exactly when one of these holds: the views or cache directory neither exists nor can be created; the cache directory is not writable; or the component path is a non-empty array or object, which makes is_dir() throw a TypeError. Otherwise the config stays valid, and its componentPath is a non-empty string. The prepared config is the input with the component path defaulted, every other key unchanged |
| Services.PreparedNamespaces | src/BladeService.php:56-85 | preparing the directories leaves the namespaces entry alone |
| Services.CheckNamespaces | src/BladeService.php:46-50 | the foreach throws a TypeError exactly when some namespace path is set but is an array or an object |
| Services.ComponentPathDisagreement | src/BladeService.php:158-164 | with componentPath null in the loaded config, get('componentPath') answers null while the service uses viewsPath/components |
| Services.CustomDirectives | src/BladeService.php:98 | the entries the foreach over customDirectives visits: a non-empty array, else none |
| Services.CustomDirectivesWin | src/BladeService.php:98-102 | custom directives bind their names on top of the table; the last entry with a name wins and untouched names keep their handler |
| Services.ApplyExtensionsOnce | src/BladeService.php:90-105 | applyExtensions() is idempotent: only the first call changes the table |
| Services.RegisteredTable | src/BladeService.php:90-105 | after the first call the table binds the built-in and the custom names. A custom name runs its last callback. A built-in name that no custom entry uses holds its built-in directive. Every other name keeps its handler |
| Services.Attempt | src/BladeService.php:125-126 | the engine call on the merged, processed data |
| Services.Recovered | src/BladeService.php:136-147 | the text a failed render is replaced with: the error view or the placeholder |
| Services.RenderStep | src/BladeService.php:118-151 | render() as a transition of the service state; the lemmas below state its outcomes |
| Services.LogLineNamesViewAndMessage | src/BladeService.php:133 | the log line names the view in brackets and ends with the exception's message |
| Services.SuccessPassesThrough | src/BladeService.php:125-126 | a successful engine call is returned unchanged, nothing is logged and the view data is cleared |
| Services.ShowErrorsRethrows | src/BladeService.php:128-130 | with showErrors set, the engine's exception is rethrown unchanged and nothing is logged |
| Services.RecoveryNeverThrows | src/BladeService.php:127-147 | without showErrors, a failed render returns the error view or the placeholder, and logs exactly one line when logErrors is set |
| Services.ErrorViewOrPlaceholder | src/BladeService.php:136-147 | the recovered text is the error view's output or the placeholder; with no error view it is the placeholder |
| Services.ProcessDataFailureKeepsViewData | src/BladeService.php:122-125 | a processData() failure escapes before the try: the view data is kept and nothing is logged |
| Services.ViewDataCleared | src/BladeService.php:148-150 | once the try is reached, the view data is cleared whatever the engine does, and at most one line is logged |
| Services.BladeService.constructor | src/BladeService.php:20-25 | a fresh engine table, no view data, extensions not yet loaded |
| Services.BladeService.ApplyExtensions | src/BladeService.php:90-105 | the built-ins, then the custom directives, registered once |
| Services.BladeService.SetData | src/BladeService.php:112-116 | the processed data becomes the view data; a failure leaves it alone |
| Services.BladeService.Render | src/BladeService.php:118-151 | render() is the transition RenderStep: apply the extensions, merge and process the data, try the engine, recover, clear the view data |
| Services.BladeService.GetConfig | src/BladeService.php:158-165 | a null key gives the service's own config; any other key goes through get() on the loader |
| Services.NewBladeService | src/BladeService.php:20-51 | construction fails exactly when ensureDirectoriesExist() throws or a configured namespace path is set but is an array or an object, which makes is_dir() at line 47 throw a TypeError; the first of these errors is the exception; otherwise the service holds the prepared config |
| Renderers.FragmentNameOf | src/BladeViewRenderer.php:77 | a string name is used as it is; preg_quote throws a TypeError exactly when the name cannot be a string argument |
| Renderers.ExtractedText | src/BladeViewRenderer.php:76-82 | the foreach's concatenation of the trimmed bodies, failing at the first bad name |
| Renderers.Extracted | src/BladeViewRenderer.php:72-85 | extractFragments(): the concatenation, or the whole output when that is falsy |
| Renderers.SentData | src/BladeViewRenderer.php:55-57 | the data sent to the service, with __fragments added when fragments were asked for |
| Renderers.Finished | src/BladeViewRenderer.php:59-63 | the service's result, with the fragments extracted when some were asked for |
| Renderers.ExtractedTextConcat | src/BladeViewRenderer.php:76-82 | the foreach appends the pieces in request order; the first failing name fails the whole call |
| Renderers.FailedPrefixFails | src/BladeViewRenderer.php:76-82 | once a name fails, no later name changes the result |
| Renderers.NothingFoundReturnsOutput | src/BladeViewRenderer.php:84 | when no requested fragment is found, the whole output is returned |
| Renderers.SingleFragment | src/BladeViewRenderer.php:72-85 | one name gives the trimmed body of its first match, or the output when there is none or it trims to a falsy string |
| Renderers.DirectiveMarkers | src/BladeExtensions.php:106-117 | the directives print exactly the markers the pattern looks for |
| Renderers.NamedFragmentRoundTrip | src/BladeViewRenderer.php:72-85 | a body printed between a fragment's two markers is extracted by its name, trimmed |
| Renderers.DirectiveFragmentRoundTrip | src/BladeViewRenderer.php:72-85 | what the fragment and endfragment directives print around a body is extracted again, trimmed, under the name they print |
| Renderers.CommentFreeRoundTrip | src/BladeViewRenderer.php:72-85 | the same round trip when the page before the fragment and the body hold no HTML comment |
| Renderers.BladeViewRenderer.constructor | src/BladeViewRenderer.php:15-18 | a renderer over the given service, with no view, data or fragments |
| Renderers.BladeViewRenderer.View | src/BladeViewRenderer.php:20-24 | sets the view name |
| Renderers.BladeViewRenderer.With | src/BladeViewRenderer.php:26-30 | the data is array_merge'd: a later string key overrides and earlier keys are kept; the keys stay distinct |
| Renderers.BladeViewRenderer.Fragment | src/BladeViewRenderer.php:32-36 | an array is the list of names; any other value is a one-name list |
| Renderers.BladeViewRenderer.FragmentIf | src/BladeViewRenderer.php:38-47 | the fragments when the condition holds, else a non-null fallback, else the list is left alone |
| Renderers.BladeViewRenderer.ExtractFragments | src/BladeViewRenderer.php:72-85 | the loop computes Extracted: the trimmed bodies in request order, or the output when that is falsy |
| Renderers.BladeViewRenderer.Render | src/BladeViewRenderer.php:49-70 | an empty view throws before anything changes; the fragment list is passed as __fragments; the service renders; fragments are extracted; data and fragments are reset only after success |

## Left out

- The filesystem, `$_ENV`/`getenv` and `require` of the config file are the `Host` and `Disk` parameters. The `vendor` probe, `file_exists`, `is_readable`, `is_dir`, `mkdir` and `is_writable` become set membership.
- The template engine is a function parameter (`Engine`) from the directive table, the view name and the data to a rendered text or an exception. The engine itself, and `addNamespace` for the component path and for `namespaces` (`BladeService.php:39-50`), are not part of this model.
- The component directory's `mkdir` (`BladeService.php:83`) is silenced with `@`. Whether it creates the directory is not observed by the model. The `is_dir()` call before it can throw, and that case is modelled.
- Services.NewBladeService: `new Blade(...)` (`BladeService.php:33-37`) and the `addNamespace()` calls (`BladeService.php:40-43`, `48`) run the engine, whose failures are not modelled; the constructor's contract covers only the failures of `ensureDirectoriesExist()` and of `is_dir()` on a namespace path.
- `Services.NewBladeService` and the service class take the config as given, with `requires Config.ValidConfig`. This is the config `load()` returns after validation. The as-written loader can hand out an invalid cached config (see Findings), and then `ensureDirectoriesExist()` would call `is_dir(null)`. That case is not modelled.
- `getInstance()` (`BladeService.php:167-176`) and the renderer constructor's fallback to it are left out. The function-local static singleton is process state; the renderer is built from a given service.
- `getBlade()` returns the engine, which is outside the model.
- The engine's compile-time effects are not modelled. Compiling a template that uses `@csrf` runs `getCsrfField()`, which can store a new token in the session (`BladeExtensions.php:67`, `159-170`). The `Engine` parameter is a function of the table, the view and the data, so `Services.BladeService.Render` and `Renderers.BladeViewRenderer.Render` leave the session unchanged.
- `error_log()` is modelled as the service's `errorLog` field, the lines it received.
- `random_bytes(32)` is a parameter of the CSRF methods.
- The `Serializable` methods `serialize()`/`unserialize()` (`ErrorBag.php:42-50`) depend on PHP's serialization string format, which is not modelled. `__serialize`/`__unserialize` are modelled.
- `__toString()` (`BladeViewRenderer.php:87-90`) is not modelled separately. It returns `render()`, and on PHP 8 an exception from `render()` propagates out of the string conversion unchanged.
- Float values and string offsets (`$str[$k]` reading a character) are not values of the model. Reading an offset of a string is treated like reading one of a scalar.
- PhpValues.StringArgument: an exception object is `Stringable`, and PHP's coercive mode (no file declares `strict_types`) converts it to its `__toString()` text. That text depends on the file, line and stack trace the exception was thrown from, which the model does not carry, so `StringArgument` treats `ExceptionObject` as a non-string and gives a TypeError. This reaches `Renderers.FragmentNameOf`, `Services.EnsureDirectories`, `Services.CheckNamespaces`, `ErrorBags.BagFirst`, `BladeExtensions.TokenString` and `Services.Recovered` when such an object is passed.
- FragmentNameOf (`Renderers.FragmentNameOf`): a fragment name that is an exception object gives a TypeError in the model; PHP passes its `__toString()` text to `preg_quote()` (see the `PhpValues.StringArgument` line).
- preg_match's failure modes (backtrack or JIT limits, returning false) are not modelled; the scanner always completes.
- `Renderers.NamedFragmentRoundTrip` and `Renderers.DirectiveFragmentRoundTrip` need two conditions: no opening marker for the same name before the fragment, and no closing marker for it inside the body. Pages breaking these conditions are covered by `FindFragment` itself, not by a round-trip lemma.
- `BladeService.php` and `BladeViewRenderer.php` refer to `BladeExtension` and `ErrorBag` in the namespace `Rcalicdan\BladeLite`, while those classes are declared in `Rcalicdan\Ci4Larabridge\Blade`. The model assumes the names resolve.
- `functions.php` (global helper functions) is not part of this model.

## Findings

| source | as written | input that shows it | evidently intended | confidence | as-written member | corrected member |
|---|---|---|---|---|---|---|
| src/Config/ConfigLoader.php:26-31 | `load()` stores the merged config in the static cache before `applyEnvironmentOverrides()` and `validateRequiredPaths()`, so a failed validation leaves the invalid config cached | a project whose `config/blade.php` returns `[]`: the first `load()` throws `InvalidArgumentException` for `viewsPath`, and a second `load()` returns the cached config with `viewsPath` null | cache the config only once it has passed validation, so every `load()` returns a config with both paths | not executed | Config.InvalidConfigServedFromCache | Config.ValidatedLoadNeverReturnsInvalid |
