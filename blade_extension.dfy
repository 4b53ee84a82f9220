/** The directives the library registers with the template engine, the view-data hook that
    exposes session validation errors as `$errors`, and the CSRF token kept in the session. */
module BladeExtensions {
  import opened PhpStrings
  import opened PhpValues
  import opened ErrorBags

  /** The verb directives and the HTTP method each one spoofs, in declaration order. */
  const MethodMap: seq<(string, string)> := [("delete", "DELETE"), ("put", "PUT"), ("patch", "PATCH")]

  /** What `method`, `fragment` and `endfragment` strip from both ends of their argument. */
  const QuoteChars: set<char> := {'(', ')', '"', '\''}

  /** The indentation inside the `error` directive's PHP block. */
  const Indent16: string := "                "
  const Indent12: string := "            "

  /** One handler closure of the extension; the argument-taking ones receive the raw expression. */
  datatype Directive =
    | MethodInput | VerbInput(verb: string) | CsrfInput
    | Can | EndCan | Cannot | EndCannot
    | ErrorOpen | ErrorClose
    | Auth | EndAuth | Guest | EndGuest
    | Lang
    | FragmentOpen | FragmentClose
    | Asset | Url | Route | ConfigEcho
    | Production | EndProduction | Development | EndDevelopment | Env | EndEnv

  /** A hidden form field. */
  function HiddenInput(name: string, value: string): string {
    "<input type=\"hidden\" name=\"" + name + "\" value=\"" + value + "\">"
  }

  /** The fragment name a `fragment` or `endfragment` argument stands for. */
  function FragmentName(expression: string): string {
    TrimChars(expression, QuoteChars)
  }

  /** The directives that splice their argument into PHP code unchanged. */
  predicate EmbedsExpression(d: Directive) {
    d.Can? || d.Cannot? || d.ErrorOpen? || d.Lang? || d.Asset? || d.Url? || d.Route? ||
    d.ConfigEcho? || d.Env?
  }

  /** The opening of the guard directives' PHP block. */
  const IfOpen: string := "<?php if("

  /** The fixed text before and after the argument of an embedding directive. */
  function Surround(d: Directive): (string, string)
    requires EmbedsExpression(d)
  {
    match d
    case Can => (IfOpen + "$this->checkPermission(", ")): ?>")
    case Cannot => (IfOpen + "!$this->checkPermission(", ")): ?>")
    case ErrorOpen =>
      ("<?php\n" + Indent16 + "$__fieldName = ",
       ";\n"
       + Indent16 + "$__bladeErrors = $errors ?? null;\n"
       + Indent16 + "if ($__bladeErrors && $__bladeErrors->has($__fieldName)):\n"
       + Indent16 + "$message = $__bladeErrors->first($__fieldName);\n"
       + Indent12 + "?>")
    case Lang => ("<?php echo $this->translate(", ");?>")
    case Asset => ("<?php echo $this->asset(", "); ?>")
    case Url => ("<?php echo $this->url(", "); ?>")
    case Route => ("<?php echo $this->route(", "); ?>")
    case ConfigEcho => ("<?php echo $this->config(", "); ?>")
    case Env => (IfOpen + "$this->checkEnvironment(", ")): ?>")
  }

  /** The text a directive compiles to. Only `csrf` touches the session; it is compiled by
      CompileDirective. */
  function Compile(d: Directive, expression: string): string
    requires !d.CsrfInput?
  {
    if EmbedsExpression(d) then Surround(d).0 + expression + Surround(d).1
    else match d
      case MethodInput => HiddenInput("_method", ToUpper(TrimChars(expression, QuoteChars)))
      case VerbInput(verb) => HiddenInput("_method", verb)
      case EndCan => "<?php endif; ?>"
      case EndCannot => "<?php endif; ?>"
      case ErrorClose => "<?php unset($message, $__fieldName, $__bladeErrors); endif; ?>"
      case Auth => IfOpen + "$this->isAuthenticated()):?>"
      case EndAuth => "<?php endif;?>"
      case Guest => IfOpen + "!$this->isAuthenticated()):?>"
      case EndGuest => "<?php endif;?>"
      case FragmentOpen => "<!-- fragment: " + FragmentName(expression) + " -->"
      case FragmentClose => "<!-- endfragment: " + FragmentName(expression) + " -->"
      case Production => IfOpen + "$this->isProduction()): ?>"
      case EndProduction => "<?php endif; ?>"
      case Development => IfOpen + "$this->isDevelopment()): ?>"
      case EndDevelopment => "<?php endif; ?>"
      case EndEnv => "<?php endif; ?>"
  }

  // ---------------------------------------------------------------------------
  // What the compiled directives promise

  /** Where the argument goes in the output of an embedding directive. */
  function ExpressionOffset(d: Directive): nat
    requires EmbedsExpression(d)
  {
    |Surround(d).0|
  }

  /** An embedding directive inserts its argument verbatim at a fixed place: its output is the
      output for the empty argument with the argument spliced in, and nothing else depends on it. */
  lemma ExpressionEmbeddedVerbatim(d: Directive, e: string)
    requires EmbedsExpression(d)
    ensures ExpressionOffset(d) <= |Compile(d, "")|
    ensures Compile(d, e) ==
      Compile(d, "")[..ExpressionOffset(d)] + e + Compile(d, "")[ExpressionOffset(d)..]
  {
    var (p, s) := Surround(d);
    assert Compile(d, "") == p + s;
    assert (p + s)[..|p|] == p;
    assert (p + s)[|p|..] == s;
  }

  /** Two different arguments never compile to the same text under an embedding directive. */
  lemma ExpressionRecoverable(d: Directive, e1: string, e2: string)
    requires EmbedsExpression(d) && Compile(d, e1) == Compile(d, e2)
    ensures e1 == e2
  {
    var (p, s) := Surround(d);
    assert e1 == Compile(d, e1)[|p|..|p| + |e1|];
    assert e2 == Compile(d, e2)[|p|..|p| + |e2|];
  }

  /** The directives whose output ignores their argument. */
  predicate IsConstant(d: Directive) {
    d.VerbInput? || d.EndCan? || d.EndCannot? || d.ErrorClose? || d.Auth? || d.EndAuth? ||
    d.Guest? || d.EndGuest? || d.Production? || d.EndProduction? || d.Development? ||
    d.EndDevelopment? || d.EndEnv?
  }

  lemma ConstantDirectivesIgnoreArgument(d: Directive, e1: string, e2: string)
    requires IsConstant(d)
    ensures Compile(d, e1) == Compile(d, e2)
  {
  }

  /** `cannot` is `can` with the permission check negated. */
  lemma CannotNegatesCan(e: string)
    ensures Compile(Cannot, e) == IfOpen + "!" + Compile(Can, e)[|IfOpen|..]
  {
    var can := "$this->checkPermission(" + e + ")): ?>";
    assert Compile(Can, e) == IfOpen + can;
    assert Compile(Cannot, e) == IfOpen + "!" + can;
    assert (IfOpen + can)[|IfOpen|..] == can;
  }

  /** `guest` is `auth` with the check negated. */
  lemma GuestNegatesAuth()
    ensures Compile(Guest, "") == IfOpen + "!" + Compile(Auth, "")[|IfOpen|..]
  {
    var auth := "$this->isAuthenticated()):?>";
    assert (IfOpen + auth)[|IfOpen|..] == auth;
  }

  /** `method` takes its verb from the argument with quotes and parentheses stripped, upper-cased. */
  lemma {:induction false} MethodDirectiveStripsQuotes(p: string, w: string, q: string)
    requires forall i :: 0 <= i < |p| ==> p[i] in QuoteChars
    requires forall i :: 0 <= i < |q| ==> q[i] in QuoteChars
    requires w != [] && w[0] !in QuoteChars && w[|w| - 1] !in QuoteChars
    ensures Compile(MethodInput, p + w + q) == HiddenInput("_method", ToUpper(w))
  {
    TrimCharsPadded(p, w, q, QuoteChars);
  }

  /** Each verb of the method map is its directive name upper-cased. */
  lemma MethodMapIsUpperCased(i: nat)
    requires i < |MethodMap|
    ensures ToUpper(MethodMap[i].0) == MethodMap[i].1
  {
    var (name, verb) := MethodMap[i];
    assert |ToUpper(name)| == |verb|;
    forall k | 0 <= k < |name|
      ensures ToUpper(name)[k] == verb[k]
    {
      assert ToUpper(name)[k] == UpperChar(name[k]);
    }
  }

  /** `@method('delete')` and `@delete`, and likewise for put and patch, compile to the same field. */
  lemma MethodMatchesVerbDirectives(i: nat, e: string)
    requires i < |MethodMap|
    ensures Compile(MethodInput, "('" + MethodMap[i].0 + "')") == Compile(VerbInput(MethodMap[i].1), e)
  {
    var name := MethodMap[i].0;
    assert name[0] !in QuoteChars && name[|name| - 1] !in QuoteChars;
    MethodDirectiveStripsQuotes("('", name, "')");
    MethodMapIsUpperCased(i);
  }

  /** The same fragment name is written into the opening and the closing marker. */
  lemma FragmentMarkersAgree(e: string)
    ensures Compile(FragmentOpen, e) == "<!-- fragment: " + FragmentName(e) + " -->"
    ensures Compile(FragmentClose, e) == "<!-- endfragment: " + FragmentName(e) + " -->"
  {
  }

  /** A marker's name, written back as the argument, names the same fragment. */
  lemma FragmentNameIdempotent(e: string)
    ensures FragmentName(FragmentName(e)) == FragmentName(e)
  {
    TrimCharsIdempotent(e, QuoteChars);
  }

  // ---------------------------------------------------------------------------
  // The code emitted by `error`, run against the `$errors` variable

  /** What running the block `error` emits does, given the value of `$errors` and the evaluated
      field name: Ok(None) skips the guarded section with `$message` unbound, Ok(Some(m)) runs it
      with `$message` bound to m. A truthy `$errors` that is not an error bag fails on the `has()`
      call, and a bag message that is not a string fails the `first()` return type. */
  function ErrorBlock(errorsVar: Value, field: string): (r: Result<Option<string>>)
    ensures errorsVar.ErrorBagObject? ==>
      (r == Ok(None) <==> !BagHas(errorsVar.errors, field))
    ensures IsEmpty(errorsVar) ==> r == Ok(None)
  {
    if IsEmpty(errorsVar) then Ok(None)
    else if !errorsVar.ErrorBagObject? then Err(EngineFailure("Call to a member function has() on a value that is not an ErrorBag"))
    else if !BagHas(errorsVar.errors, field) then Ok(None)
    else BagFirst(errorsVar.errors, field)
  }

  /** With an ErrorBag holding a string message for the field, the guarded section runs with that
      message; with no message for the field it is skipped. */
  lemma ErrorBlockShowsFirstMessage(errors: seq<Entry>, field: string)
    requires DistinctKeys(errors)
    ensures forall i :: 0 <= i < |errors| && errors[i].key == NormalizeKey(field) && errors[i].val.Str? ==>
      ErrorBlock(ErrorBagObject(errors), field) == Ok(Some(errors[i].val.s))
    ensures (forall i :: 0 <= i < |errors| ==> errors[i].key != NormalizeKey(field)) ==>
      ErrorBlock(ErrorBagObject(errors), field) == Ok(None)
  {
    forall i | 0 <= i < |errors| && errors[i].key == NormalizeKey(field) && errors[i].val.Str?
      ensures ErrorBlock(ErrorBagObject(errors), field) == Ok(Some(errors[i].val.s))
    {
      LookupAt(errors, i);
    }
  }

  // ---------------------------------------------------------------------------
  // Session state and processData

  /** The parts of `$_SESSION` the extension reads and writes; Null stands for an unset key. */
  class Session {
    var active: bool
    var errors: Value
    var token: Value

    constructor (active: bool, errors: Value, token: Value)
      ensures this.active == active && this.errors == errors && this.token == token
    {
      this.active := active;
      this.errors := errors;
      this.token := token;
    }
  }

  /** getSessionErrors(): `$_SESSION['errors'] ?? []` in an active session, else []. The declared
      `array` return type rejects any other stored value with a TypeError. */
  function SessionErrors(session: Session): (r: Result<seq<Entry>>)
    reads session
    ensures !session.active ==> r == Ok([])
    ensures session.active && session.errors.Arr? ==> r == Ok(session.errors.entries)
    ensures r.Err? <==> session.active && !session.errors.Arr? && session.errors != Null
  {
    if !session.active then Ok([])
    else match session.errors
      case Null => Ok([])
      case Arr(es) => Ok(es)
      case _ => Err(TypeError("BladeExtension::getSessionErrors(): Return value must be of type array"))
  }

  const ErrorsKey: Key := StrKey("errors")

  /** addErrorsHandler($data), which is all processData does: when `errors` is not set in the
      view data and the session holds a non-empty error array, `errors` becomes an ErrorBag over it. */
  function AddErrorsHandler(data: seq<Entry>, session: Session): (r: Result<seq<Entry>>)
    reads session
    ensures Isset(data, ErrorsKey) ==> r == Ok(data)
    ensures r.Err? <==> !Isset(data, ErrorsKey) && SessionErrors(session).Err?
    ensures r.Ok? ==> forall k :: k != ErrorsKey ==> Lookup(r.value, k) == Lookup(data, k)
    ensures r.Ok? ==> |r.value| >= |data| && forall i :: 0 <= i < |data| ==> r.value[i].key == data[i].key
    ensures r.Ok? && !Isset(data, ErrorsKey) ==>
      Lookup(r.value, ErrorsKey) ==
        (if SessionErrors(session).value != [] then Some(ErrorBagObject(SessionErrors(session).value))
         else Lookup(data, ErrorsKey))
  {
    if Isset(data, ErrorsKey) then Ok(data)
    else
      var sessionErrors :- SessionErrors(session);
      if sessionErrors != [] then
        var r := Put(data, ErrorsKey, ErrorBagObject(sessionErrors));
        assert forall k :: Lookup(r, k) == if k == ErrorsKey then Some(ErrorBagObject(sessionErrors)) else Lookup(data, k) by {
          forall k { PutLookup(data, ErrorsKey, ErrorBagObject(sessionErrors), k); }
        }
        Ok(r)
      else Ok(data)
  }

  /** processData($data): the hook the service runs over all view data. */
  function ProcessData(data: seq<Entry>, session: Session): Result<seq<Entry>>
    reads session
  {
    AddErrorsHandler(data, session)
  }

  /** The token as the `string` return type of getCsrfToken() yields it. */
  function TokenString(v: Value): Result<string> {
    match StringArgument(v)
    case Some(s) => Ok(s)
    case None => Err(TypeError("BladeExtension::getCsrfToken(): Return value must be of type string"))
  }

  /** getCsrfToken(): in an active session without a token, a fresh one is drawn from 32 random
      bytes and stored hex-encoded; the stored token is returned. Without a session it is "". */
  method GetCsrfToken(session: Session, random: seq<byte>) returns (r: Result<string>)
    requires |random| == 32
    modifies session`token
    ensures !session.active ==> r == Ok("") && session.token == old(session.token)
    ensures session.active && old(session.token) == Null ==>
      session.token == Str(Bin2Hex(random)) && r == Ok(Bin2Hex(random)) && |r.value| == 64
    ensures session.active && old(session.token) != Null ==>
      session.token == old(session.token) && r == TokenString(old(session.token))
  {
    if !session.active {
      return Ok("");
    }
    if session.token == Null {
      session.token := Str(Bin2Hex(random));
    }
    r := TokenString(session.token);
  }

  /** getCsrfField(): the token in a hidden `_token` field. */
  method GetCsrfField(session: Session, random: seq<byte>) returns (r: Result<string>)
    requires |random| == 32
    modifies session`token
    ensures !session.active ==> r == Ok(HiddenInput("_token", "")) && session.token == old(session.token)
    ensures session.active && old(session.token) == Null ==>
      session.token == Str(Bin2Hex(random)) && r == Ok(HiddenInput("_token", Bin2Hex(random)))
    ensures session.active && old(session.token) != Null ==>
      && session.token == old(session.token)
      && r == (match TokenString(old(session.token))
               case Ok(t) => Ok(HiddenInput("_token", t))
               case Err(e) => Err(e))
  {
    var token :- GetCsrfToken(session, random);
    r := Ok(HiddenInput("_token", token));
  }

  /** A token, once issued, is the one every later call returns, whatever the random source gives. */
  method CsrfTokenIsReused(session: Session, random1: seq<byte>, random2: seq<byte>)
    returns (first: Result<string>, second: Result<string>)
    requires |random1| == 32 && |random2| == 32
    modifies session`token
    ensures second == first
    ensures session.active ==> session.token != Null
  {
    first := GetCsrfToken(session, random1);
    second := GetCsrfToken(session, random2);
  }

  /** Running a directive's handler: `csrf` reads or creates the session token, the others only
      compute text. */
  method CompileDirective(d: Directive, expression: string, session: Session, random: seq<byte>)
    returns (r: Result<string>)
    requires |random| == 32
    modifies session`token
    ensures !d.CsrfInput? ==> r == Ok(Compile(d, expression)) && session.token == old(session.token)
    ensures d.CsrfInput? && !session.active ==> r == Ok(HiddenInput("_token", ""))
  {
    if d.CsrfInput? {
      r := GetCsrfField(session, random);
    } else {
      r := Ok(Compile(d, expression));
    }
  }

  // ---------------------------------------------------------------------------
  // Registration with the engine's directive table

  /** A handler in the engine's table: one of the built-in closures, or a user callback. */
  datatype Handler = Builtin(directive: Directive) | Custom(callback: Value)

  /** The engine's name-to-handler table; registering a name again replaces its handler. */
  class DirectiveTable {
    var handlers: map<string, Handler>

    constructor ()
      ensures handlers == map[]
    {
      handlers := map[];
    }

    method Register(name: string, handler: Handler)
      modifies this
      ensures handlers == old(handlers)[name := handler]
    {
      handlers := handlers[name := handler];
    }
  }

  /** The table after registering the verb directives listed in `pairs` in order. */
  function WithVerbDirectives(m: map<string, Handler>, pairs: seq<(string, string)>): map<string, Handler> {
    if pairs == [] then m
    else WithVerbDirectives(m, pairs[..|pairs| - 1])[pairs[|pairs| - 1].0 := Builtin(VerbInput(pairs[|pairs| - 1].1))]
  }

  function WithMethodDirectives(m: map<string, Handler>): map<string, Handler> {
    WithVerbDirectives(m["method" := Builtin(MethodInput)], MethodMap)["csrf" := Builtin(CsrfInput)]
  }

  function WithPermissionDirectives(m: map<string, Handler>): map<string, Handler> {
    m["can" := Builtin(Can)]["endcan" := Builtin(EndCan)]
     ["cannot" := Builtin(Cannot)]["endcannot" := Builtin(EndCannot)]
  }

  function WithErrorDirectives(m: map<string, Handler>): map<string, Handler> {
    m["error" := Builtin(ErrorOpen)]["enderror" := Builtin(ErrorClose)]
  }

  function WithAuthDirectives(m: map<string, Handler>): map<string, Handler> {
    m["auth" := Builtin(Auth)]["endauth" := Builtin(EndAuth)]
     ["guest" := Builtin(Guest)]["endguest" := Builtin(EndGuest)]
  }

  function WithLangDirectives(m: map<string, Handler>): map<string, Handler> {
    m["lang" := Builtin(Lang)]
  }

  function WithFragmentDirectives(m: map<string, Handler>): map<string, Handler> {
    m["fragment" := Builtin(FragmentOpen)]["endfragment" := Builtin(FragmentClose)]
  }

  function WithUtilityDirectives(m: map<string, Handler>): map<string, Handler> {
    m["asset" := Builtin(Asset)]["url" := Builtin(Url)]
     ["route" := Builtin(Route)]["config" := Builtin(ConfigEcho)]
  }

  function WithConditionalDirectives(m: map<string, Handler>): map<string, Handler> {
    m["production" := Builtin(Production)]["endproduction" := Builtin(EndProduction)]
     ["development" := Builtin(Development)]["enddevelopment" := Builtin(EndDevelopment)]
     ["env" := Builtin(Env)]["endenv" := Builtin(EndEnv)]
  }

  /** The table after registerDirectives(): the eight groups applied in the extension's order. */
  function WithBuiltinDirectives(m: map<string, Handler>): map<string, Handler> {
    WithConditionalDirectives(WithUtilityDirectives(WithFragmentDirectives(WithLangDirectives(
      WithAuthDirectives(WithErrorDirectives(WithPermissionDirectives(WithMethodDirectives(m))))))))
  }

  /** `after` is `before` with each name of `table` bound to its built-in directive and every
      other entry left alone. */
  ghost predicate Registers(before: map<string, Handler>, after: map<string, Handler>, table: map<string, Directive>) {
    && after.Keys == before.Keys + table.Keys
    && (forall n :: n in table ==> after[n] == Builtin(table[n]))
    && (forall n :: n in before && n !in table ==> after[n] == before[n])
  }

  /** Registering one group after another registers both, the later group winning a shared name. */
  lemma RegistersCompose(a: map<string, Handler>, b: map<string, Handler>, c: map<string, Handler>,
                         t1: map<string, Directive>, t2: map<string, Directive>)
    requires Registers(a, b, t1) && Registers(b, c, t2)
    ensures Registers(a, c, t1 + t2)
  {
  }

  lemma VerbDirectivesUnfold(m: map<string, Handler>)
    ensures WithVerbDirectives(m, MethodMap) ==
      m["delete" := Builtin(VerbInput("DELETE"))]["put" := Builtin(VerbInput("PUT"))]["patch" := Builtin(VerbInput("PATCH"))]
  {
    var p := MethodMap;
    assert p[..2] == [p[0], p[1]] && p[..2][..1] == [p[0]] && p[..2][..1][..0] == [];
    calc {
      WithVerbDirectives(m, p);
      WithVerbDirectives(m, p[..2])["patch" := Builtin(VerbInput("PATCH"))];
      WithVerbDirectives(m, p[..2][..1])["put" := Builtin(VerbInput("PUT"))]["patch" := Builtin(VerbInput("PATCH"))];
      WithVerbDirectives(m, p[..2][..1][..0])["delete" := Builtin(VerbInput("DELETE"))]
        ["put" := Builtin(VerbInput("PUT"))]["patch" := Builtin(VerbInput("PATCH"))];
    }
  }

  /** The directive each group binds to each of its names, as registerDirectives() lists them. */
  const MethodTable: map<string, Directive> :=
    map["method" := MethodInput, "delete" := VerbInput("DELETE"), "put" := VerbInput("PUT"),
        "patch" := VerbInput("PATCH"), "csrf" := CsrfInput]
  const PermissionTable: map<string, Directive> :=
    map["can" := Can, "endcan" := EndCan, "cannot" := Cannot, "endcannot" := EndCannot]
  const ErrorTable: map<string, Directive> := map["error" := ErrorOpen, "enderror" := ErrorClose]
  const AuthTable: map<string, Directive> :=
    map["auth" := Auth, "endauth" := EndAuth, "guest" := Guest, "endguest" := EndGuest]
  const LangTable: map<string, Directive> := map["lang" := Lang]
  const FragmentTable: map<string, Directive> := map["fragment" := FragmentOpen, "endfragment" := FragmentClose]
  const UtilityTable: map<string, Directive> :=
    map["asset" := Asset, "url" := Url, "route" := Route, "config" := ConfigEcho]
  const ConditionalTable: map<string, Directive> :=
    map["production" := Production, "endproduction" := EndProduction,
        "development" := Development, "enddevelopment" := EndDevelopment,
        "env" := Env, "endenv" := EndEnv]

  /** Every built-in name with its directive. */
  const BuiltinTable: map<string, Directive> :=
    MethodTable + PermissionTable + ErrorTable + AuthTable + LangTable + FragmentTable +
    UtilityTable + ConditionalTable

  /** The names registerDirectives() binds. */
  function BuiltinNames(): set<string> {
    BuiltinTable.Keys
  }

  /** The first group binds `method`, `csrf` and one directive per entry of the method map. */
  lemma {:induction false} MethodGroup(m: map<string, Handler>)
    ensures Registers(m, WithMethodDirectives(m), MethodTable)
    ensures forall i :: 0 <= i < |MethodMap| ==>
      MethodMap[i].0 in WithMethodDirectives(m) && WithMethodDirectives(m)[MethodMap[i].0] == Builtin(VerbInput(MethodMap[i].1))
  {
    VerbDirectivesUnfold(m["method" := Builtin(MethodInput)]);
  }

  // Each of the other groups binds its own names to its own directives and nothing else.

  lemma PermissionGroup(m: map<string, Handler>)
    ensures Registers(m, WithPermissionDirectives(m), PermissionTable)
  {
  }

  lemma ErrorGroup(m: map<string, Handler>)
    ensures Registers(m, WithErrorDirectives(m), ErrorTable)
  {
  }

  lemma AuthGroup(m: map<string, Handler>)
    ensures Registers(m, WithAuthDirectives(m), AuthTable)
  {
  }

  lemma LangGroup(m: map<string, Handler>)
    ensures Registers(m, WithLangDirectives(m), LangTable)
  {
  }

  lemma FragmentGroup(m: map<string, Handler>)
    ensures Registers(m, WithFragmentDirectives(m), FragmentTable)
  {
  }

  lemma UtilityGroup(m: map<string, Handler>)
    ensures Registers(m, WithUtilityDirectives(m), UtilityTable)
  {
  }

  lemma ConditionalGroup(m: map<string, Handler>)
    ensures Registers(m, WithConditionalDirectives(m), ConditionalTable)
  {
  }

  /** registerDirectives() binds every built-in name to its directive, and leaves every other entry
      of the table alone. */
  lemma {:induction false} BuiltinRegistration(m: map<string, Handler>)
    ensures Registers(m, WithBuiltinDirectives(m), BuiltinTable)
  {
    var m1 := WithMethodDirectives(m);
    MethodGroup(m);
    var m2 := WithPermissionDirectives(m1);
    PermissionGroup(m1);
    RegistersCompose(m, m1, m2, MethodTable, PermissionTable);
    var t2 := MethodTable + PermissionTable;
    var m3 := WithErrorDirectives(m2);
    ErrorGroup(m2);
    RegistersCompose(m, m2, m3, t2, ErrorTable);
    var t3 := t2 + ErrorTable;
    var m4 := WithAuthDirectives(m3);
    AuthGroup(m3);
    RegistersCompose(m, m3, m4, t3, AuthTable);
    var t4 := t3 + AuthTable;
    var m5 := WithLangDirectives(m4);
    LangGroup(m4);
    RegistersCompose(m, m4, m5, t4, LangTable);
    var t5 := t4 + LangTable;
    var m6 := WithFragmentDirectives(m5);
    FragmentGroup(m5);
    RegistersCompose(m, m5, m6, t5, FragmentTable);
    var t6 := t5 + FragmentTable;
    var m7 := WithUtilityDirectives(m6);
    UtilityGroup(m6);
    RegistersCompose(m, m6, m7, t6, UtilityTable);
    var t7 := t6 + UtilityTable;
    ConditionalGroup(m7);
    RegistersCompose(m, m7, WithConditionalDirectives(m7), t7, ConditionalTable);
  }

  method RegisterMethodDirectives(blade: DirectiveTable)
    modifies blade
    ensures blade.handlers == WithMethodDirectives(old(blade.handlers))
  {
    blade.Register("method", Builtin(MethodInput));
    ghost var start := blade.handlers;
    var i := 0;
    while i < |MethodMap|
      invariant 0 <= i <= |MethodMap|
      invariant blade.handlers == WithVerbDirectives(start, MethodMap[..i])
    {
      var (directive, verb) := MethodMap[i];
      assert MethodMap[..i + 1][..i] == MethodMap[..i];
      blade.Register(directive, Builtin(VerbInput(verb)));
      i := i + 1;
    }
    assert MethodMap[..i] == MethodMap;
    blade.Register("csrf", Builtin(CsrfInput));
  }

  method RegisterPermissionDirectives(blade: DirectiveTable)
    modifies blade
    ensures blade.handlers == WithPermissionDirectives(old(blade.handlers))
  {
    blade.Register("can", Builtin(Can));
    blade.Register("endcan", Builtin(EndCan));
    blade.Register("cannot", Builtin(Cannot));
    blade.Register("endcannot", Builtin(EndCannot));
  }

  method RegisterErrorDirectives(blade: DirectiveTable)
    modifies blade
    ensures blade.handlers == WithErrorDirectives(old(blade.handlers))
  {
    blade.Register("error", Builtin(ErrorOpen));
    blade.Register("enderror", Builtin(ErrorClose));
  }

  method RegisterAuthDirectives(blade: DirectiveTable)
    modifies blade
    ensures blade.handlers == WithAuthDirectives(old(blade.handlers))
  {
    blade.Register("auth", Builtin(Auth));
    blade.Register("endauth", Builtin(EndAuth));
    blade.Register("guest", Builtin(Guest));
    blade.Register("endguest", Builtin(EndGuest));
  }

  method RegisterLangDirectives(blade: DirectiveTable)
    modifies blade
    ensures blade.handlers == WithLangDirectives(old(blade.handlers))
  {
    blade.Register("lang", Builtin(Lang));
  }

  method RegisterFragmentDirectives(blade: DirectiveTable)
    modifies blade
    ensures blade.handlers == WithFragmentDirectives(old(blade.handlers))
  {
    blade.Register("fragment", Builtin(FragmentOpen));
    blade.Register("endfragment", Builtin(FragmentClose));
  }

  method RegisterUtilityDirectives(blade: DirectiveTable)
    modifies blade
    ensures blade.handlers == WithUtilityDirectives(old(blade.handlers))
  {
    blade.Register("asset", Builtin(Asset));
    blade.Register("url", Builtin(Url));
    blade.Register("route", Builtin(Route));
    blade.Register("config", Builtin(ConfigEcho));
  }

  method RegisterConditionalDirectives(blade: DirectiveTable)
    modifies blade
    ensures blade.handlers == WithConditionalDirectives(old(blade.handlers))
  {
    blade.Register("production", Builtin(Production));
    blade.Register("endproduction", Builtin(EndProduction));
    blade.Register("development", Builtin(Development));
    blade.Register("enddevelopment", Builtin(EndDevelopment));
    blade.Register("env", Builtin(Env));
    blade.Register("endenv", Builtin(EndEnv));
  }

  /** registerDirectives(): the eight groups, in the extension's order. */
  method RegisterDirectives(blade: DirectiveTable)
    modifies blade
    ensures blade.handlers == WithBuiltinDirectives(old(blade.handlers))
  {
    RegisterMethodDirectives(blade);
    RegisterPermissionDirectives(blade);
    RegisterErrorDirectives(blade);
    RegisterAuthDirectives(blade);
    RegisterLangDirectives(blade);
    RegisterFragmentDirectives(blade);
    RegisterUtilityDirectives(blade);
    RegisterConditionalDirectives(blade);
  }
}
