/** The fluent renderer: a view name, data merged in by successive calls and a list of
    fragments are collected, then rendered through the service, and when fragments were asked
    for only their bodies are kept. */
module Renderers {
  import opened PhpStrings
  import opened PhpValues
  import opened FragmentPatterns
  import opened BladeExtensions
  import opened Services

  // ---------------------------------------------------------------------------
  // extractFragments

  /** `is_array($fragments) ? $fragments : [$fragments]`. */
  function FragmentList(v: Value): seq<Entry> {
    if v.Arr? then v.entries else [Entry(IntKey(0), v)]
  }

  /** The requested name as preg_quote() takes it: a string, or a scalar printed as one; an array
      or an object is a TypeError. The quoted name is matched literally. */
  function FragmentNameOf(v: Value): (r: Result<string>)
    ensures v.Str? ==> r == Ok(v.s)
    ensures r.Err? <==> StringArgument(v).None?
  {
    match StringArgument(v)
    case Some(name) => Ok(name)
    case None => Err(TypeError("preg_quote(): Argument #1 ($str) must be of type string"))
  }

  /** What one requested name contributes: the trimmed body of its first match, or nothing. */
  function Piece(output: string, name: string): string {
    match FindFragment(output, name)
    case None => ""
    case Some(body) => Trim(body)
  }

  /** One pass of the foreach: the requested name's piece is appended to the text so far. */
  function Appended(output: string, text: string, requested: Entry): Result<string> {
    var name :- FragmentNameOf(requested.val);
    Ok(text + Piece(output, name))
  }

  /** `$extractedContent` after the foreach over `fragments`, in request order. */
  function ExtractedText(output: string, fragments: seq<Entry>): Result<string>
    decreases |fragments|
  {
    if fragments == [] then Ok("")
    else
      var text :- ExtractedText(output, fragments[..|fragments| - 1]);
      Appended(output, text, fragments[|fragments| - 1])
  }

  /** `$extractedContent ?: $output`: a falsy extraction ("" or "0") gives the whole output. */
  function Extracted(output: string, fragments: seq<Entry>): Result<string> {
    var text :- ExtractedText(output, fragments);
    Ok(if IsEmpty(Str(text)) then output else text)
  }

  /** Two texts one after the other, or the first failure. */
  function Joined(x: Result<string>, y: Result<string>): Result<string> {
    var a :- x;
    var b :- y;
    Ok(a + b)
  }

  /** Appending to a longer text appends the same piece. */
  lemma AppendedShift(output: string, x: string, y: string, requested: Entry)
    ensures Appended(output, x + y, requested) == Joined(Ok(x), Appended(output, y, requested))
  {
    var name := FragmentNameOf(requested.val);
    if name.Ok? {
      var piece := Piece(output, name.value);
      assert (x + y) + piece == x + (y + piece);
    }
  }

  /** Extracting two lists of names one after the other is extracting their concatenation: the
      bodies are appended in request order, and the first name that is not a string fails. */
  lemma {:induction false} ExtractedTextConcat(output: string, a: seq<Entry>, b: seq<Entry>)
    ensures ExtractedText(output, a + b) == Joined(ExtractedText(output, a), ExtractedText(output, b))
    decreases |b|
  {
    if b == [] {
      assert a + b == a;
      if ExtractedText(output, a).Ok? {
        var x := ExtractedText(output, a).value;
        assert x + "" == x;
      }
    } else {
      var init := b[..|b| - 1];
      ExtractedTextConcat(output, a, init);
      assert (a + b)[..|a + b| - 1] == a + init;
      assert (a + b)[|a + b| - 1] == b[|b| - 1];
      if ExtractedText(output, a).Ok? && ExtractedText(output, init).Ok? {
        AppendedShift(output, ExtractedText(output, a).value, ExtractedText(output, init).value, b[|b| - 1]);
      }
    }
  }

  /** The foreach, one more pass at a time. */
  lemma PrefixStep(output: string, fragments: seq<Entry>, i: nat)
    requires i < |fragments|
    ensures ExtractedText(output, fragments[..i + 1]) ==
      (var text :- ExtractedText(output, fragments[..i]); Appended(output, text, fragments[i]))
  {
    assert fragments[..i + 1][..i] == fragments[..i];
  }

  /** A failure stops the foreach: later names are not looked at. */
  lemma FailedPrefixFails(output: string, fragments: seq<Entry>, i: nat)
    requires i <= |fragments| && ExtractedText(output, fragments[..i]).Err?
    ensures ExtractedText(output, fragments) == ExtractedText(output, fragments[..i])
  {
    var done, rest := fragments[..i], fragments[i..];
    assert done + rest == fragments;
    ExtractedTextConcat(output, done, rest);
  }

  /** When no requested name has a match, the output comes back whole. */
  lemma {:induction false} NothingFoundReturnsOutput(output: string, fragments: seq<Entry>)
    requires forall i :: 0 <= i < |fragments| ==>
      FragmentNameOf(fragments[i].val).Ok? && FindFragment(output, FragmentNameOf(fragments[i].val).value).None?
    ensures ExtractedText(output, fragments) == Ok("")
    ensures Extracted(output, fragments) == Ok(output)
    decreases |fragments|
  {
    if fragments != [] {
      var n := |fragments| - 1;
      var init := fragments[..n];
      assert forall i :: 0 <= i < |init| ==> init[i] == fragments[i];
      NothingFoundReturnsOutput(output, init);
      assert Piece(output, FragmentNameOf(fragments[n].val).value) == "";
      assert "" + "" == "";
    }
  }

  /** A single requested name yields the trimmed body of its first match, or the output when
      there is none or the trimmed body is falsy. */
  lemma SingleFragment(output: string, v: Value)
    requires FragmentNameOf(v).Ok?
    ensures var piece := Piece(output, FragmentNameOf(v).value);
      Extracted(output, [Entry(IntKey(0), v)]) == Ok(if IsEmpty(Str(piece)) then output else piece)
  {
    SingletonText(output, Entry(IntKey(0), v));
  }

  lemma SingletonText(output: string, requested: Entry)
    ensures ExtractedText(output, [requested]) ==
      (var name :- FragmentNameOf(requested.val); Ok(Piece(output, name)))
  {
    var fs := [requested];
    assert fs[..|fs| - 1] == [];
    if FragmentNameOf(requested.val).Ok? {
      var piece := Piece(output, FragmentNameOf(requested.val).value);
      assert "" + piece == piece;
    }
  }

  /** The markers the `fragment` and `endfragment` directives print are the ones the pattern
      looks for, with the directives' argument reduced to the name. */
  lemma DirectiveMarkers(e: string)
    ensures Compile(FragmentOpen, e) == Marker("fragment", FragmentName(e))
    ensures Compile(FragmentClose, e) == Marker("endfragment", FragmentName(e))
  {
    FragmentMarkersAgree(e);
    OpenMarkerSpelled(FragmentName(e));
    CloseMarkerSpelled(FragmentName(e));
  }

  lemma OpenMarkerSpelled(n: string)
    ensures Marker("fragment", n) == "<!-- fragment: " + n + " -->"
  {
  }

  lemma CloseMarkerSpelled(n: string)
    ensures Marker("endfragment", n) == "<!-- endfragment: " + n + " -->"
  {
  }

  /** A fragment printed with its two markers, asked for by its name, gives back the trimmed
      body (or the whole output when that is falsy): provided no opening marker for that name
      comes before it and no closing marker for it starts inside the body. */
  lemma NamedFragmentRoundTrip(output: string, pre: string, name: string, body: string, post: string)
    requires output == pre + Marker("fragment", name) + body + Marker("endfragment", name) + post
    requires forall i :: 0 <= i < |pre| ==> MarkerAt(output, i, "fragment", name).None?
    requires forall i :: |pre| + |Marker("fragment", name)| <= i < |pre| + |Marker("fragment", name)| + |body| ==>
      MarkerAt(output, i, "endfragment", name).None?
    ensures Extracted(output, [Entry(IntKey(0), Str(name))]) ==
      Ok(if IsEmpty(Str(Trim(body))) then output else Trim(body))
  {
    PrintedFragmentIsFoundExactly(output, pre, body, post, name);
    FoundFragment(output, name, body);
  }

  lemma FoundFragment(output: string, name: string, body: string)
    requires FindFragment(output, name) == Some(body)
    ensures Extracted(output, [Entry(IntKey(0), Str(name))]) ==
      Ok(if IsEmpty(Str(Trim(body))) then output else Trim(body))
  {
    SingleFragment(output, Str(name));
  }

  /** The same for the output of the `fragment` and `endfragment` directives, asked for by the
      name they print. */
  lemma DirectiveFragmentRoundTrip(output: string, pre: string, e: string, body: string, post: string)
    requires output == pre + Compile(FragmentOpen, e) + body + Compile(FragmentClose, e) + post
    requires forall i :: 0 <= i < |pre| ==> MarkerAt(output, i, "fragment", FragmentName(e)).None?
    requires forall i :: |pre| + |Compile(FragmentOpen, e)| <= i < |pre| + |Compile(FragmentOpen, e)| + |body| ==>
      MarkerAt(output, i, "endfragment", FragmentName(e)).None?
    ensures Extracted(output, [Entry(IntKey(0), Str(FragmentName(e)))]) ==
      Ok(if IsEmpty(Str(Trim(body))) then output else Trim(body))
  {
    DirectiveMarkers(e);
    NamedFragmentRoundTrip(output, pre, FragmentName(e), body, post);
  }

  /** The same, for a page and a body that hold no HTML comment at all. */
  lemma CommentFreeRoundTrip(output: string, pre: string, e: string, body: string, post: string)
    requires output == pre + Compile(FragmentOpen, e) + body + Compile(FragmentClose, e) + post
    requires CommentFree(pre) && CommentFree(body)
    ensures Extracted(output, [Entry(IntKey(0), Str(FragmentName(e)))]) ==
      Ok(if IsEmpty(Str(Trim(body))) then output else Trim(body))
  {
    DirectiveMarkers(e);
    CommentFreeFound(output, pre, FragmentName(e), body, post);
  }

  lemma CommentFreeFound(output: string, pre: string, name: string, body: string, post: string)
    requires output == pre + Marker("fragment", name) + body + Marker("endfragment", name) + post
    requires CommentFree(pre) && CommentFree(body)
    ensures Extracted(output, [Entry(IntKey(0), Str(name))]) ==
      Ok(if IsEmpty(Str(Trim(body))) then output else Trim(body))
  {
    PrintedFragmentIsFound(output, pre, body, post, name);
    FoundFragment(output, name, body);
  }

  // ---------------------------------------------------------------------------
  // The renderer object

  /** `empty($this->view)` on a ?string. */
  predicate EmptyView(view: Option<string>) {
    view.None? || IsEmpty(Str(view.value))
  }

  const NoView: Error := InvalidArgumentException("No view has been specified")

  /** The data render() passes on: with `__fragments` set to the list when it is not empty. */
  function SentData(data: seq<Entry>, fragments: seq<Entry>): seq<Entry> {
    if fragments != [] then Put(data, StrKey("__fragments"), Arr(fragments)) else data
  }

  /** What render() returns from the service's result: extraction runs only when fragments were
      asked for. */
  function Finished(out: Result<string>, fragments: seq<Entry>): Result<string> {
    match out
    case Err(e) => Err(e)
    case Ok(text) => if fragments == [] then Ok(text) else Extracted(text, fragments)
  }

  class BladeViewRenderer {
    const blade: BladeService
    var view: Option<string>
    var data: seq<Entry>
    var fragments: seq<Entry>

    /** The collected data is a PHP array. */
    ghost predicate Valid()
      reads this
    {
      DistinctKeys(data)
    }

    constructor (blade: BladeService)
      ensures this.blade == blade && view.None? && data == [] && fragments == [] && Valid()
    {
      this.blade := blade;
      view := None;
      data := [];
      fragments := [];
    }

    /** view($view). */
    method View(name: string)
      modifies this`view
      ensures view == Some(name)
    {
      view := Some(name);
    }

    /** with($data): array_merge into the collected data; a later string key overrides, an
        earlier one not given again is kept. */
    method With(more: seq<Entry>)
      requires Valid()
      modifies this`data
      ensures Valid() && data == ArrayMerge(old(data), more)
      ensures DistinctKeys(more) ==> forall k: Key :: k.StrKey? ==>
        Lookup(data, k) == if HasKey(more, k) then Lookup(more, k) else Lookup(old(data), k)
    {
      ArrayMergeDistinct(data, more);
      if DistinctKeys(more) {
        forall k: Key | k.StrKey?
          ensures Lookup(ArrayMerge(data, more), k) == if HasKey(more, k) then Lookup(more, k) else Lookup(data, k)
        {
          ArrayMergeStringKey(data, more, k);
        }
      }
      data := ArrayMerge(data, more);
    }

    /** fragment($fragments): the list replaces any earlier one. */
    method Fragment(requested: Value)
      modifies this`fragments
      ensures fragments == FragmentList(requested)
      ensures !requested.Arr? ==> fragments == [Entry(IntKey(0), requested)]
    {
      fragments := FragmentList(requested);
    }

    /** fragmentIf($condition, $fragments, $fallback): a null fallback leaves the list alone. */
    method FragmentIf(condition: bool, requested: Value, fallback: Value)
      modifies this`fragments
      ensures condition ==> fragments == FragmentList(requested)
      ensures !condition && fallback != Null ==> fragments == FragmentList(fallback)
      ensures !condition && fallback == Null ==> fragments == old(fragments)
    {
      if condition {
        fragments := FragmentList(requested);
      } else if fallback != Null {
        fragments := FragmentList(fallback);
      }
    }

    /** extractFragments($output, $fragments). */
    method ExtractFragments(output: string, requested: seq<Entry>) returns (r: Result<string>)
      ensures r == Extracted(output, requested)
    {
      var extracted := "";
      var i := 0;
      while i < |requested|
        invariant 0 <= i <= |requested|
        invariant ExtractedText(output, requested[..i]) == Ok(extracted)
      {
        PrefixStep(output, requested, i);
        var name := FragmentNameOf(requested[i].val);
        if name.Err? {
          FailedPrefixFails(output, requested, i + 1);
          return Err(name.error);
        }
        var found := FindFragment(output, name.value);
        ghost var before := extracted;
        if found.Some? {
          extracted := extracted + Trim(found.value);
        } else {
          assert before + "" == before;
        }
        assert extracted == before + Piece(output, name.value);
        i := i + 1;
      }
      assert requested[..i] == requested;
      r := Ok(if IsEmpty(Str(extracted)) then output else extracted);
    }

    /** render(): an empty view name throws before anything else; the collected data and
        fragments are cleared only once the render and the extraction have succeeded. */
    method Render(engine: Engine) returns (r: Result<string>)
      requires Valid()
      modifies this, blade, blade.blade
      ensures Valid() && view == old(view)
      ensures EmptyView(view) ==>
        && r == Err(NoView) && data == old(data) && fragments == old(fragments)
        && blade.State() == old(blade.State())
      ensures !EmptyView(view) ==>
        var sent := SentData(old(data), old(fragments));
        var (st, out) := RenderStep(blade.config, blade.session, old(blade.State()), engine, view.value, sent);
        && blade.State() == st
        && r == Finished(out, old(fragments))
        && (r.Ok? ==> data == [] && fragments == [])
        && (r.Err? ==> data == sent && fragments == old(fragments))
    {
      if view.None? || IsEmpty(Str(view.value)) {
        return Err(NoView);
      }
      if fragments != [] {
        PutDistinct(data, StrKey("__fragments"), Arr(fragments));
        data := Put(data, StrKey("__fragments"), Arr(fragments));
      }
      var output :- blade.Render(engine, view.value, data);
      if fragments != [] {
        output :- ExtractFragments(output, fragments);
      }
      data := [];
      fragments := [];
      return Ok(output);
    }
  }
}
