/** The pattern the renderer uses to cut a named fragment out of rendered HTML,
      <!--\s*fragment\s*:\s*NAME\s*-->(.*?)<!--\s*endfragment\s*:\s*NAME\s*-->
    with the `s` flag and NAME quoted literally, written out as the search a backtracking regex
    engine performs: the leftmost starting position wins, every `\s*` first takes the longest
    run of white space and gives it back one character at a time, and the lazy body is the
    shortest one followed by a closing marker. */
module FragmentPatterns {
  import opened PhpStrings
  import opened PhpValues

  /** The position after the run of \s characters that starts at `i`. */
  function SkipSpace(s: string, i: nat): (r: nat)
    requires i <= |s|
    ensures i <= r <= |s|
    ensures forall k :: i <= k < r ==> IsSpace(s[k])
    ensures r == |s| || !IsSpace(s[r])
    decreases |s| - i
  {
    if i < |s| && IsSpace(s[i]) then SkipSpace(s, i + 1) else i
  }

  /** Skipping from anywhere inside a run of white space ends where the run ends. */
  lemma {:induction false} SkipSpaceInsideRun(s: string, i: nat, m: nat)
    requires i <= m <= |s|
    requires forall k :: i <= k < m ==> IsSpace(s[k])
    ensures SkipSpace(s, i) == SkipSpace(s, m)
    decreases m - i
  {
    if i < m {
      SkipSpaceInsideRun(s, i + 1, m);
    }
  }

  /** `lit` occurs in `s` at position `i`. */
  predicate LiteralAt(s: string, i: nat, lit: string) {
    i + |lit| <= |s| && forall k :: 0 <= k < |lit| ==> s[i + k] == lit[k]
  }

  /** NAME\s*--> matched with the name starting at `j`: the position after `-->`. The `\s*`
      after the name can only succeed with its longest run, since `-` is not white space. */
  function NameTail(s: string, j: nat, name: string): (r: Option<nat>)
    requires j <= |s|
    ensures r.Some? ==> j + |name| + 3 <= r.value <= |s|
  {
    if !LiteralAt(s, j, name) then None
    else
      var k := SkipSpace(s, j + |name|);
      if LiteralAt(s, k, "-->") then Some(k + 3) else None
  }

  /** \s*NAME\s*--> after the colon, where the white space there runs from `start` to `j`:
      the greedy `\s*` tries the name at `j` first, then one position earlier, down to
      `start`. */
  function NameFrom(s: string, start: nat, j: nat, name: string): (r: Option<nat>)
    requires start <= j <= |s|
    ensures r.Some? ==> start + |name| + 3 <= r.value <= |s|
    decreases j - start
  {
    match NameTail(s, j, name)
    case Some(e) => Some(e)
    case None => if j == start then None else NameFrom(s, start, j - 1, name)
  }

  /** The search answers with the end of the last placement that matches, and fails only when
      no placement does. */
  lemma {:induction false} NameFromTriesEveryPlacement(s: string, start: nat, j: nat, name: string)
    requires start <= j <= |s|
    ensures NameFrom(s, start, j, name).Some? ==>
      exists j' :: start <= j' <= j && NameTail(s, j', name) == NameFrom(s, start, j, name)
    ensures NameFrom(s, start, j, name).None? ==>
      forall j' :: start <= j' <= j ==> NameTail(s, j', name).None?
    decreases j - start
  {
    if NameTail(s, j, name).None? && j > start {
      NameFromTriesEveryPlacement(s, start, j - 1, name);
    }
  }

  /** <!--\s*WORD\s*:\s*NAME\s*--> at position `p`: the position after the marker. The `\s*`
      before WORD and before the colon can only succeed with their longest runs, since neither
      WORD's first letter nor `:` is white space. */
  function MarkerAt(s: string, p: nat, word: string, name: string): (r: Option<nat>)
    requires p <= |s|
    ensures r.Some? ==> p + 4 + |word| + 1 + |name| + 3 <= r.value <= |s|
  {
    if !LiteralAt(s, p, "<!--") then None
    else
      var i1 := SkipSpace(s, p + 4);
      if !LiteralAt(s, i1, word) then None
      else
        var i2 := SkipSpace(s, i1 + |word|);
        if !LiteralAt(s, i2, ":") then None
        else NameFrom(s, i2 + 1, SkipSpace(s, i2 + 1), name)
  }

  /** The opening marker of fragment `name` at `p`. */
  function OpenAt(s: string, p: nat, name: string): Option<nat>
    requires p <= |s|
  {
    MarkerAt(s, p, "fragment", name)
  }

  /** A closing marker of fragment `name` starts at `q`. */
  predicate CloseAt(s: string, q: nat, name: string)
    requires q <= |s|
  {
    MarkerAt(s, q, "endfragment", name).Some?
  }

  /** The closing marker of fragment `name` tried at every position of the subject. */
  function CloseAttempts(s: string, name: string): (cs: seq<Option<nat>>)
    ensures |cs| == |s| + 1 && forall q :: 0 <= q <= |s| ==> cs[q] == MarkerAt(s, q, "endfragment", name)
  {
    seq(|s| + 1, q requires 0 <= q <= |s| => MarkerAt(s, q, "endfragment", name))
  }

  /** Where the body of a match that starts at `p` begins and ends, if there is one: the lazy
      `(.*?)` stops at the first closing marker after the opening one. */
  function MatchSpan(s: string, p: nat, name: string): (r: Option<(nat, nat)>)
    requires p <= |s|
    ensures r.Some? ==> r.value.0 <= r.value.1 <= |s|
  {
    match OpenAt(s, p, name)
    case None => None
    case Some(e) =>
      match FirstSome(CloseAttempts(s, name), e)
      case None => None
      case Some(q) => Some((e, q))
  }

  /** The body captured by a match that starts at `p`, if one does. */
  function MatchAt(s: string, p: nat, name: string): (r: Option<string>)
    requires p <= |s|
  {
    match MatchSpan(s, p, name)
    case None => None
    case Some((e, q)) => Some(s[e..q])
  }

  /** A match starting at `p` exists exactly when a closing marker follows the opening one. */
  lemma MatchNeedsClose(s: string, p: nat, name: string)
    requires p <= |s|
    ensures MatchSpan(s, p, name).Some? <==>
      (OpenAt(s, p, name).Some? && exists q :: OpenAt(s, p, name).value <= q <= |s| && CloseAt(s, q, name))
  {
    if OpenAt(s, p, name).Some? {
      var cs := CloseAttempts(s, name);
      var e := OpenAt(s, p, name).value;
      if q :| e <= q <= |s| && CloseAt(s, q, name) {
        assert cs[q].Some?;
        assert FirstSome(cs, e).Some?;
      } else if FirstSome(cs, e).Some? {
        var q := FirstSome(cs, e).value;
        assert CloseAt(s, q, name) by {
          assert cs[q].Some?;
        }
        assert false;
      }
    }
  }

  /** The lazy body: it runs from the end of the opening marker to the nearest closing marker. */
  lemma MatchIsLazy(s: string, p: nat, name: string, e: nat, q: nat)
    requires p <= |s| && MatchSpan(s, p, name) == Some((e, q))
    ensures OpenAt(s, p, name) == Some(e)
    ensures CloseAt(s, q, name)
    ensures forall q' :: e <= q' < q ==> !CloseAt(s, q', name)
  {
    var cs := CloseAttempts(s, name);
    assert FirstSome(cs, e) == Some(q);
    assert CloseAt(s, q, name) by {
      assert cs[q].Some?;
    }
    forall q' | e <= q' < q
      ensures !CloseAt(s, q', name)
    {
      assert cs[q'].None?;
    }
  }

  /** The first position from `p` on that holds a value. */
  function FirstSome<T>(xs: seq<Option<T>>, p: nat): (r: Option<nat>)
    requires p <= |xs|
    ensures r.Some? ==> p <= r.value < |xs| && xs[r.value].Some?
    ensures r.Some? ==> forall i :: p <= i < r.value ==> xs[i].None?
    ensures r.None? ==> forall i :: p <= i < |xs| ==> xs[i].None?
    decreases |xs| - p
  {
    if p == |xs| then None
    else if xs[p].Some? then Some(p)
    else FirstSome(xs, p + 1)
  }

  /** The match attempted at every starting position, the end of the subject included. */
  function Attempts(s: string, name: string): (ms: seq<Option<(nat, nat)>>)
    ensures |ms| == |s| + 1 && forall p :: 0 <= p <= |s| ==> ms[p] == MatchSpan(s, p, name)
  {
    seq(|s| + 1, p requires 0 <= p <= |s| => MatchSpan(s, p, name))
  }

  /** The leftmost match's start, if the pattern matches at all. */
  function LeftmostMatch(s: string, name: string): (r: Option<nat>)
    ensures r.Some? ==> r.value <= |s| && MatchSpan(s, r.value, name).Some?
    ensures r.Some? ==> forall p :: 0 <= p < r.value ==> MatchSpan(s, p, name).None?
    ensures r.None? ==> forall p :: 0 <= p <= |s| ==> MatchSpan(s, p, name).None?
  {
    var ms := Attempts(s, name);
    var r := FirstSome(ms, 0);
    if r.Some? then
      assert ms[r.value].Some?;
      r
    else
      assert forall p :: 0 <= p <= |s| ==> ms[p].None?;
      r
  }

  /** preg_match() with the fragment pattern: the captured body of the leftmost match. */
  function FindFragment(s: string, name: string): (r: Option<string>)
  {
    match LeftmostMatch(s, name)
    case None => None
    case Some(p) => MatchAt(s, p, name)
  }

  // ---------------------------------------------------------------------------
  // Backtracking into the \s* before the name cannot change the result

  /** However the white space after the colon is split between `\s*` and the name, every split
      that matches ends the marker at the same place. So when the body search fails after the
      first split, the other splits fail too, and modelling the marker by its first split loses
      nothing. */
  lemma NameEndIsUnique(s: string, start: nat, stop: nat, j1: nat, j2: nat, name: string)
    requires start <= j1 <= stop && start <= j2 <= stop && stop <= |s|
    requires forall k :: start <= k < stop ==> IsSpace(s[k])
    requires stop == |s| || !IsSpace(s[stop])
    requires NameTail(s, j1, name).Some? && NameTail(s, j2, name).Some?
    ensures NameTail(s, j1, name) == NameTail(s, j2, name)
  {
    if j1 < j2 {
      NameEndOrdered(s, start, stop, j1, j2, name);
    } else if j2 < j1 {
      NameEndOrdered(s, start, stop, j2, j1, name);
    }
  }

  lemma NameEndOrdered(s: string, start: nat, stop: nat, j1: nat, j2: nat, name: string)
    requires start <= j1 < j2 <= stop <= |s|
    requires forall k :: start <= k < stop ==> IsSpace(s[k])
    requires stop == |s| || !IsSpace(s[stop])
    requires NameTail(s, j1, name).Some? && NameTail(s, j2, name).Some?
    ensures NameTail(s, j1, name) == NameTail(s, j2, name)
  {
    if FirstVisible(name) < |name| {
      assert LiteralAt(s, j1, name) && LiteralAt(s, j2, name);
      VisibleNameHasOnePlacement(s, start, stop, j1, j2, name, FirstVisible(name));
    } else {
      SpaceNameInsideRun(s, start, stop, j1, name);
      SpaceNameInsideRun(s, start, stop, j2, name);
    }
  }

  /** The index of the first character of `name` that is not white space, or |name|. */
  function FirstVisible(name: string): (t: nat)
    ensures t <= |name|
    ensures forall i :: 0 <= i < t ==> IsSpace(name[i])
    ensures t < |name| ==> !IsSpace(name[t])
  {
    if name == [] || !IsSpace(name[0]) then 0 else 1 + FirstVisible(name[1..])
  }

  /** A name with a visible character matches at one place only after a run of white space:
      that character cannot sit at two places at once. */
  lemma VisibleNameHasOnePlacement(s: string, start: nat, stop: nat, j1: nat, j2: nat, name: string, t: nat)
    requires start <= j1 <= j2 <= stop <= |s|
    requires forall k :: start <= k < stop ==> IsSpace(s[k])
    requires LiteralAt(s, j1, name) && LiteralAt(s, j2, name)
    requires t < |name| && !IsSpace(name[t]) && forall i :: 0 <= i < t ==> IsSpace(name[i])
    ensures j1 == j2
  {
    var d := j2 - j1;
    LiteralChar(s, j1, name, t);
    if d > 0 && t >= d {
      LiteralChar(s, j2, name, t - d);
    }
  }

  /** The characters of a literal found at `j`. */
  lemma LiteralChar(s: string, j: nat, lit: string, i: nat)
    requires LiteralAt(s, j, lit) && i < |lit|
    ensures j + i < |s| && s[j + i] == lit[i]
  {
  }

  lemma SpaceNameInsideRun(s: string, start: nat, stop: nat, j: nat, name: string)
    requires start <= j <= stop <= |s|
    requires forall k :: start <= k < stop ==> IsSpace(s[k])
    requires stop == |s| || !IsSpace(s[stop])
    requires forall i :: 0 <= i < |name| ==> IsSpace(name[i])
    requires NameTail(s, j, name).Some?
    ensures NameTail(s, j, name) == Some(stop + 3)
  {
    var n := |name|;
    assert LiteralAt(s, j, name);
    if stop < j + n {
      LiteralChar(s, j, name, stop - j);
      assert false;
    }
    SkipSpaceInsideRun(s, j + n, stop);
  }

  /** When the name can be placed anywhere after the colon, the marker is found and ends where
      that placement ends it. */
  lemma NameFromFindsAnyPlacement(s: string, start: nat, j0: nat, name: string)
    requires start <= j0 <= |s| && j0 <= SkipSpace(s, start)
    requires NameTail(s, j0, name).Some?
    ensures NameFrom(s, start, SkipSpace(s, start), name) == NameTail(s, j0, name)
  {
    var stop := SkipSpace(s, start);
    var r := NameFrom(s, start, stop, name);
    NameFromTriesEveryPlacement(s, start, stop, name);
    var j' :| start <= j' <= stop && NameTail(s, j', name) == r;
    NameEndIsUnique(s, start, stop, j', j0, name);
  }

  // ---------------------------------------------------------------------------
  // Markers found in a concatenation

  /** The marker the fragment directives print: `<!-- WORD: NAME -->`. */
  function Marker(word: string, name: string): string {
    "<!-- " + word + ": " + name + " -->"
  }

  /** A printed marker is matched where it stands, whatever precedes or follows it, and the
      match ends right after it. */
  lemma MarkerIsFound(s: string, p: nat, word: string, name: string)
    requires word != [] && !IsSpace(word[0])
    requires Placed(s, p, Marker(word, name))
    ensures MarkerAt(s, p, word, name) == Some(p + |Marker(word, name)|)
  {
    var c := 5 + |word|;
    MarkerShape(word, name, c, c + 2, c + 2 + |name|);
    PlacedMarkerIsFound(s, p, Marker(word, name), word, name, c, c + 2, c + 2 + |name|);
  }

  lemma PlacedMarkerIsFound(s: string, p: nat, m: string, word: string, name: string, c: nat, j: nat, t: nat)
    requires word != [] && !IsSpace(word[0])
    requires Placed(s, p, m)
    requires c == 5 + |word| && j == c + 2 && t == j + |name|
    requires && |m| == t + 4
             && LiteralAt(m, 0, "<!--") && m[4] == ' ' && LiteralAt(m, 5, word) && m[5] == word[0]
             && LiteralAt(m, c, ":") && m[c + 1] == ' ' && LiteralAt(m, j, name) && m[t] == ' '
             && LiteralAt(m, t + 1, "-->")
    ensures MarkerAt(s, p, word, name) == Some(p + |m|)
  {
    LiteralShift(s, p, m, 0, "<!--");
    LiteralShift(s, p, m, 5, word);
    LiteralShift(s, p, m, c, ":");
    LiteralShift(s, p, m, j, name);
    LiteralShift(s, p, m, t + 1, "-->");
    assert s[p + 4] == m[4] && s[p + 5] == m[5] && s[p + (c + 1)] == m[c + 1] && s[p + t] == m[t];
    MarkerMatches(s, p, word, name, p + c, p + j, p + t);
  }

  /** `m` stands in `s` at position `p`. */
  predicate Placed(s: string, p: nat, m: string) {
    p + |m| <= |s| && forall k :: 0 <= k < |m| ==> s[p + k] == m[k]
  }

  /** The middle part of a concatenation stands after the first. */
  lemma PartOfConcat(a: string, m: string, rest: string)
    ensures Placed(a + m + rest, |a|, m)
  {
  }

  /** A literal found in a part of a string is found in the whole, shifted by where the part
      sits. */
  lemma LiteralShift(s: string, p: nat, m: string, i: nat, lit: string)
    requires Placed(s, p, m)
    requires LiteralAt(m, i, lit)
    ensures LiteralAt(s, p + i, lit)
  {
    forall k | 0 <= k < |lit|
      ensures s[p + i + k] == lit[k]
    {
      LiteralChar(m, i, lit, k);
      assert s[p + (i + k)] == m[i + k];
    }
  }

  /** The pieces of a printed marker, at the positions of the colon (`c`), of the name (`j`)
      and of the space after the name (`t`). */
  lemma MarkerShape(word: string, name: string, c: nat, j: nat, t: nat)
    requires word != []
    requires c == 5 + |word| && j == c + 2 && t == j + |name|
    ensures var m := Marker(word, name);
      && |m| == t + 4
      && LiteralAt(m, 0, "<!--") && m[4] == ' ' && LiteralAt(m, 5, word) && m[5] == word[0]
      && LiteralAt(m, c, ":") && m[c + 1] == ' ' && LiteralAt(m, j, name) && m[t] == ' '
      && LiteralAt(m, t + 1, "-->")
  {
    var m := Marker(word, name);
    assert m == "<!-- " + word + ": " + name + " -->";
    forall k | 0 <= k < |word|
      ensures m[5 + k] == word[k]
    {
    }
    forall k | 0 <= k < |name|
      ensures m[j + k] == name[k]
    {
    }
  }

  /** The match of a marker laid out as the directives print it, stated on the characters:
      `c` is the position of the colon, `j` that of the name, `t` that of the space after it. */
  lemma MarkerMatches(s: string, p: nat, word: string, name: string, c: nat, j: nat, t: nat)
    requires word != [] && !IsSpace(word[0])
    requires c == p + 5 + |word| && j == c + 2 && t == j + |name| && t + 4 <= |s|
    requires LiteralAt(s, p, "<!--") && s[p + 4] == ' ' && LiteralAt(s, p + 5, word) && s[p + 5] == word[0]
    requires LiteralAt(s, c, ":") && s[c + 1] == ' ' && LiteralAt(s, j, name) && s[t] == ' '
    requires LiteralAt(s, t + 1, "-->")
    ensures MarkerAt(s, p, word, name) == Some(t + 4)
  {
    MarkerUpToColon(s, p, word, name, c);
    NameAfterColon(s, c + 1, j, t, name);
  }

  /** `<!-- WORD:` at `p`, with the colon at `c`: what remains is the search for the name. */
  lemma MarkerUpToColon(s: string, p: nat, word: string, name: string, c: nat)
    requires word != [] && !IsSpace(word[0])
    requires c == p + 5 + |word| && c + 1 <= |s|
    requires LiteralAt(s, p, "<!--") && s[p + 4] == ' ' && LiteralAt(s, p + 5, word) && s[p + 5] == word[0]
    requires LiteralAt(s, c, ":")
    ensures MarkerAt(s, p, word, name) == NameFrom(s, c + 1, SkipSpace(s, c + 1), name)
  {
    LiteralChar(s, c, ":", 0);
    SkipOne(s, p + 4);
    SkipNone(s, p + 5);
    var i1 := SkipSpace(s, p + 4);
    assert i1 == p + 5;
    assert i1 + |word| == c;
    SkipNone(s, c);
  }

  /** ` NAME -->` right after the colon: the space at `start`, the name at `j`, a space at `t`. */
  lemma NameAfterColon(s: string, start: nat, j: nat, t: nat, name: string)
    requires j == start + 1 && t == j + |name| && t + 4 <= |s|
    requires s[start] == ' ' && LiteralAt(s, j, name) && s[t] == ' ' && LiteralAt(s, t + 1, "-->")
    ensures NameFrom(s, start, SkipSpace(s, start), name) == Some(t + 4)
  {
    LiteralChar(s, t + 1, "-->", 0);
    SkipOne(s, t);
    SkipNone(s, t + 1);
    NameTailAt(s, j, name);
    SkipOne(s, start);
    NameFromFindsAnyPlacement(s, start, j, name);
  }

  lemma SkipOne(s: string, i: nat)
    requires i < |s| && IsSpace(s[i])
    ensures SkipSpace(s, i) == SkipSpace(s, i + 1)
  {
  }

  lemma SkipNone(s: string, i: nat)
    requires i < |s| && !IsSpace(s[i])
    ensures SkipSpace(s, i) == i
  {
  }

  lemma NameTailAt(s: string, j: nat, name: string)
    requires LiteralAt(s, j, name) && LiteralAt(s, SkipSpace(s, j + |name|), "-->")
    ensures NameTail(s, j, name) == Some(SkipSpace(s, j + |name|) + 3)
  {
  }

  /** No `<!--` begins inside a stretch free of it that is followed by a `<`: a `<` cannot
      stand in that literal after its first character. */
  lemma CommentFreeUpToTag(a: string, b: string, c: string, q: nat)
    requires CommentFree(b)
    requires c != [] && c[0] == '<'
    requires |a| <= q < |a| + |b|
    ensures !LiteralAt(a + b + c, q, "<!--")
  {
    var s := a + b + c;
    var i := q - |a|;
    if LiteralAt(s, q, "<!--") {
      if i + 4 <= |b| {
        forall k | 0 <= k < 4
          ensures b[i + k] == "<!--"[k]
        {
          LiteralChar(s, q, "<!--", k);
          assert s[q + k] == b[i + k];
        }
        assert LiteralAt(b, i, "<!--");
        assert false;
      } else {
        var k := |b| - i;
        assert s[q + k] == c[0] by {
          assert q + k == |a| + |b|;
        }
        LiteralChar(s, q, "<!--", k);
        assert false;
      }
    }
  }

  /** `x` holds no `<!--`. */
  predicate CommentFree(x: string) {
    forall i :: 0 <= i <= |x| ==> !LiteralAt(x, i, "<!--")
  }

  /** The first value from `p` on is at `q` when `q` holds one and nothing before it does. */
  lemma FirstSomeAt<T>(xs: seq<Option<T>>, p: nat, q: nat)
    requires p <= q < |xs| && xs[q].Some?
    requires forall i :: p <= i < q ==> xs[i].None?
    ensures FirstSome(xs, p) == Some(q)
  {
  }

  // ---------------------------------------------------------------------------
  // The fragment directives' output is found again

  /** A fragment printed by the directives, `<!-- fragment: NAME -->BODY<!-- endfragment: NAME -->`,
      standing in `s` with the opening marker at `o`, the body from `e` to `q` and the closing
      marker at `q`, is extracted with its body intact, provided no HTML comment opens before
      it or inside its body. */
  lemma PlacedFragmentIsFound(s: string, o: nat, e: nat, q: nat, name: string)
    requires e == o + |Marker("fragment", name)| <= q
    requires Placed(s, o, Marker("fragment", name)) && Placed(s, q, Marker("endfragment", name))
    requires forall i :: 0 <= i < o ==> !LiteralAt(s, i, "<!--")
    requires forall i :: e <= i < q ==> !LiteralAt(s, i, "<!--")
    ensures FindFragment(s, name) == Some(s[e..q])
  {
    OpenMarkerIsFound(s, o, e, name);
    CloseMarkerIsFound(s, q, name);
    NoMarkerWithoutComment(s, e, q, "endfragment", name);
    NoMarkerWithoutComment(s, 0, o, "fragment", name);
    FragmentAt(s, o, e, q, name);
  }

  lemma OpenMarkerIsFound(s: string, o: nat, e: nat, name: string)
    requires e == o + |Marker("fragment", name)|
    requires Placed(s, o, Marker("fragment", name))
    ensures e <= |s| && MarkerAt(s, o, "fragment", name) == Some(e)
  {
    MarkerIsFound(s, o, "fragment", name);
  }

  lemma CloseMarkerIsFound(s: string, q: nat, name: string)
    requires Placed(s, q, Marker("endfragment", name))
    ensures q <= |s| && MarkerAt(s, q, "endfragment", name).Some?
  {
    MarkerIsFound(s, q, "endfragment", name);
  }

  /** No marker starts where no `<!--` does. */
  lemma NoMarkerWithoutComment(s: string, lo: nat, hi: nat, word: string, name: string)
    requires lo <= hi <= |s|
    requires forall i :: lo <= i < hi ==> !LiteralAt(s, i, "<!--")
    ensures forall i :: lo <= i < hi ==> MarkerAt(s, i, word, name).None?
  {
  }

  /** The leftmost match starts at `o` when an opening marker ending at `e` stands there, the
      first closing marker after it starts at `q`, and no marker opens earlier. */
  lemma FragmentAt(s: string, o: nat, e: nat, q: nat, name: string)
    requires o <= e <= q <= |s|
    requires MarkerAt(s, o, "fragment", name) == Some(e)
    requires MarkerAt(s, q, "endfragment", name).Some?
    requires forall i :: e <= i < q ==> MarkerAt(s, i, "endfragment", name).None?
    requires forall p :: 0 <= p < o ==> MarkerAt(s, p, "fragment", name).None?
    ensures FindFragment(s, name) == Some(s[e..q])
  {
    SpanAt(s, o, e, q, name);
    NoOpenNoMatch(s, o, name);
    LeftmostAt(s, o, name);
  }

  lemma SpanAt(s: string, o: nat, e: nat, q: nat, name: string)
    requires o <= e <= q <= |s|
    requires OpenAt(s, o, name) == Some(e)
    requires CloseAt(s, q, name)
    requires forall i :: e <= i < q ==> MarkerAt(s, i, "endfragment", name).None?
    ensures MatchSpan(s, o, name) == Some((e, q))
  {
    FirstSomeAt(CloseAttempts(s, name), e, q);
  }

  lemma LeftmostAt(s: string, o: nat, name: string)
    requires o <= |s| && MatchSpan(s, o, name).Some?
    requires forall p :: 0 <= p < o ==> MatchSpan(s, p, name).None?
    ensures LeftmostMatch(s, name) == Some(o)
  {
    FirstSomeAt(Attempts(s, name), 0, o);
  }

  lemma NoOpenNoMatch(s: string, o: nat, name: string)
    requires o <= |s|
    requires forall p :: 0 <= p < o ==> MarkerAt(s, p, "fragment", name).None?
    ensures forall p :: 0 <= p < o ==> MatchSpan(s, p, name).None?
  {
  }

  // ---------------------------------------------------------------------------
  // The same, for the directives' output written as a concatenation

  /** The directives' output around `body`, inside a page `s` that has `pre` before it and
      `post` after it, is extracted with its body intact, provided no HTML comment opens in `pre` or
      in `body`. */
  lemma PrintedFragmentIsFound(s: string, pre: string, body: string, post: string, name: string)
    requires s == pre + Marker("fragment", name) + body + Marker("endfragment", name) + post
    requires CommentFree(pre) && CommentFree(body)
    ensures FindFragment(s, name) == Some(body)
  {
    var e: nat := |pre| + |Marker("fragment", name)|;
    var q: nat := e + |body|;
    PrintedLayout(s, pre, body, post, name, e, q);
    PlacedFragmentIsFound(s, |pre|, e, q, name);
    var r := FindFragment(s, name);
    assert r == Some(s[e..q]);
  }

  /** Where the pieces of such a page stand. */
  lemma PrintedLayout(s: string, pre: string, body: string, post: string, name: string, e: nat, q: nat)
    requires s == pre + Marker("fragment", name) + body + Marker("endfragment", name) + post
    requires CommentFree(pre) && CommentFree(body)
    requires e == |pre| + |Marker("fragment", name)| && q == e + |body|
    ensures Placed(s, |pre|, Marker("fragment", name)) && Placed(s, q, Marker("endfragment", name))
    ensures forall i :: 0 <= i < |pre| ==> !LiteralAt(s, i, "<!--")
    ensures forall i :: e <= i < q ==> !LiteralAt(s, i, "<!--")
    ensures q <= |s| && s[e..q] == body
  {
    PrintedOpen(pre, body, post, name);
    PrintedClose(pre, body, post, name);
    PrintedPrefix(pre, body, post, name);
    PrintedBody(pre, body, post, name);
  }

  lemma PrintedOpen(pre: string, body: string, post: string, name: string)
    ensures Placed(pre + Marker("fragment", name) + body + Marker("endfragment", name) + post,
                   |pre|, Marker("fragment", name))
  {
    var m := Marker("fragment", name);
    var rest := body + Marker("endfragment", name) + post;
    assert pre + m + body + Marker("endfragment", name) + post == pre + m + rest;
    PartOfConcat(pre, m, rest);
  }

  lemma PrintedClose(pre: string, body: string, post: string, name: string)
    ensures Placed(pre + Marker("fragment", name) + body + Marker("endfragment", name) + post,
                   |pre| + |Marker("fragment", name)| + |body|, Marker("endfragment", name))
  {
    PartOfConcat(pre + Marker("fragment", name) + body, Marker("endfragment", name), post);
  }

  lemma PrintedPrefix(pre: string, body: string, post: string, name: string)
    requires CommentFree(pre)
    ensures var s := pre + Marker("fragment", name) + body + Marker("endfragment", name) + post;
      forall i :: 0 <= i < |pre| ==> !LiteralAt(s, i, "<!--")
  {
    var rest := Marker("fragment", name) + body + Marker("endfragment", name) + post;
    var s := pre + Marker("fragment", name) + body + Marker("endfragment", name) + post;
    assert s == [] + pre + rest;
    assert rest[0] == '<';
    forall i | 0 <= i < |pre|
      ensures !LiteralAt(s, i, "<!--")
    {
      CommentFreeUpToTag([], pre, rest, i);
    }
  }

  lemma PrintedBody(pre: string, body: string, post: string, name: string)
    requires CommentFree(body)
    ensures var s := pre + Marker("fragment", name) + body + Marker("endfragment", name) + post;
      var e := |pre| + |Marker("fragment", name)|;
      && (forall i :: e <= i < e + |body| ==> !LiteralAt(s, i, "<!--"))
      && s[e..e + |body|] == body
  {
    var a := pre + Marker("fragment", name);
    var rest := Marker("endfragment", name) + post;
    var s := pre + Marker("fragment", name) + body + Marker("endfragment", name) + post;
    assert s == a + body + rest;
    assert rest[0] == '<';
    forall i | |a| <= i < |a| + |body|
      ensures !LiteralAt(s, i, "<!--")
    {
      CommentFreeUpToTag(a, body, rest, i);
    }
  }

  /** The same page, under exactly the conditions the pattern needs: no opening marker for the
      name starts in `pre`, and no closing marker for it starts inside `body`. */
  lemma PrintedFragmentIsFoundExactly(s: string, pre: string, body: string, post: string, name: string)
    requires s == pre + Marker("fragment", name) + body + Marker("endfragment", name) + post
    requires forall i :: 0 <= i < |pre| ==> MarkerAt(s, i, "fragment", name).None?
    requires forall i :: |pre| + |Marker("fragment", name)| <= i < |pre| + |Marker("fragment", name)| + |body| ==>
      MarkerAt(s, i, "endfragment", name).None?
    ensures FindFragment(s, name) == Some(body)
  {
    var o := |pre|;
    var e: nat := o + |Marker("fragment", name)|;
    var q: nat := e + |body|;
    PrintedSpans(s, pre, body, post, name, e, q);
    OpenMarkerIsFound(s, o, e, name);
    CloseMarkerIsFound(s, q, name);
    FragmentAt(s, o, e, q, name);
    var r := FindFragment(s, name);
    assert r == Some(s[e..q]);
  }

  lemma PrintedSpans(s: string, pre: string, body: string, post: string, name: string, e: nat, q: nat)
    requires s == pre + Marker("fragment", name) + body + Marker("endfragment", name) + post
    requires e == |pre| + |Marker("fragment", name)| && q == e + |body|
    ensures Placed(s, |pre|, Marker("fragment", name)) && Placed(s, q, Marker("endfragment", name))
    ensures q <= |s| && s[e..q] == body
  {
    PrintedOpen(pre, body, post, name);
    PrintedClose(pre, body, post, name);
    var a := pre + Marker("fragment", name);
    var rest := Marker("endfragment", name) + post;
    assert s == a + body + rest;
  }
}
