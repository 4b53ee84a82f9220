/** PHP string built-ins that the library relies on. Each character stands for one byte of a
    PHP string; only ASCII characters are ever inspected or changed. */
module PhpStrings {

  /** Vertical tab and form feed, written by code point. */
  const VerticalTab: char := 11 as char
  const FormFeed: char := 12 as char

  /** The characters PHP's trim() strips when it is given no character list. */
  const TrimDefaultChars: set<char> := {' ', '\t', '\n', '\r', '\0', VerticalTab}

  /** PCRE's \s class outside UTF mode. */
  predicate IsSpace(c: char) {
    c == ' ' || c == '\t' || c == '\n' || c == '\r' || c == VerticalTab || c == FormFeed
  }

  predicate IsDigit(c: char) {
    '0' <= c <= '9'
  }

  predicate AllDigits(s: string) {
    forall i :: 0 <= i < |s| ==> IsDigit(s[i])
  }

  // ---------------------------------------------------------------------------
  // trim / ltrim / rtrim with a character list

  /** ltrim($s, $chars): the longest prefix made of characters of `chars` is removed. */
  function TrimLeft(s: string, chars: set<char>): (r: string)
    ensures |r| <= |s| && r == s[|s| - |r|..]
    ensures forall i :: 0 <= i < |s| - |r| ==> s[i] in chars
    ensures r != [] ==> r[0] !in chars
    decreases |s|
  {
    if s != [] && s[0] in chars then TrimLeft(s[1..], chars) else s
  }

  /** rtrim($s, $chars): the longest suffix made of characters of `chars` is removed. */
  function TrimRight(s: string, chars: set<char>): (r: string)
    ensures |r| <= |s| && r == s[..|r|]
    ensures forall i :: |r| <= i < |s| ==> s[i] in chars
    ensures r != [] ==> r[|r| - 1] !in chars
    decreases |s|
  {
    if s != [] && s[|s| - 1] in chars then TrimRight(s[..|s| - 1], chars) else s
  }

  /** trim($s, $chars): both ends stripped. */
  function TrimChars(s: string, chars: set<char>): (r: string)
  {
    TrimRight(TrimLeft(s, chars), chars)
  }

  /** trim($s) with PHP's default character list. */
  function Trim(s: string): string
  {
    TrimChars(s, TrimDefaultChars)
  }

  /** The result of trim is a contiguous piece of the input whose surroundings are all
      strippable. */
  lemma TrimCharsSpec(s: string, chars: set<char>)
    ensures var r := TrimChars(s, chars); var i := |s| - |TrimLeft(s, chars)|;
      && 0 <= i <= |s| - |r| && r == s[i..i + |r|]
      && (forall j :: 0 <= j < i ==> s[j] in chars)
      && (forall j :: i + |r| <= j < |s| ==> s[j] in chars)
  {
    var l := TrimLeft(s, chars);
    PrefixOfSuffix(s, l, TrimRight(l, chars), |s| - |l|, chars);
  }

  /** A prefix `r` of the suffix `l` of `s` that starts at `i`, located in `s`: what follows
      it in `l` follows it in `s`. */
  lemma PrefixOfSuffix(s: string, l: string, r: string, i: nat, chars: set<char>)
    requires i <= |s| && l == s[i..] && |r| <= |l| && r == l[..|r|]
    requires forall j :: |r| <= j < |l| ==> l[j] in chars
    ensures r == s[i..i + |r|]
    ensures forall j :: i + |r| <= j < |s| ==> s[j] in chars
  {
    forall j | i + |r| <= j < |s| ensures s[j] in chars {
      assert s[j] == l[j - i];
    }
  }

  /** Neither end of a non-empty result of trim is strippable. */
  lemma TrimCharsEnds(s: string, chars: set<char>)
    ensures var r := TrimChars(s, chars);
      r != [] ==> r[0] !in chars && r[|r| - 1] !in chars
  {
    var l := TrimLeft(s, chars);
    var r := TrimRight(l, chars);
    if r != [] {
      assert r[0] == l[0];
    }
  }

  /** Trimming twice is trimming once. */
  lemma TrimCharsIdempotent(s: string, chars: set<char>)
    ensures TrimChars(TrimChars(s, chars), chars) == TrimChars(s, chars)
  {
    var l := TrimLeft(s, chars);
    var r := TrimRight(l, chars);
    if r != [] {
      assert r[0] == l[0];
      assert TrimLeft(r, chars) == r;
      assert TrimRight(r, chars) == r;
    }
  }

  /** A string whose ends are not in the list is left as it is. */
  lemma TrimCharsNoop(s: string, chars: set<char>)
    requires s != [] ==> s[0] !in chars && s[|s| - 1] !in chars
    ensures TrimChars(s, chars) == s
  {
  }

  /** Characters of the list in front of a string vanish under ltrim. */
  lemma {:induction false} TrimLeftPrefix(p: string, x: string, chars: set<char>)
    requires forall i :: 0 <= i < |p| ==> p[i] in chars
    ensures TrimLeft(p + x, chars) == TrimLeft(x, chars)
    decreases |p|
  {
    if p != [] {
      assert (p + x)[0] == p[0] && (p + x)[1..] == p[1..] + x;
      assert TrimLeft(p + x, chars) == TrimLeft(p[1..] + x, chars);
      TrimLeftPrefix(p[1..], x, chars);
    } else {
      assert p + x == x;
    }
  }

  /** Characters of the list behind a string vanish under rtrim. */
  lemma {:induction false} TrimRightSuffix(x: string, q: string, chars: set<char>)
    requires forall i :: 0 <= i < |q| ==> q[i] in chars
    ensures TrimRight(x + q, chars) == TrimRight(x, chars)
    decreases |q|
  {
    if q != [] {
      assert (x + q)[|x + q| - 1] == q[|q| - 1] && (x + q)[..|x + q| - 1] == x + q[..|q| - 1];
      assert TrimRight(x + q, chars) == TrimRight(x + q[..|q| - 1], chars);
      TrimRightSuffix(x, q[..|q| - 1], chars);
    } else {
      assert x + q == x;
    }
  }

  /** trim recovers a word from any padding made of listed characters, as long as the word
      itself neither starts nor ends with one. */
  lemma TrimCharsPadded(p: string, w: string, q: string, chars: set<char>)
    requires forall i :: 0 <= i < |p| ==> p[i] in chars
    requires forall i :: 0 <= i < |q| ==> q[i] in chars
    requires w != [] && w[0] !in chars && w[|w| - 1] !in chars
    ensures TrimChars(p + w + q, chars) == w
  {
    assert p + w + q == p + (w + q);
    TrimLeftPrefix(p, w + q, chars);
    assert (w + q)[0] == w[0];
    TrimRightSuffix(w, q, chars);
  }

  // ---------------------------------------------------------------------------
  // strtoupper: ASCII letters only. PHP 8.2 and later always do this; PHP 8.0 and 8.1 follow
  // LC_CTYPE, which does this in the default C locale.

  function UpperChar(c: char): char {
    if 'a' <= c <= 'z' then (c as int - 32) as char else c
  }

  function ToUpper(s: string): (r: string)
    ensures |r| == |s|
    ensures forall i :: 0 <= i < |s| ==> !('a' <= r[i] <= 'z')
    ensures forall i :: 0 <= i < |s| && !('a' <= s[i] <= 'z') ==> r[i] == s[i]
  {
    seq(|s|, i requires 0 <= i < |s| => UpperChar(s[i]))
  }

  // ---------------------------------------------------------------------------
  // explode / implode with a one-character delimiter

  /** explode($sep, $s) for a one-character separator: the pieces between separators. */
  function Explode(sep: char, s: string): (parts: seq<string>)
    ensures |parts| >= 1
    decreases |s|
  {
    if s == [] then [""]
    else
      var rest := Explode(sep, s[1..]);
      if s[0] == sep then [""] + rest else [[s[0]] + rest[0]] + rest[1..]
  }

  /** implode($sep, $parts). */
  function Implode(sep: char, parts: seq<string>): string
    requires |parts| >= 1
    decreases |parts|
  {
    if |parts| == 1 then parts[0] else parts[0] + [sep] + Implode(sep, parts[1..])
  }

  lemma {:induction false} ExplodePartsHaveNoSeparator(sep: char, s: string)
    ensures forall k, j :: 0 <= k < |Explode(sep, s)| && 0 <= j < |Explode(sep, s)[k]| ==> Explode(sep, s)[k][j] != sep
    decreases |s|
  {
    if s != [] {
      ExplodePartsHaveNoSeparator(sep, s[1..]);
    }
  }

  /** Joining the pieces with the separator gives back the string. */
  lemma {:induction false} ImplodeExplode(sep: char, s: string)
    ensures Implode(sep, Explode(sep, s)) == s
    decreases |s|
  {
    if s != [] {
      var rest := Explode(sep, s[1..]);
      ImplodeExplode(sep, s[1..]);
      ExplodeCons(sep, s[0], s[1..]);
      assert [s[0]] + s[1..] == s;
      if s[0] == sep {
        ImplodeEmptyFirst(sep, rest);
      } else {
        ImplodeLongerFirst(sep, s[0], rest);
      }
    }
  }

  /** One step of explode on a string that starts with `c`. */
  lemma ExplodeCons(sep: char, c: char, t: string)
    ensures var rest := Explode(sep, t);
      Explode(sep, [c] + t) == if c == sep then [""] + rest else [[c] + rest[0]] + rest[1..]
  {
    assert ([c] + t)[1..] == t;
  }

  /** An empty first piece contributes only the separator. */
  lemma ImplodeEmptyFirst(sep: char, rest: seq<string>)
    requires |rest| >= 1
    ensures Implode(sep, [""] + rest) == [sep] + Implode(sep, rest)
  {
    assert ([""] + rest)[1..] == rest;
  }

  /** A character in front of the first piece comes out in front of the join. */
  lemma ImplodeLongerFirst(sep: char, c: char, rest: seq<string>)
    requires |rest| >= 1
    ensures Implode(sep, [[c] + rest[0]] + rest[1..]) == [c] + Implode(sep, rest)
  {
    var parts := [[c] + rest[0]] + rest[1..];
    if |rest| > 1 {
      assert parts[1..] == rest[1..];
    }
  }

  /** Splitting a join of separator-free pieces gives back the pieces. */
  lemma {:induction false} ExplodeImplode(sep: char, parts: seq<string>)
    requires |parts| >= 1
    requires forall k, j :: 0 <= k < |parts| && 0 <= j < |parts[k]| ==> parts[k][j] != sep
    ensures Explode(sep, Implode(sep, parts)) == parts
    decreases |parts|, |parts[0]|
  {
    if |parts| == 1 {
      ExplodeNoSeparator(sep, parts[0]);
    } else if parts[0] == [] {
      var rest := parts[1..];
      ExplodeImplode(sep, rest);
      assert parts == [""] + rest;
      ImplodeEmptyFirst(sep, rest);
      ExplodeCons(sep, sep, Implode(sep, rest));
    } else {
      var p0 := parts[0];
      var shorter := [p0[1..]] + parts[1..];
      forall k, j | 0 <= k < |shorter| && 0 <= j < |shorter[k]| ensures shorter[k][j] != sep {
        if k == 0 {
          assert shorter[k][j] == parts[0][j + 1];
        } else {
          assert shorter[k] == parts[k];
        }
      }
      ExplodeImplode(sep, shorter);
      assert shorter[0] == p0[1..] && shorter[1..] == parts[1..];
      assert [p0[0]] + p0[1..] == p0;
      assert parts == [[p0[0]] + shorter[0]] + shorter[1..];
      ImplodeLongerFirst(sep, p0[0], shorter);
      ExplodeCons(sep, p0[0], Implode(sep, shorter));
    }
  }

  lemma {:induction false} ExplodeNoSeparator(sep: char, s: string)
    requires forall j :: 0 <= j < |s| ==> s[j] != sep
    ensures Explode(sep, s) == [s]
    decreases |s|
  {
    if s != [] {
      ExplodeNoSeparator(sep, s[1..]);
      assert [s[0]] + s[1..] == s;
    }
  }

  // ---------------------------------------------------------------------------
  // Decimal integers: PHP's int-to-string conversion and its canonical numeric strings

  /** PHP_INT_MIN and PHP_INT_MAX on a 64-bit build. */
  const IntMin: int := -0x8000_0000_0000_0000
  const IntMax: int := 0x7FFF_FFFF_FFFF_FFFF

  function DigitChar(d: nat): (c: char)
    requires d < 10
    ensures IsDigit(c)
  {
    ('0' as int + d) as char
  }

  function DigitValue(c: char): (d: nat)
    requires IsDigit(c)
    ensures d < 10 && DigitChar(d) == c
  {
    c as int - '0' as int
  }

  /** The value of a string of decimal digits. */
  function DigitsValue(s: string): nat
    requires AllDigits(s)
  {
    if s == [] then 0 else DigitsValue(s[..|s| - 1]) * 10 + DigitValue(s[|s| - 1])
  }

  /** Digits with no superfluous leading zero: "0", or a string starting with 1-9. */
  predicate IsCanonicalDigits(s: string) {
    |s| >= 1 && AllDigits(s) && (s[0] == '0' ==> |s| == 1)
  }

  /** The decimal representation of a natural number. */
  function NatToString(n: nat): (r: string)
    ensures IsCanonicalDigits(r)
    ensures DigitsValue(r) == n
  {
    if n < 10 then [DigitChar(n)]
    else
      var r := NatToString(n / 10) + [DigitChar(n % 10)];
      assert r[..|r| - 1] == NatToString(n / 10);
      r
  }

  /** PHP's (string) conversion of an int. */
  function IntToString(i: int): string {
    if i < 0 then "-" + NatToString(-i) else NatToString(i)
  }

  /** A canonical digit string is the printed form of its value. */
  lemma {:induction false} CanonicalDigitsArePrinted(s: string)
    requires IsCanonicalDigits(s)
    ensures NatToString(DigitsValue(s)) == s
    decreases |s|
  {
    if |s| > 1 {
      var init := s[..|s| - 1];
      assert IsCanonicalDigits(init);
      CanonicalDigitsArePrinted(init);
      var n := DigitsValue(s);
      assert n / 10 == DigitsValue(init);
      assert n % 10 == DigitValue(s[|s| - 1]);
      assert n >= 10 by {
        assert init[0] != '0';
        LeadingDigitBound(init);
      }
      assert s == init + [s[|s| - 1]];
    } else {
      assert s == [DigitChar(DigitValue(s[0]))];
    }
  }

  lemma {:induction false} LeadingDigitBound(s: string)
    requires IsCanonicalDigits(s) && s[0] != '0'
    ensures DigitsValue(s) >= 1
    decreases |s|
  {
    if |s| > 1 {
      LeadingDigitBound(s[..|s| - 1]);
    }
  }

  /** A string PHP stores as an integer array key: optional '-', canonical digits, no "-0",
      and the value within PHP_INT_MIN..PHP_INT_MAX. */
  predicate IsIntegerKeyString(s: string) {
    if |s| > 0 && s[0] == '-' then
      IsCanonicalDigits(s[1..]) && s[1..] != "0" && DigitsValue(s[1..]) <= -IntMin
    else
      IsCanonicalDigits(s) && DigitsValue(s) <= IntMax
  }

  function IntegerKeyValue(s: string): (i: int)
    requires IsIntegerKeyString(s)
    ensures IntMin <= i <= IntMax
  {
    if s[0] == '-' then 0 - (DigitsValue(s[1..]) as int) else DigitsValue(s) as int
  }

  /** Every 64-bit integer prints as an integer key string that reads back as itself. */
  lemma IntToStringIsIntegerKey(i: int)
    requires IntMin <= i <= IntMax
    ensures IsIntegerKeyString(IntToString(i))
    ensures IntegerKeyValue(IntToString(i)) == i
  {
    var s := IntToString(i);
    if i < 0 {
      assert s[1..] == NatToString(-i);
    }
  }

  /** Every integer key string is the printed form of its value. */
  lemma IntegerKeyIsPrinted(s: string)
    requires IsIntegerKeyString(s)
    ensures IntToString(IntegerKeyValue(s)) == s
  {
    if s[0] == '-' {
      var t := s[1..];
      CanonicalDigitsArePrinted(t);
      assert t[0] != '0';
      LeadingDigitBound(t);
      var n := DigitsValue(t);
      assert IntegerKeyValue(s) == -(n as int);
      assert IntToString(-(n as int)) == "-" + NatToString(n);
      assert s == "-" + t;
    } else {
      CanonicalDigitsArePrinted(s);
    }
  }

  // ---------------------------------------------------------------------------
  // dirname() for '/'-separated paths

  function DropTrailing(s: string, c: char): (r: string)
    ensures |r| <= |s| && r == s[..|r|] && (r != [] ==> r[|r| - 1] != c)
    ensures forall i :: |r| <= i < |s| ==> s[i] == c
    decreases |s|
  {
    if s != [] && s[|s| - 1] == c then DropTrailing(s[..|s| - 1], c) else s
  }

  function DropTrailingNon(s: string, c: char): (r: string)
    ensures |r| <= |s| && r == s[..|r|] && (r != [] ==> r[|r| - 1] == c)
    ensures forall i :: |r| <= i < |s| ==> s[i] != c
    decreases |s|
  {
    if s != [] && s[|s| - 1] != c then DropTrailingNon(s[..|s| - 1], c) else s
  }

  /** dirname($path): trailing slashes, then the last component, then the slashes before it are
      removed; "" stays "", a path of slashes gives "/", a path without a slash gives ".". */
  function Dirname(path: string): (r: string)
    ensures path != [] ==> r != []
  {
    if path == [] then ""
    else
      var a := DropTrailing(path, '/');
      if a == [] then "/"
      else
        var b := DropTrailingNon(a, '/');
        if b == [] then "."
        else
          var c := DropTrailing(b, '/');
          if c == [] then "/" else c
  }

  /** The root and the current directory are their own parents, so a walk upwards stops there. */
  lemma DirnameFixedPoints()
    ensures Dirname("/") == "/" && Dirname(".") == "." && Dirname("") == ""
  {
    assert DropTrailing("/", '/') == "";
    assert DropTrailingNon(".", '/') == "";
  }

  /** A parent that differs from its path is a proper prefix of it. */
  lemma DirnameShortens(path: string)
    requires Dirname(path) != path
    requires path != [] && path[0] == '/'
    ensures |Dirname(path)| < |path| && Dirname(path) == path[..|Dirname(path)|]
  {
    var a := DropTrailing(path, '/');
    if a != [] {
      var b := DropTrailingNon(a, '/');
      assert b != [] by {
        assert a[0] == '/';
      }
      var c := DropTrailing(b, '/');
      assert |c| < |b|;
      assert c == path[..|c|];
    }
  }

  // ---------------------------------------------------------------------------
  // bin2hex

  newtype byte = x: int | 0 <= x < 256

  /** A lower-case hexadecimal digit. */
  predicate IsHexDigit(c: char) {
    '0' <= c <= '9' || 'a' <= c <= 'f'
  }

  /** The lower-case hexadecimal digit for a nibble. */
  function HexDigit(d: nat): (c: char)
    requires d < 16
    ensures IsHexDigit(c)
  {
    if d < 10 then ('0' as int + d) as char else ('a' as int + d - 10) as char
  }

  /** bin2hex($bytes): two lower-case hexadecimal digits per byte, high nibble first. */
  function Bin2Hex(bytes: seq<byte>): (r: string)
    ensures |r| == 2 * |bytes|
    ensures forall i :: 0 <= i < |r| ==> IsHexDigit(r[i])
  {
    if bytes == [] then ""
    else
      var b := bytes[0] as int;
      [HexDigit(b / 16), HexDigit(b % 16)] + Bin2Hex(bytes[1..])
  }

  function HexValue(c: char): (d: nat)
    requires IsHexDigit(c)
    ensures d < 16 && HexDigit(d) == c
  {
    if '0' <= c <= '9' then c as int - '0' as int else c as int - 'a' as int + 10
  }

  /** hex2bin for strings made of lower-case hexadecimal digits. */
  function Hex2Bin(s: string): seq<byte>
    requires |s| % 2 == 0
    requires forall i :: 0 <= i < |s| ==> IsHexDigit(s[i])
  {
    if s == [] then [] else [(HexValue(s[0]) * 16 + HexValue(s[1])) as byte] + Hex2Bin(s[2..])
  }

  /** The two digits of a byte give the byte back. */
  lemma HexPair(b: byte)
    ensures HexValue(HexDigit(b as int / 16)) * 16 + HexValue(HexDigit(b as int % 16)) == b as int
  {
  }

  /** bin2hex loses nothing: hex2bin gives the bytes back. */
  lemma {:induction false} Hex2BinBin2Hex(bytes: seq<byte>)
    ensures Hex2Bin(Bin2Hex(bytes)) == bytes
  {
    if bytes != [] {
      var b := bytes[0] as int;
      var h := Bin2Hex(bytes);
      assert h == [HexDigit(b / 16), HexDigit(b % 16)] + Bin2Hex(bytes[1..]);
      assert h[2..] == Bin2Hex(bytes[1..]);
      HexPair(bytes[0]);
      Hex2BinBin2Hex(bytes[1..]);
    }
  }
}
