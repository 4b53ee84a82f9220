/** PHP values as this library handles them, PHP's ordered arrays, and the array built-ins
    the library calls (array_replace_recursive, array_merge, isset, empty). */
module PhpValues {
  import opened PhpStrings

  /** An array key: PHP turns every decimal-integer string key into an integer key. */
  datatype Key = IntKey(n: int) | StrKey(s: string)

  /** A PHP value. Floats are not modelled; objects appear only as the three kinds the library
      itself stores in arrays: a closure from the configuration, an ErrorBag (represented by the
      array it was constructed from) and a caught exception (by its message). */
  datatype Value =
    | Null
    | Bool(b: bool)
    | Int(n: int)
    | Str(s: string)
    | Arr(entries: seq<Entry>)
    | Closure(id: string)
    | ErrorBagObject(errors: seq<Entry>)
    | ExceptionObject(message: string)

  /** One key/value pair of an ordered PHP array; an array is the sequence of its pairs in
      insertion order. */
  datatype Entry = Entry(key: Key, val: Value)

  /** The exceptions the library throws or lets through. */
  datatype Error =
    | RuntimeException(message: string)
    | InvalidArgumentException(message: string)
    | TypeError(message: string)
    | EngineFailure(message: string)

  datatype Option<T> = None | Some(value: T)

  datatype Result<T> = Ok(value: T) | Err(error: Error) {
    predicate IsFailure() {
      Err?
    }

    function PropagateFailure<U>(): Result<U>
      requires Err?
    {
      Err(error)
    }

    function Extract(): T
      requires Ok?
    {
      value
    }
  }

  // ---------------------------------------------------------------------------
  // Keys

  /** The key PHP uses for a string offset: "12" and "-3" become integer keys, "012", "-0"
      and out-of-range numbers stay strings. */
  function NormalizeKey(s: string): (k: Key)
    ensures k.IntKey? <==> IsIntegerKeyString(s)
    ensures k.IntKey? ==> IntToString(k.n) == s && IntMin <= k.n <= IntMax
    ensures k.StrKey? ==> k.s == s
  {
    if IsIntegerKeyString(s) then
      IntegerKeyIsPrinted(s);
      IntKey(IntegerKeyValue(s))
    else StrKey(s)
  }

  /** A key as PHP would print it (a foreach over an array gives integer keys as ints, which
      become strings where a string is expected). */
  function KeyName(k: Key): string {
    match k
    case IntKey(n) => IntToString(n)
    case StrKey(s) => s
  }

  /** A key PHP can actually hold: integer keys are 64-bit, string keys are not decimal integers. */
  predicate IsCanonicalKey(k: Key) {
    match k
    case IntKey(n) => IntMin <= n <= IntMax
    case StrKey(s) => !IsIntegerKeyString(s)
  }

  /** Printing a key and reading it back as an offset gives the same key. */
  lemma NormalizeKeyName(k: Key)
    requires IsCanonicalKey(k)
    ensures NormalizeKey(KeyName(k)) == k
  {
    if k.IntKey? {
      IntToStringIsIntegerKey(k.n);
    }
  }

  // ---------------------------------------------------------------------------
  // Arrays as ordered sequences of entries

  predicate DistinctKeys(a: seq<Entry>) {
    forall i, j :: 0 <= i < j < |a| ==> a[i].key != a[j].key
  }

  /** The position of key `k` in `a`, if any (the first one). */
  function IndexOf(a: seq<Entry>, k: Key): (r: Option<nat>)
    ensures r.Some? ==> r.value < |a| && a[r.value].key == k
    ensures r.Some? ==> forall j :: 0 <= j < r.value ==> a[j].key != k
    ensures r.None? ==> forall j :: 0 <= j < |a| ==> a[j].key != k
  {
    if a == [] then None
    else if a[0].key == k then Some(0)
    else match IndexOf(a[1..], k)
      case None => None
      case Some(i) => Some(i + 1)
  }

  predicate HasKey(a: seq<Entry>, k: Key) {
    IndexOf(a, k).Some?
  }

  /** `$a[$k]` when the key exists (array_key_exists). */
  function Lookup(a: seq<Entry>, k: Key): Option<Value> {
    match IndexOf(a, k)
    case None => None
    case Some(i) => Some(a[i].val)
  }

  /** In an array with distinct keys, the value under `k` is the one stored next to `k`. */
  lemma LookupAt(a: seq<Entry>, i: nat)
    requires DistinctKeys(a) && i < |a|
    ensures Lookup(a, a[i].key) == Some(a[i].val)
  {
  }

  /** `$a[$k] = $v`: an existing key keeps its position, a new key goes to the end. */
  function Put(a: seq<Entry>, k: Key, v: Value): (r: seq<Entry>)
    ensures |r| == if HasKey(a, k) then |a| else |a| + 1
    ensures forall i :: 0 <= i < |a| ==> r[i].key == a[i].key
    ensures HasKey(a, k) ==> forall i :: 0 <= i < |a| && a[i].key != k ==> r[i] == a[i]
    ensures !HasKey(a, k) ==> r == a + [Entry(k, v)]
  {
    match IndexOf(a, k)
    case Some(i) => a[i := Entry(k, v)]
    case None => a + [Entry(k, v)]
  }

  /** Reading back after `$a[$k] = $v`. */
  lemma {:induction false} PutLookup(a: seq<Entry>, k: Key, v: Value, k': Key)
    ensures Lookup(Put(a, k, v), k') == if k' == k then Some(v) else Lookup(a, k')
  {
    var r := Put(a, k, v);
    match IndexOf(a, k)
    case Some(i) =>
      if k' == k {
        assert IndexOf(r, k) == Some(i) by { IndexOfSame(a, r, k, i); }
      } else {
        IndexOfOther(a, r, k');
      }
    case None =>
      if k' == k {
        IndexOfAppended(a, k, v);
      } else {
        IndexOfOther(a, r, k');
      }
  }

  lemma {:induction false} IndexOfSame(a: seq<Entry>, r: seq<Entry>, k: Key, i: nat)
    requires IndexOf(a, k) == Some(i) && |r| == |a|
    requires forall j :: 0 <= j < |a| ==> r[j].key == a[j].key
    ensures IndexOf(r, k) == Some(i)
    decreases |a|
  {
    if a[0].key != k {
      assert a[1..][i - 1] == a[i];
      IndexOfSame(a[1..], r[1..], k, i - 1);
    }
  }

  /** Keys other than `k` are found where they were, and with the same value. */
  lemma {:induction false} IndexOfOther(a: seq<Entry>, r: seq<Entry>, k': Key)
    requires |a| <= |r|
    requires forall j :: 0 <= j < |a| ==> r[j].key == a[j].key
    requires forall j :: 0 <= j < |a| && a[j].key == k' ==> r[j] == a[j]
    requires forall j :: |a| <= j < |r| ==> r[j].key != k'
    ensures Lookup(r, k') == Lookup(a, k')
    decreases |a|
  {
    if a == [] {
      assert IndexOf(r, k') == None by {
        IndexOfAbsent(r, k');
      }
    } else if a[0].key != k' {
      IndexOfOther(a[1..], r[1..], k');
    }
  }

  lemma {:induction false} IndexOfAbsent(a: seq<Entry>, k: Key)
    requires forall j :: 0 <= j < |a| ==> a[j].key != k
    ensures IndexOf(a, k) == None
  {
  }

  lemma {:induction false} IndexOfAppended(a: seq<Entry>, k: Key, v: Value)
    requires IndexOf(a, k) == None
    ensures Lookup(a + [Entry(k, v)], k) == Some(v)
    decreases |a|
  {
    if a != [] {
      assert (a + [Entry(k, v)])[1..] == a[1..] + [Entry(k, v)];
      IndexOfAppended(a[1..], k, v);
    }
  }

  /** Assignment keeps the keys distinct. */
  lemma PutDistinct(a: seq<Entry>, k: Key, v: Value)
    requires DistinctKeys(a)
    ensures DistinctKeys(Put(a, k, v))
  {
  }

  /** isset($a[$k]): the key exists and its value is not null. */
  predicate Isset(a: seq<Entry>, k: Key) {
    Lookup(a, k).Some? && Lookup(a, k).value != Null
  }

  /** `$a[$k]` read as a value: null (with a warning) when the key is missing. */
  function Get(a: seq<Entry>, k: Key): Value {
    match Lookup(a, k)
    case None => Null
    case Some(v) => v
  }

  /** `$v[$k]` on any value: reading an offset of null, a bool or an int gives null. String
      offsets are not modelled and also read as null. */
  function At(v: Value, k: Key): Value {
    if v.Arr? then Get(v.entries, k) else Null
  }

  /** PHP's empty(): null, false, 0, "", "0" and [] are empty; objects never are. */
  predicate IsEmpty(v: Value) {
    match v
    case Null => true
    case Bool(b) => !b
    case Int(n) => n == 0
    case Str(s) => s == "" || s == "0"
    case Arr(es) => es == []
    case _ => false
  }

  /** The value passed for a `string` parameter in PHP's coercive mode: null becomes "" (deprecated
      but accepted), scalars are printed, arrays and objects are a TypeError (None). An exception
      object would be converted to its __toString() text, which depends on where it was thrown;
      the model does not carry that text and treats it as a non-string. */
  function StringArgument(v: Value): (r: Option<string>)
    ensures v.Str? ==> r == Some(v.s)
    ensures v.Arr? || v.Closure? || v.ErrorBagObject? || v.ExceptionObject? ==> r.None?
  {
    match v
    case Null => Some("")
    case Bool(b) => Some(if b then "1" else "")
    case Int(n) => Some(IntToString(n))
    case Str(s) => Some(s)
    case _ => None
  }

  // ---------------------------------------------------------------------------
  // array_replace_recursive

  /** A size that nested arrays strictly decrease, used as the termination measure. */
  function ValueSize(v: Value): nat {
    match v
    case Arr(es) => 1 + EntriesSize(es)
    case _ => 1
  }

  function EntrySize(e: Entry): nat {
    1 + ValueSize(e.val)
  }

  function EntriesSize(es: seq<Entry>): nat {
    if es == [] then 0 else EntrySize(es[0]) + EntriesSize(es[1..])
  }

  /** array_replace_recursive($dest, $src): every entry of `src`, in order, is written into
      `dest`; only when both the new and the existing value are arrays are they merged
      recursively. */
  function ReplaceRecursive(dest: seq<Entry>, src: seq<Entry>): seq<Entry>
    decreases EntriesSize(src)
  {
    if src == [] then dest
    else
      var e := src[0];
      assert EntrySize(e) == 1 + ValueSize(e.val);
      ReplaceRecursive(Put(dest, e.key, ReplacedValue(Lookup(dest, e.key), e.val)), src[1..])
  }

  /** The value stored under a key that `src` provides, given what `dest` had there. */
  function ReplacedValue(prior: Option<Value>, v: Value): Value
    decreases ValueSize(v)
  {
    if v.Arr? && prior.Some? && prior.value.Arr? then
      Arr(ReplaceRecursive(prior.value.entries, v.entries))
    else v
  }

  /** array_replace_recursive with several replacement arrays, applied left to right. */
  function ReplaceRecursiveAll(dest: seq<Entry>, srcs: seq<seq<Entry>>): seq<Entry>
    decreases |srcs|
  {
    if srcs == [] then dest else ReplaceRecursiveAll(ReplaceRecursive(dest, srcs[0]), srcs[1..])
  }

  /** What a key holds after the merge: the source's value (merged with the destination's when
      both are arrays) if the source has the key, the destination's otherwise. */
  lemma {:induction false} ReplaceRecursiveLookup(dest: seq<Entry>, src: seq<Entry>, k: Key)
    requires DistinctKeys(src)
    ensures Lookup(ReplaceRecursive(dest, src), k) ==
      match Lookup(src, k)
      case None => Lookup(dest, k)
      case Some(v) => Some(ReplacedValue(Lookup(dest, k), v))
    decreases |src|
  {
    if src != [] {
      var e := src[0];
      var next := Put(dest, e.key, ReplacedValue(Lookup(dest, e.key), e.val));
      assert DistinctKeys(src[1..]);
      ReplaceRecursiveLookup(next, src[1..], k);
      PutLookup(dest, e.key, ReplacedValue(Lookup(dest, e.key), e.val), k);
      if k == e.key {
        assert Lookup(src[1..], k) == None by {
          IndexOfAbsent(src[1..], k);
        }
      }
    }
  }

  /** Keys already in the destination keep their positions; new keys come after them. */
  lemma {:induction false} ReplaceRecursiveKeepsOrder(dest: seq<Entry>, src: seq<Entry>)
    ensures |ReplaceRecursive(dest, src)| >= |dest|
    ensures forall i :: 0 <= i < |dest| ==> ReplaceRecursive(dest, src)[i].key == dest[i].key
    decreases |src|
  {
    if src != [] {
      var e := src[0];
      var next := Put(dest, e.key, ReplacedValue(Lookup(dest, e.key), e.val));
      ReplaceRecursiveKeepsOrder(next, src[1..]);
    }
  }

  /** The merge keeps the keys of the destination distinct. */
  lemma {:induction false} ReplaceRecursiveDistinct(dest: seq<Entry>, src: seq<Entry>)
    requires DistinctKeys(dest)
    ensures DistinctKeys(ReplaceRecursive(dest, src))
    decreases |src|
  {
    if src != [] {
      var e := src[0];
      var next := Put(dest, e.key, ReplacedValue(Lookup(dest, e.key), e.val));
      PutDistinct(dest, e.key, ReplacedValue(Lookup(dest, e.key), e.val));
      ReplaceRecursiveDistinct(next, src[1..]);
    }
  }

  /** Replacing with an empty array changes nothing. */
  lemma ReplaceRecursiveEmpty(dest: seq<Entry>)
    ensures ReplaceRecursive(dest, []) == dest
  {
  }

  // ---------------------------------------------------------------------------
  // array_merge

  function IntKeyCount(a: seq<Entry>): nat {
    if a == [] then 0 else (if a[0].key.IntKey? then 1 else 0) + IntKeyCount(a[1..])
  }

  /** The values stored under integer keys, in order. */
  function IntKeyedValues(a: seq<Entry>): seq<Value> {
    if a == [] then [] else (if a[0].key.IntKey? then [a[0].val] else []) + IntKeyedValues(a[1..])
  }

  /** Appending the entries of `src` as array_merge does: string keys are assigned (a later one
      overwrites), integer keys are renumbered and appended. */
  function MergeInto(acc: seq<Entry>, src: seq<Entry>): seq<Entry>
    decreases |src|
  {
    if src == [] then acc
    else
      var e := src[0];
      var next := if e.key.IntKey? then acc + [Entry(IntKey(IntKeyCount(acc)), e.val)]
                  else Put(acc, e.key, e.val);
      MergeInto(next, src[1..])
  }

  /** array_merge($a, $b). */
  function ArrayMerge(a: seq<Entry>, b: seq<Entry>): seq<Entry> {
    MergeInto(MergeInto([], a), b)
  }

  /** A string key of the merge holds the second array's value if it has the key, else the first's. */
  lemma ArrayMergeStringKey(a: seq<Entry>, b: seq<Entry>, k: Key)
    requires k.StrKey? && DistinctKeys(a) && DistinctKeys(b)
    ensures Lookup(ArrayMerge(a, b), k) == if HasKey(b, k) then Lookup(b, k) else Lookup(a, k)
  {
    MergeIntoStringKey([], a, k);
    MergeIntoStringKey(MergeInto([], a), b, k);
  }

  lemma {:induction false} MergeIntoStringKey(acc: seq<Entry>, src: seq<Entry>, k: Key)
    requires k.StrKey? && DistinctKeys(src)
    ensures Lookup(MergeInto(acc, src), k) == if HasKey(src, k) then Lookup(src, k) else Lookup(acc, k)
    decreases |src|
  {
    if src != [] {
      var e := src[0];
      var next := if e.key.IntKey? then acc + [Entry(IntKey(IntKeyCount(acc)), e.val)]
                  else Put(acc, e.key, e.val);
      MergeIntoStringKey(next, src[1..], k);
      if e.key.IntKey? {
        IndexOfOther(acc, next, k);
      } else {
        PutLookup(acc, e.key, e.val, k);
        if e.key == k {
          IndexOfAbsent(src[1..], k);
        }
      }
    }
  }

  /** The integer-keyed values of the merge are those of the first array followed by those of
      the second, renumbered from 0. */
  lemma ArrayMergeIntKeys(a: seq<Entry>, b: seq<Entry>)
    ensures IntKeyedValues(ArrayMerge(a, b)) == IntKeyedValues(a) + IntKeyedValues(b)
    ensures IntKeysAreCounted(ArrayMerge(a, b))
  {
    var m := MergeInto([], a);
    EmptyIntKeysAreCounted();
    MergeIntoIntKeys([], a);
    MergeIntoIntKeys(m, b);
    assert IntKeyedValues(m) == IntKeyedValues(a) by {
      assert IntKeyedValues([]) + IntKeyedValues(a) == IntKeyedValues(a);
    }
  }

  lemma EmptyIntKeysAreCounted()
    ensures IntKeysAreCounted([])
  {
  }

  /** The integer keys are 0, 1, 2, ... in order. */
  predicate IntKeysAreCounted(a: seq<Entry>) {
    forall i :: 0 <= i < |a| && a[i].key.IntKey? ==> a[i].key.n == IntKeyCount(a[..i])
  }

  lemma {:induction false} MergeIntoIntKeys(acc: seq<Entry>, src: seq<Entry>)
    requires IntKeysAreCounted(acc)
    ensures IntKeyedValues(MergeInto(acc, src)) == IntKeyedValues(acc) + IntKeyedValues(src)
    ensures IntKeysAreCounted(MergeInto(acc, src))
    decreases |src|
  {
    if src != [] {
      var e := src[0];
      if e.key.IntKey? {
        var next := acc + [Entry(IntKey(IntKeyCount(acc)), e.val)];
        IntKeyedValuesAppend(acc, Entry(IntKey(IntKeyCount(acc)), e.val));
        AppendCounted(acc, e.val);
        MergeIntoIntKeys(next, src[1..]);
      } else {
        var next := Put(acc, e.key, e.val);
        PutKeepsIntKeys(acc, e.key, e.val);
        MergeIntoIntKeys(next, src[1..]);
      }
      assert IntKeyedValues(src) == (if e.key.IntKey? then [e.val] else []) + IntKeyedValues(src[1..]);
    }
  }

  lemma {:induction false} IntKeyCountAppend(a: seq<Entry>, e: Entry)
    ensures IntKeyCount(a + [e]) == IntKeyCount(a) + (if e.key.IntKey? then 1 else 0)
    decreases |a|
  {
    if a != [] {
      assert (a + [e])[1..] == a[1..] + [e];
      IntKeyCountAppend(a[1..], e);
    }
  }

  lemma {:induction false} IntKeyedValuesAppend(a: seq<Entry>, e: Entry)
    ensures IntKeyedValues(a + [e]) == IntKeyedValues(a) + (if e.key.IntKey? then [e.val] else [])
    decreases |a|
  {
    if a != [] {
      assert (a + [e])[1..] == a[1..] + [e];
      IntKeyedValuesAppend(a[1..], e);
    }
  }

  /** Assigning a string key leaves the integer-keyed entries alone. */
  lemma PutKeepsIntKeys(a: seq<Entry>, k: Key, v: Value)
    requires k.StrKey? && IntKeysAreCounted(a)
    ensures IntKeyedValues(Put(a, k, v)) == IntKeyedValues(a)
    ensures IntKeysAreCounted(Put(a, k, v))
  {
    var r := Put(a, k, v);
    match IndexOf(a, k)
    case Some(i) =>
      SameIntEntries(a, r);
    case None =>
      IntKeyedValuesAppend(a, Entry(k, v));
      assert r[..|a|] == a;
      forall i | 0 <= i < |r| && r[i].key.IntKey? ensures r[i].key.n == IntKeyCount(r[..i]) {
        assert r[..i] == a[..i];
      }
  }

  /** Two arrays with the same keys that differ only in string-keyed values. */
  lemma {:induction false} SameIntEntries(a: seq<Entry>, r: seq<Entry>)
    requires |a| == |r|
    requires forall i :: 0 <= i < |a| ==> r[i].key == a[i].key
    requires forall i :: 0 <= i < |a| && a[i].key.IntKey? ==> r[i] == a[i]
    ensures IntKeyedValues(r) == IntKeyedValues(a)
    ensures forall i :: 0 <= i <= |a| ==> IntKeyCount(r[..i]) == IntKeyCount(a[..i])
    decreases |a|
  {
    if a != [] {
      SameIntEntries(a[1..], r[1..]);
      forall i | 0 <= i <= |a| ensures IntKeyCount(r[..i]) == IntKeyCount(a[..i]) {
        if i > 0 {
          assert r[..i][1..] == r[1..][..i - 1];
          assert a[..i][1..] == a[1..][..i - 1];
        }
      }
    }
  }

  /** Appending under the next integer key keeps the integer keys counted. */
  lemma AppendCounted(acc: seq<Entry>, v: Value)
    requires IntKeysAreCounted(acc)
    ensures IntKeysAreCounted(acc + [Entry(IntKey(IntKeyCount(acc)), v)])
  {
    var next := acc + [Entry(IntKey(IntKeyCount(acc)), v)];
    assert next[..|acc|] == acc;
    forall i | 0 <= i < |next| && next[i].key.IntKey?
      ensures next[i].key.n == IntKeyCount(next[..i])
    {
      if i < |acc| {
        assert next[..i] == acc[..i];
      }
    }
  }

  /** The integer keys of an array split at any position are counted on both sides. */
  lemma {:induction false} IntKeyCountSplit(a: seq<Entry>, j: nat)
    requires j <= |a|
    ensures IntKeyCount(a) == IntKeyCount(a[..j]) + IntKeyCount(a[j..])
    decreases j
  {
    if j == 0 {
      assert a[..0] == [] && a[0..] == a;
    } else {
      IntKeyCountSplit(a[1..], j - 1);
      assert a[..j][1..] == a[1..][..j - 1];
      assert a[1..][j - 1..] == a[j..];
    }
  }

  /** In an array whose integer keys are counted, every integer key is below the count, so
      the next one appended is new. */
  lemma CountedKeysBelow(a: seq<Entry>)
    requires IntKeysAreCounted(a)
    ensures forall i :: 0 <= i < |a| && a[i].key.IntKey? ==> a[i].key.n < IntKeyCount(a)
  {
    forall i | 0 <= i < |a| && a[i].key.IntKey?
      ensures a[i].key.n < IntKeyCount(a)
    {
      IntKeyCountSplit(a, i);
      assert a[i..][0] == a[i];
    }
  }

  lemma {:induction false} MergeIntoDistinct(acc: seq<Entry>, src: seq<Entry>)
    requires DistinctKeys(acc) && IntKeysAreCounted(acc)
    ensures DistinctKeys(MergeInto(acc, src))
    decreases |src|
  {
    if src != [] {
      var e := src[0];
      if e.key.IntKey? {
        var next := acc + [Entry(IntKey(IntKeyCount(acc)), e.val)];
        CountedKeysBelow(acc);
        AppendCounted(acc, e.val);
        MergeIntoDistinct(next, src[1..]);
      } else {
        PutDistinct(acc, e.key, e.val);
        PutKeepsIntKeys(acc, e.key, e.val);
        MergeIntoDistinct(Put(acc, e.key, e.val), src[1..]);
      }
    }
  }

  /** The result of array_merge never holds a key twice, whatever its arguments. */
  lemma ArrayMergeDistinct(a: seq<Entry>, b: seq<Entry>)
    ensures DistinctKeys(ArrayMerge(a, b))
  {
    EmptyIntKeysAreCounted();
    MergeIntoDistinct([], a);
    MergeIntoIntKeys([], a);
    MergeIntoDistinct(MergeInto([], a), b);
  }
}
