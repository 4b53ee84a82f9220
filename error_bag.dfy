/** The read-only bag of validation messages that templates see as `$errors`. */
module ErrorBags {
  import opened PhpStrings
  import opened PhpValues

  /** has($key) on a bag holding `errors`: the key is present with a non-null message. */
  predicate BagHas(errors: seq<Entry>, key: string) {
    Isset(errors, NormalizeKey(key))
  }

  /** first($key) on a bag holding `errors`: the stored message, or null (None) when the key is
      absent or null. The declared return type ?string coerces scalars to strings; an array or an
      object stored as a message makes the call throw a TypeError. */
  function BagFirst(errors: seq<Entry>, key: string): (r: Result<Option<string>>)
    ensures !BagHas(errors, key) <==> r == Ok(None)
    ensures Lookup(errors, NormalizeKey(key)).Some? && Lookup(errors, NormalizeKey(key)).value.Str? ==>
      r == Ok(Some(Lookup(errors, NormalizeKey(key)).value.s))
  {
    match Lookup(errors, NormalizeKey(key))
    case None => Ok(None)
    case Some(v) =>
      if v == Null then Ok(None)
      else match StringArgument(v)
        case Some(s) => Ok(Some(s))
        case None => Err(TypeError("ErrorBag::first(): Return value must be of type ?string"))
  }

  /** In an array with distinct keys, has() finds exactly the positions holding a non-null message. */
  lemma BagHasAt(errors: seq<Entry>, key: string)
    requires DistinctKeys(errors)
    ensures BagHas(errors, key) <==>
      exists i :: 0 <= i < |errors| && errors[i].key == NormalizeKey(key) && errors[i].val != Null
  {
    var k := NormalizeKey(key);
    if i :| 0 <= i < |errors| && errors[i].key == k && errors[i].val != Null {
      LookupAt(errors, i);
    }
  }

  class ErrorBag {
    var errors: seq<Entry>

    /** The stored value is a PHP array, so its keys are distinct. */
    ghost predicate Valid()
      reads this
    {
      DistinctKeys(errors)
    }

    constructor (errors: seq<Entry>)
      requires DistinctKeys(errors)
      ensures Valid() && this.errors == errors
    {
      this.errors := errors;
    }

    /** has($key): true exactly when some entry stores a non-null message under the key. */
    function Has(key: string): (r: bool)
      reads this
      requires Valid()
      ensures r <==> exists i :: 0 <= i < |errors| && errors[i].key == NormalizeKey(key) && errors[i].val != Null
    {
      BagHasAt(errors, key);
      BagHas(errors, key)
    }

    /** first($key): the message stored under the key; null exactly when has($key) is false. */
    function First(key: string): (r: Result<Option<string>>)
      reads this
      requires Valid()
      ensures Has(key) <==> r != Ok(None)
      ensures forall i :: 0 <= i < |errors| && errors[i].key == NormalizeKey(key) && errors[i].val.Str? ==>
        r == Ok(Some(errors[i].val.s))
    {
      var r := BagFirst(errors, key);
      assert forall i :: 0 <= i < |errors| && errors[i].key == NormalizeKey(key) ==>
        Lookup(errors, NormalizeKey(key)) == Some(errors[i].val) by {
        forall i | 0 <= i < |errors| && errors[i].key == NormalizeKey(key) {
          LookupAt(errors, i);
        }
      }
      r
    }

    /** getBag($key): the whole array, whatever bag name is asked for. */
    function GetBag(key: string): (r: seq<Entry>)
      reads this
      ensures r == All()
    {
      errors
    }

    /** any(): whether there is at least one entry. */
    function Any(): (r: bool)
      reads this
      ensures r <==> |errors| > 0
    {
      !IsEmpty(Arr(errors))
    }

    /** all(): the array as constructed. */
    function All(): seq<Entry>
      reads this
    {
      errors
    }

    /** __serialize(): the array itself. */
    function Serialize(): (data: seq<Entry>)
      reads this
      ensures data == All()
    {
      errors
    }

    /** __unserialize($data): the array is replaced in place. */
    method Unserialize(data: seq<Entry>)
      requires DistinctKeys(data)
      modifies this
      ensures Valid() && errors == data
    {
      errors := data;
    }
  }

  /** A bag restored from another's serialized form holds the same array and answers every
      accessor the same way. */
  method SerializeRoundTrip(bag: ErrorBag) returns (copy: ErrorBag)
    requires bag.Valid()
    ensures fresh(copy) && copy.Valid()
    ensures copy.All() == bag.All()
    ensures forall key :: copy.Has(key) == bag.Has(key) && copy.First(key) == bag.First(key)
  {
    var data := bag.Serialize();
    copy := new ErrorBag([]);
    copy.Unserialize(data);
  }
}
