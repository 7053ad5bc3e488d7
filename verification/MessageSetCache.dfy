/**
 The size that a message set object caches, and the extensions that `DecodeItem` makes without telling them
 whose they are: the object is not told when one of those changes.

 Of an extension only the size counts that its own `ByteSize` reports.
 */
module MessageSetCaches {
  import opened MessageSets

  class Extension {
    /** Whether its listener is that of the message set, or one that does nothing. */
    const linked: bool
    /** The number it is filed under. */
    ghost const number: nat
    var size: nat
    var dirty: bool
    var present: bool

    constructor (linked: bool, ghost number: nat)
      ensures this.linked == linked && this.number == number && size == 0 && !dirty && !present
    {
      this.linked, this.number, size, dirty, present := linked, number, 0, false, false;
    }
  }

  class MessageSet {
    /** The numbers of the registered extensions, ascending. */
    const numbers: seq<nat>
    var extensions: map<nat, Extension>
    ghost var objects: set<Extension>
    var cachedSize: nat
    var dirty: bool
    var childrenDirty: bool

    constructor (numbers: seq<nat>)
      requires Ascending(numbers)
      ensures Valid() && Right() && this.numbers == numbers && extensions == map[] && !dirty
    {
      this.numbers := numbers;
      extensions, objects, cachedSize, dirty, childrenDirty := map[], {}, 0, false, false;
      new;
      assert Shown() == map[];
      NothingShown(numbers);
    }

    /** Every extension is an object of its own and present if dirty; linked ones are not dirty behind the
        back of the message set. */
    ghost predicate Valid()
      reads this, objects
    {
      && Ascending(numbers)
      && (forall k :: k in extensions ==> k in numbers && extensions[k] in objects && extensions[k].number == k)
      && (forall k :: k in extensions && extensions[k].dirty ==> extensions[k].present)
      && (forall k :: k in extensions && extensions[k].dirty && extensions[k].linked ==> dirty)
      && (childrenDirty ==> dirty)
    }

    /** The sizes of the extensions that are present. */
    ghost function Shown(): map<nat, nat>
      reads this, objects
    {
      map k | k in extensions && extensions[k] in objects && extensions[k].present :: extensions[k].size
    }

    /** A clean message set has the size of its items in the cache. */
    ghost predicate Right()
      reads this, objects
    {
      !dirty ==> cachedSize == Total(numbers, Shown())
    }

    /** `_Modified`; the message set has no parent here. */
    method Modified()
      requires Valid()
      modifies this`dirty, this`childrenDirty
      ensures Valid() && Right() && dirty && Shown() == old(Shown())
    {
      if !dirty {
        dirty, childrenDirty := true, true;
      }
    }

    /** `_Modified` of the extension, whose size is different then. */
    method ExtensionModified(k: nat, size: nat)
      requires Valid() && k in extensions
      modifies this`dirty, this`childrenDirty, extensions[k]
      ensures Valid() && objects == old(objects) && extensions == old(extensions) && cachedSize == old(cachedSize)
      ensures Shown() == old(Shown())[k := size] && extensions[k].dirty
      ensures dirty == (old(dirty) || (extensions[k].linked && !old(extensions[k].dirty)))
    {
      hide Total, Ascending;
      var e := extensions[k];
      e.size := size;
      if !e.dirty {
        e.dirty, e.present := true, true;
        if e.linked && !childrenDirty && !dirty {
          dirty, childrenDirty := true, true;
        }
      }
    }

    method AddExtension(k: nat, linked: bool)
      requires Valid() && k in numbers && k !in extensions
      modifies this`extensions, this`objects
      ensures Valid() && fresh(objects - old(objects)) && k in extensions && Shown() == old(Shown())
      ensures fresh(extensions[k]) && extensions[k].linked == linked && !extensions[k].dirty && !extensions[k].present
      ensures extensions == old(extensions)[k := extensions[k]]
    {
      hide Total, Ascending;
      var e := new Extension(linked, k);
      assert forall j :: j in extensions ==> extensions[j] != e;
      extensions, objects := extensions[k := e], objects + {e};
    }

    /** The getter in `Extensions` makes a linked extension, which is not present. */
    method Access(k: nat)
      requires Valid() && k in numbers
      modifies this`extensions, this`objects
      ensures Valid() && fresh(objects - old(objects)) && k in extensions && dirty == old(dirty) && cachedSize == old(cachedSize)
      ensures Shown() == old(Shown()) && (old(Right()) ==> Right())
      ensures k in old(extensions) ==> extensions == old(extensions)
      ensures k !in old(extensions) ==> fresh(extensions[k]) && extensions[k].linked && extensions == old(extensions)[k := extensions[k]]
    {
      hide Valid, Shown, Total;
      if k !in extensions {
        AddExtension(k, true);
      }
    }

    /** `_InternalParse` of a message set with one item: it is marked as modified, and `DecodeItem` makes an
        extension that is not linked if there is none, and parses into it. */
    method ParseItem(k: nat, size: nat)
      requires Valid() && k in numbers
      modifies this, objects
      ensures Valid() && fresh(objects - old(objects)) && Right() && dirty && k in extensions && extensions[k].present
      ensures Shown() == old(Shown())[k := size]
      ensures k in old(extensions) ==> extensions == old(extensions)
      ensures k !in old(extensions) ==> fresh(extensions[k]) && !extensions[k].linked && extensions == old(extensions)[k := extensions[k]]
    {
      hide Shown, Total;
      Modified();
      if k !in extensions {
        AddExtension(k, false);
      }
      ExtensionModified(k, size);
    }

    /** `ByteSize`. A clean message set does not look at its extensions. */
    method ByteSize() returns (total: nat)
      requires Valid()
      modifies this`cachedSize, this`dirty, this`childrenDirty, objects`dirty
      ensures Valid() && !dirty && total == cachedSize && objects == old(objects) && extensions == old(extensions)
      ensures Shown() == old(Shown())
      ensures total == if old(dirty) then Total(numbers, Shown()) else old(cachedSize)
      ensures old(dirty) ==> Right() && forall k :: k in extensions ==> !extensions[k].dirty
      ensures !old(dirty) ==> forall e :: e in objects ==> unchanged(e)
    {
      if !dirty {
        return cachedSize;
      }
      hide Total;
      total := SumItems();
      cachedSize, dirty, childrenDirty := total, false, false;
    }

    /** The loop over the extensions that are present, whose own `ByteSize` cleans them. */
    method SumItems() returns (total: nat)
      requires Valid()
      modifies objects`dirty
      ensures total == Total(numbers, old(Shown()))
      ensures forall k :: k in extensions ==> !extensions[k].dirty
    {
      hide ItemSizeOf, Ascending;
      total := 0;
      ghost var shown := Shown();
      assert numbers[0..] == numbers;
      for i := 0 to |numbers|
        invariant total + Total(numbers[i..], shown) == Total(numbers, shown)
        invariant forall k :: k in extensions && extensions[k].dirty ==> extensions[k].present
        invariant forall j :: 0 <= j < i && numbers[j] in extensions ==> !extensions[numbers[j]].dirty
      {
        var k := numbers[i];
        assert numbers[i..][0] == k && numbers[i..][1..] == numbers[i + 1..];
        if k in extensions && extensions[k].present {
          extensions[k].dirty := false;
          total := total + ItemSizeOf(k, extensions[k].size);
        }
      }
      assert numbers[|numbers|..] == [];
    }

    /** When an extension changes, the cached size stays right exactly if the message set was dirty, or hears of
        it, or the size is the same. */
    method Change(k: nat, size: nat)
      requires Valid() && Right() && k in extensions && extensions[k].present
      modifies this`dirty, this`childrenDirty, extensions[k]
      ensures Valid() && objects == old(objects) && extensions == old(extensions) && cachedSize == old(cachedSize) && Shown() == old(Shown())[k := size]
      ensures Right() <==> old(dirty) || (extensions[k].linked && !old(extensions[k].dirty)) || size == old(extensions[k].size)
    {
      TotalDiffers(numbers, Shown(), k, size);
      ExtensionModified(k, size);
    }

    /** An item is parsed, the size asked for, the extension changed to another size, and the size asked for
        again. The answer is the old one exactly if the item made the extension, or an item before it had, and
        nothing else has marked the message set as modified since. */
    method Stale(k: nat, size: nat, other: nat, modified: bool) returns (before: nat, after: nat)
      requires Valid() && k in numbers && other != size
      modifies this, objects
      ensures Valid() && k in extensions && before == Total(numbers, old(Shown())[k := size])
      ensures var right := Total(numbers, old(Shown())[k := other]);
              && right != before
              && after == if extensions[k].linked || modified then right else before
      ensures extensions[k].linked <==> k in old(extensions) && old(extensions[k].linked)
    {
      hide Total, Shown;
      ghost var shown: map<nat, nat> := Shown();
      ParseItem(k, size);
      before := ByteSize();
      if modified {
        Modified();
      }
      ghost var parsed: map<nat, nat> := shown[k := size];
      TotalDiffers(numbers, parsed, k, other);
      assert parsed[k := other] == shown[k := other];
      ExtensionModified(k, other);
      after := ByteSize();
    }
  }

  predicate Ascending(numbers: seq<nat>) {
    forall i, j :: 0 <= i < j < |numbers| ==> numbers[i] < numbers[j]
  }

  /** The sizer of an item, given the size of the message in it. */
  function Total(numbers: seq<nat>, shown: map<nat, nat>): nat {
    if numbers == [] then 0
    else (if numbers[0] in shown then ItemSizeOf(numbers[0], shown[numbers[0]]) else 0) + Total(numbers[1..], shown)
  }

  lemma {:induction false} NothingShown(numbers: seq<nat>)
    ensures Total(numbers, map[]) == 0
  {
    if numbers != [] {
      NothingShown(numbers[1..]);
    }
  }

  /** Another size of one extension makes another total. */
  lemma {:induction false} TotalDiffers(numbers: seq<nat>, shown: map<nat, nat>, k: nat, size: nat)
    requires Ascending(numbers) && k in numbers && k in shown
    ensures Total(numbers, shown[k := size]) == Total(numbers, shown) <==> size == shown[k]
  {
    hide ItemSizeOf;
    if numbers[0] == k {
      TotalElsewhere(numbers[1..], shown, k, size);
      ItemSizesDiffer(k, size, shown[k]);
    } else {
      assert k in numbers[1..];
      TotalDiffers(numbers[1..], shown, k, size);
    }
  }

  lemma {:induction false} TotalElsewhere(numbers: seq<nat>, shown: map<nat, nat>, k: nat, size: nat)
    requires k !in numbers
    ensures Total(numbers, shown[k := size]) == Total(numbers, shown)
  {
    hide ItemSizeOf;
    if numbers != [] {
      TotalElsewhere(numbers[1..], shown, k, size);
    }
  }

  lemma ItemSizesDiffer(k: nat, a: nat, b: nat)
    ensures ItemSizeOf(k, a) == ItemSizeOf(k, b) <==> a == b
  {
  }
}
