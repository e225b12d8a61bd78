/**
 * The `BloomFilter` class: a fixed-length array of 0/1 flags and a counter of
 * `add` calls. Keys are sent to `hashCount` positions by the seeded hash of
 * module Hashing; `add` sets those positions to 1 and `contains` checks them.
 */
module Bloom {
  import opened Hashing
  import opened BitSpec

  /** The part of `getInfo()` that is whole numbers. */
  datatype Info = Info(expectedItems: nat, itemsAdded: nat, size: nat, hashCount: nat, filledBits: nat)

  /** One more than the largest length a JavaScript array can have (2^32 - 1). */
  const MaxLength: nat := 0x1_0000_0000

  class BloomFilter {
    /** The capacity the filter was sized for; only reported by `GetInfo`. */
    const expectedItems: nat
    /** The length of the bit array. */
    const size: nat
    /** The number of probes per key, made with seeds `1 .. hashCount`. */
    const hashCount: nat
    /** The flags; the array itself is never replaced, only its entries change. */
    const bitArray: array<Bit>
    /** The number of `add` calls so far, duplicates included. */
    var itemsAdded: nat

    ghost predicate Valid()
      reads this
    {
      1 <= size < MaxLength && hashCount >= 1 && bitArray.Length == size
    }

    /**
     * A filter with all `size` bits 0 and no items added. The size and the probe
     * count are given rather than derived from the capacity and the target
     * false-positive rate; the derived ones are always at least 1. A JavaScript
     * array is shorter than 2^32 entries.
     */
    constructor (expectedItems: nat, size: nat, hashCount: nat)
      requires 1 <= size < MaxLength && hashCount >= 1
      ensures Valid() && fresh(bitArray)
      ensures this.expectedItems == expectedItems && this.size == size && this.hashCount == hashCount
      ensures bitArray[..] == Zeros(size)
      ensures itemsAdded == 0
    {
      this.expectedItems := expectedItems;
      this.size := size;
      this.hashCount := hashCount;
      bitArray := new Bit[size](_ => 0);
      itemsAdded := 0;
    }

    /** The position of `value` for one seed: the stepwise-reduced djb2 hash. */
    method Hash(value: Key, seed: nat) returns (h: nat)
      requires Valid()
      ensures h == HashOf(value, seed, size)
    {
      h := Offset + seed;
      for i := 0 to |value|
        invariant h == HashOf(value[..i], seed, size)
      {
        assert value[..i + 1][..i] == value[..i];
        h := (h * Multiplier + value[i]) % size;
      }
      assert value[..|value|] == value;
    }

    /**
     * Sets every probed position of `value` to 1 and counts the call. The key
     * must fit: the empty key's probes are `5381 + 1 .. 5381 + hashCount`,
     * unreduced, and must lie inside the array.
     */
    method Add(value: Key)
      requires Valid()
      requires KeyFits(value, hashCount, size)
      modifies this, bitArray
      ensures Valid()
      ensures bitArray[..] == Marked(old(bitArray[..]), Probes(value, hashCount, size))
      ensures AllSet(bitArray[..], Probes(value, hashCount, size))
      ensures forall j :: 0 <= j < size && j !in Probes(value, hashCount, size) ==> bitArray[j] == old(bitArray[j])
      ensures itemsAdded == old(itemsAdded) + 1
    {
      ghost var before := bitArray[..];
      ghost var ps := Probes(value, hashCount, size);
      ProbesInRange(value, hashCount, size);
      for i := 0 to hashCount
        modifies bitArray
        invariant bitArray[..] == Marked(before, ps[..i])
      {
        var h := Hash(value, i + 1);
        assert h == ps[i] && h < size;
        MarkedAppend(before, ps[..i], h);
        assert ps[..i + 1] == ps[..i] + [h];
        bitArray[h] := 1;
      }
      assert ps[..hashCount] == ps;
      itemsAdded := itemsAdded + 1;
      MarkedSetsAndKeeps(before, ps, ps);
      MarkedFrame(before, ps);
    }

    /**
     * Whether every probed position of `value` holds 1; stops at the first one
     * that does not. A probe past the end of the array reads JavaScript's
     * `undefined`, which is not 1, so the answer is then false.
     */
    method Contains(value: Key) returns (found: bool)
      requires Valid()
      ensures found <==> AllSet(bitArray[..], Probes(value, hashCount, size))
    {
      ghost var ps := Probes(value, hashCount, size);
      for i := 0 to hashCount
        invariant forall j :: 0 <= j < i ==> ps[j] < size && bitArray[ps[j]] == 1
      {
        var h := Hash(value, i + 1);
        assert h == ps[i];
        if h >= bitArray.Length || bitArray[h] != 1 {
          return false;
        }
      }
      return true;
    }

    /** The number of 1s in the bit array. */
    function FilledBits(): (n: nat)
      reads this, bitArray
      requires Valid()
      ensures n <= size
      ensures n == 0 <==> forall j :: 0 <= j < size ==> bitArray[j] == 0
      ensures n == size <==> forall j :: 0 <= j < size ==> bitArray[j] == 1
    {
      CountIsZero(bitArray[..]);
      CountIsFull(bitArray[..]);
      Count(bitArray[..])
    }

    /** The whole-number statistics of the filter. */
    function GetInfo(): (info: Info)
      reads this, bitArray
      requires Valid()
      ensures info.filledBits <= info.size == size
      ensures info.itemsAdded == itemsAdded && info.hashCount == hashCount && info.expectedItems == expectedItems
      ensures info.filledBits == FilledBits()
    {
      Info(expectedItems, itemsAdded, size, hashCount, FilledBits())
    }
  }

  /**
   * Adds each key in turn, as the file loader does with the words it has read.
   * The bits end as the specification `AddAll` says and the counter grows by
   * the number of keys.
   */
  method AddEach(f: BloomFilter, keys: seq<Key>)
    requires f.Valid()
    requires forall j :: 0 <= j < |keys| ==> KeyFits(keys[j], f.hashCount, f.size)
    modifies f, f.bitArray
    ensures f.Valid()
    ensures f.bitArray[..] == AddAll(old(f.bitArray[..]), keys, f.hashCount)
    ensures f.itemsAdded == old(f.itemsAdded) + |keys|
  {
    for i := 0 to |keys|
      invariant f.Valid()
      invariant f.bitArray[..] == AddAll(old(f.bitArray[..]), keys[..i], f.hashCount)
      invariant f.itemsAdded == old(f.itemsAdded) + i
    {
      AddAllAppend(old(f.bitArray[..]), keys[..i], keys[i], f.hashCount);
      assert keys[..i + 1] == keys[..i] + [keys[i]];
      f.Add(keys[i]);
    }
    assert keys[..|keys|] == keys;
  }

  /**
   * Adding a key and then any number of further keys, the filter still reports
   * the first key as present: there are no false negatives.
   */
  method AddedKeyIsFound(f: BloomFilter, x: Key, later: seq<Key>) returns (found: bool)
    requires f.Valid()
    requires KeyFits(x, f.hashCount, f.size)
    requires forall j :: 0 <= j < |later| ==> KeyFits(later[j], f.hashCount, f.size)
    modifies f, f.bitArray
    ensures found
  {
    ghost var before := f.bitArray[..];
    AddEach(f, [x] + later);
    NoFalseNegatives(before, x, later, f.hashCount);
    found := f.Contains(x);
  }
}
