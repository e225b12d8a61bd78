/**
 * The filter's bit array as a value: a sequence of 0/1 flags, what `add` does
 * to it, what `contains` asks of it, and the `filledBits` count.
 */
module BitSpec {
  import opened Hashing

  /** One entry of the bit array; the filter only ever stores 0 or 1. */
  type Bit = b: int | 0 <= b <= 1

  /** The bit array of a freshly built filter: `size` zeros. */
  function Zeros(size: nat): (bits: seq<Bit>)
    ensures |bits| == size
  {
    seq(size, _ => 0)
  }

  /** Every position in `ps` is an index of `bits`. */
  predicate Inside(bits: seq<Bit>, ps: seq<nat>)
  {
    forall i :: 0 <= i < |ps| ==> ps[i] < |bits|
  }

  /** Setting the positions `ps` to 1, one after the other, as the loop of `add` does. */
  function Marked(bits: seq<Bit>, ps: seq<nat>): (r: seq<Bit>)
    requires Inside(bits, ps)
    ensures |r| == |bits|
    decreases |ps|
  {
    if ps == [] then bits else Marked(bits[ps[0] := 1], ps[1..])
  }

  /** After marking, a position holds 1 if it was marked and its old value otherwise. */
  lemma {:induction false} MarkedAt(bits: seq<Bit>, ps: seq<nat>, j: nat)
    requires Inside(bits, ps)
    requires j < |bits|
    ensures Marked(bits, ps)[j] == if j in ps then 1 else bits[j]
    decreases |ps|
  {
    if ps != [] {
      MarkedAt(bits[ps[0] := 1], ps[1..], j);
      assert j in ps <==> j == ps[0] || j in ps[1..] by {
        assert ps == [ps[0]] + ps[1..];
      }
    }
  }

  /** Marking one more position at the end sets that one entry in what the earlier ones left. */
  lemma {:induction false} MarkedAppend(bits: seq<Bit>, ps: seq<nat>, p: nat)
    requires Inside(bits, ps) && p < |bits|
    ensures Inside(bits, ps + [p])
    ensures Marked(bits, ps + [p]) == Marked(bits, ps)[p := 1]
    decreases |ps|
  {
    var all := ps + [p];
    if ps == [] {
      assert all[1..] == [];
    } else {
      assert all[0] == ps[0] && all[1..] == ps[1..] + [p];
      MarkedAppend(bits[ps[0] := 1], ps[1..], p);
    }
  }

  /** Marking changes no position outside `ps`. */
  lemma MarkedFrame(bits: seq<Bit>, ps: seq<nat>)
    requires Inside(bits, ps)
    ensures forall j :: 0 <= j < |bits| && j !in ps ==> Marked(bits, ps)[j] == bits[j]
  {
    forall j | 0 <= j < |bits| && j !in ps
      ensures Marked(bits, ps)[j] == bits[j]
    {
      MarkedAt(bits, ps, j);
    }
  }

  /**
   * Whether every probe finds a 1. A probe outside the array reads JavaScript's
   * `undefined`, which is not 1, so it answers false.
   */
  predicate AllSet(bits: seq<Bit>, ps: seq<nat>)
    ensures AllSet(bits, ps) ==> Inside(bits, ps)
    ensures ps == [] ==> AllSet(bits, ps)
  {
    forall i :: 0 <= i < |ps| ==> ps[i] < |bits| && bits[ps[i]] == 1
  }

  /** Marking the same positions twice leaves the same bits as marking them once. */
  lemma MarkedIdempotent(bits: seq<Bit>, ps: seq<nat>)
    requires Inside(bits, ps)
    ensures Marked(Marked(bits, ps), ps) == Marked(bits, ps)
  {
    var once := Marked(bits, ps);
    var twice := Marked(once, ps);
    forall j | 0 <= j < |bits|
      ensures twice[j] == once[j]
    {
      MarkedAt(once, ps, j);
      MarkedAt(bits, ps, j);
    }
  }

  /** Marking sets every marked position and never clears a 1. */
  lemma MarkedSetsAndKeeps(bits: seq<Bit>, ps: seq<nat>, qs: seq<nat>)
    requires Inside(bits, ps)
    ensures AllSet(Marked(bits, ps), ps)
    ensures AllSet(bits, qs) ==> AllSet(Marked(bits, ps), qs)
  {
    var r := Marked(bits, ps);
    forall i | 0 <= i < |ps|
      ensures r[ps[i]] == 1
    {
      MarkedAt(bits, ps, ps[i]);
    }
    if AllSet(bits, qs) {
      forall i | 0 <= i < |qs|
        ensures r[qs[i]] == 1
      {
        MarkedAt(bits, ps, qs[i]);
      }
    }
  }

  /** The bits after adding each key of `keys` in turn, starting from `bits`. */
  function AddAll(bits: seq<Bit>, keys: seq<Key>, k: nat): (r: seq<Bit>)
    requires |bits| >= 1
    requires forall j :: 0 <= j < |keys| ==> KeyFits(keys[j], k, |bits|)
    ensures |r| == |bits|
    decreases |keys|
  {
    if keys == [] then bits
    else
      var ps := Probes(keys[0], k, |bits|);
      assert Inside(bits, ps) by {
        if k >= 1 { ProbesInRange(keys[0], k, |bits|); }
      }
      AddAll(Marked(bits, ps), keys[1..], k)
  }

  /**
   * No false negatives: once a key is added its probes are all 1, and they stay
   * 1 whatever keys are added afterwards.
   */
  lemma {:induction false} NoFalseNegatives(bits: seq<Bit>, x: Key, later: seq<Key>, k: nat)
    requires |bits| >= 1
    requires KeyFits(x, k, |bits|)
    requires forall j :: 0 <= j < |later| ==> KeyFits(later[j], k, |bits|)
    ensures AllSet(AddAll(bits, [x] + later, k), Probes(x, k, |bits|))
  {
    var ps := Probes(x, k, |bits|);
    var keys := [x] + later;
    assert keys[0] == x && keys[1..] == later;
    assert AddAll(bits, keys, k) == AddAll(Marked(bits, ps), later, k);
    MarkedSetsAndKeeps(bits, ps, ps);
    StaysSet(Marked(bits, ps), later, k, ps);
  }

  /** Adding further keys never clears the bits a set of probes found set. */
  lemma {:induction false} StaysSet(bits: seq<Bit>, keys: seq<Key>, k: nat, qs: seq<nat>)
    requires |bits| >= 1
    requires forall j :: 0 <= j < |keys| ==> KeyFits(keys[j], k, |bits|)
    requires AllSet(bits, qs)
    ensures AllSet(AddAll(bits, keys, k), qs)
    decreases |keys|
  {
    if keys != [] {
      var ps := Probes(keys[0], k, |bits|);
      if k >= 1 { ProbesInRange(keys[0], k, |bits|); }
      MarkedSetsAndKeeps(bits, ps, qs);
      StaysSet(Marked(bits, ps), keys[1..], k, qs);
    }
  }

  /** Adding one more key at the end marks that key's probes in what the earlier keys left. */
  lemma {:induction false} AddAllAppend(bits: seq<Bit>, keys: seq<Key>, key: Key, k: nat)
    requires |bits| >= 1
    requires forall j :: 0 <= j < |keys| ==> KeyFits(keys[j], k, |bits|)
    requires KeyFits(key, k, |bits|)
    ensures Inside(AddAll(bits, keys, k), Probes(key, k, |bits|))
    ensures AddAll(bits, keys + [key], k) == Marked(AddAll(bits, keys, k), Probes(key, k, |bits|))
    decreases |keys|
  {
    if k >= 1 { ProbesInRange(key, k, |bits|); }
    var all := keys + [key];
    if keys == [] {
      assert all == [key];
      assert all[1..] == [];
    } else {
      var ps := Probes(keys[0], k, |bits|);
      if k >= 1 { ProbesInRange(keys[0], k, |bits|); }
      assert all[0] == keys[0] && all[1..] == keys[1..] + [key];
      AddAllAppend(Marked(bits, ps), keys[1..], key, k);
    }
  }

  /** In an all-zero array no key is found, provided at least one probe is made. */
  lemma EmptyFindsNothing(size: nat, value: Key, k: nat)
    requires size >= 1 && k >= 1
    ensures !AllSet(Zeros(size), Probes(value, k, size))
  {
    var ps := Probes(value, k, size);
    assert ps[0] >= size || Zeros(size)[ps[0]] == 0;
  }

  /** The number of 1s in the array, as `filter(bit => bit === 1).length` gives it. */
  function Count(bits: seq<Bit>): (n: nat)
    ensures n <= |bits|
    decreases |bits|
  {
    if bits == [] then 0 else (if bits[0] == 1 then 1 else 0) + Count(bits[1..])
  }

  /** The count is zero exactly when no entry is 1. */
  lemma {:induction false} CountIsZero(bits: seq<Bit>)
    ensures Count(bits) == 0 <==> forall j :: 0 <= j < |bits| ==> bits[j] == 0
    decreases |bits|
  {
    if bits != [] {
      CountIsZero(bits[1..]);
      assert forall j :: 1 <= j < |bits| ==> bits[j] == bits[1..][j - 1];
    }
  }

  /** The count equals the length exactly when every entry is 1. */
  lemma {:induction false} CountIsFull(bits: seq<Bit>)
    ensures Count(bits) == |bits| <==> forall j :: 0 <= j < |bits| ==> bits[j] == 1
    decreases |bits|
  {
    if bits != [] {
      CountIsFull(bits[1..]);
      assert forall j :: 1 <= j < |bits| ==> bits[j] == bits[1..][j - 1];
    }
  }

  /** Setting one entry to 1 adds one to the count when it was 0, and nothing when it was 1. */
  lemma {:induction false} CountSetOne(bits: seq<Bit>, p: nat)
    requires p < |bits|
    ensures Count(bits[p := 1]) == Count(bits) + (if bits[p] == 1 then 0 else 1)
    decreases |bits|
  {
    if p > 0 {
      assert bits[p := 1][1..] == bits[1..][p - 1 := 1];
      CountSetOne(bits[1..], p - 1);
    } else {
      assert bits[p := 1][1..] == bits[1..];
    }
  }

  /**
   * Marking `ps` never lowers the count and raises it by at most `|ps|`: the
   * filled-bit count never decreases across `add` calls, and one `add` fills
   * at most `hashCount` new bits.
   */
  lemma {:induction false} CountMarked(bits: seq<Bit>, ps: seq<nat>)
    requires Inside(bits, ps)
    ensures Count(bits) <= Count(Marked(bits, ps)) <= Count(bits) + |ps|
    decreases |ps|
  {
    if ps != [] {
      CountSetOne(bits, ps[0]);
      CountMarked(bits[ps[0] := 1], ps[1..]);
    }
  }
}
