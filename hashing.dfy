/**
 * The seeded djb2-style hash of the Bloom filter, as a specification on values.
 *
 * A key is a JavaScript string, read one UTF-16 code unit at a time
 * (`charCodeAt`), so every unit lies in 0..65535. The accumulator starts at
 * `5381 + seed` and each step computes `(acc * 33 + unit) % size`. All operands
 * are non-negative, so the JavaScript `%` agrees with Dafny's and the final
 * `Math.abs` changes nothing.
 */
module Hashing {

  /** One UTF-16 code unit, as `charCodeAt` returns it. */
  type CodeUnit = c: int | 0 <= c < 0x1_0000

  /** A key: the code units of a JavaScript string. */
  type Key = seq<CodeUnit>

  /** The start value of the accumulator before any unit is read. */
  const Offset: nat := 5381

  /** The multiplier of one step. */
  const Multiplier: nat := 33

  /**
   * The hash with the reduction modulo `size` taken after every step, as the
   * filter computes it. For the empty key no step runs, so the start value
   * comes back unreduced and may lie outside `[0, size)`.
   */
  function HashOf(value: Key, seed: nat, size: nat): (h: nat)
    requires size >= 1
    ensures |value| > 0 ==> h < size
    ensures |value| == 0 ==> h == Offset + seed
    decreases |value|
  {
    if |value| == 0 then Offset + seed
    else (HashOf(value[..|value| - 1], seed, size) * Multiplier + value[|value| - 1]) % size
  }

  /** The classic seeded djb2 hash over unbounded integers, with no reduction at all. */
  function Djb2(value: Key, seed: nat): (h: nat)
    decreases |value|
  {
    if |value| == 0 then Offset + seed
    else Djb2(value[..|value| - 1], seed) * Multiplier + value[|value| - 1]
  }

  /**
   * Reducing at every step gives the same index as reducing the classic hash
   * once at the end: for a non-empty key the stepwise modulo changes nothing
   * about which position a key is sent to.
   */
  lemma {:induction false} HashOfIsReducedDjb2(value: Key, seed: nat, size: nat)
    requires size >= 1
    requires |value| > 0
    ensures HashOf(value, seed, size) == Djb2(value, seed) % size
    decreases |value|
  {
    var init := value[..|value| - 1];
    var last := value[|value| - 1];
    if |init| > 0 {
      HashOfIsReducedDjb2(init, seed, size);
      ModStep(Djb2(init, seed), last, size);
    }
  }

  /** Probe positions `hash(value, 1) .. hash(value, k)`, in the order the filter visits them. */
  function Probes(value: Key, k: nat, size: nat): (ps: seq<nat>)
    requires size >= 1
    ensures |ps| == k
    ensures forall i :: 0 <= i < k ==> ps[i] == HashOf(value, i + 1, size)
    ensures |value| > 0 ==> forall i :: 0 <= i < k ==> ps[i] < size
  {
    seq(k, i requires 0 <= i < k => HashOf(value, i + 1, size))
  }

  /** A key whose probes all land inside a bit array of length `size`. */
  predicate KeyFits(value: Key, k: nat, size: nat)
  {
    |value| > 0 || Offset + k < size
  }

  /**
   * Every probe of a key lies inside the bit array exactly when the key is
   * non-empty or the array is longer than `5381 + k`: the empty key's probes
   * are `5381 + 1 .. 5381 + k`, unreduced.
   */
  lemma ProbesInRange(value: Key, k: nat, size: nat)
    requires size >= 1 && k >= 1
    ensures (forall i :: 0 <= i < k ==> Probes(value, k, size)[i] < size) <==> KeyFits(value, k, size)
  {
    var ps := Probes(value, k, size);
    if |value| == 0 && Offset + k >= size {
      assert ps[k - 1] == Offset + k;
    }
  }

  // ---- arithmetic helpers ----

  /** A positive multiple of `m` is at least `m` (Dafny finds the induction on `d` itself). */
  lemma MulAtLeast(d: int, m: int)
    requires d >= 1 && m >= 1
    ensures d * m >= m
  {
  }

  /** Euclidean division has one remainder: any `q * m + r` with `0 <= r < m` leaves `r`. */
  lemma ModUnique(y: int, q: int, r: int, m: int)
    requires m >= 1 && 0 <= r < m && y == q * m + r
    ensures y % m == r
  {
    var q', r' := y / m, y % m;
    assert y == q' * m + r';
    assert (q - q') * m == r' - r by {
      assert (q - q') * m == q * m - q' * m;
    }
    if q > q' {
      MulAtLeast(q - q', m);
    } else if q < q' {
      assert (q' - q) * m == -((q - q') * m);
      MulAtLeast(q' - q, m);
    }
  }

  /** One hash step commutes with reducing the accumulator first. */
  lemma ModStep(a: nat, c: nat, m: nat)
    requires m >= 1
    ensures (a % m * Multiplier + c) % m == (a * Multiplier + c) % m
  {
    var q := a / m;
    var b := a % m * Multiplier + c;
    var q2, r2 := b / m, b % m;
    assert a == q * m + a % m;
    assert b == q2 * m + r2;
    assert a * Multiplier + c == (q * Multiplier + q2) * m + r2;
    ModUnique(a * Multiplier + c, q * Multiplier + q2, r2, m);
  }
}
