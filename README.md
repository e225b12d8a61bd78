# Bloom filter — a verified Dafny model

This project models the `BloomFilter` class of a small JavaScript Bloom filter
(`index.js`). A Bloom filter is a probabilistic set-membership structure. It
keeps a fixed-length array of 0/1 flags and a counter of `add` calls. Each key
is sent to `hashCount` positions by a seeded djb2-style hash. `add` sets those
positions to 1. `contains` answers false as soon as one of them is not 1, and
true otherwise.

The project has three modules:

- `Hashing` (`hashing.dfy`) — the hash as a function on values. A key is the
  sequence of a string's UTF-16 code units (`charCodeAt`, 0..65535). The
  accumulator starts at `5381 + seed`, and each step computes
  `(acc * 33 + unit) % size`. All operands are non-negative, so JavaScript's
  `%` is the ordinary remainder and `Math.abs` changes nothing. `Probes` lists
  the positions for seeds `1 .. hashCount`.
- `BitSpec` (`bit_spec.dfy`) — the bit array as a sequence value:
  - `Marked` is what one `add` does to it.
  - `AllSet` is what `contains` checks.
  - `AddAll` adds a whole sequence of keys.
  - `Count` is the `filledBits` statistic.

  The lemmas here carry the filter's properties: no false negatives,
  idempotence, the frame of `add`, and the bounds and monotonicity of the fill
  count.
- `Bloom` (`bloom_filter.dfy`) — the class itself. Its fields are `size`,
  `hashCount`, `expectedItems`, the `bitArray` (a Dafny `array` updated in
  place) and the `itemsAdded` counter. `Hash`, `Add` and `Contains` are
  methods with the source's loops, and each is proved against the
  specification functions above. `FilledBits` and `GetInfo` are functions
  that read the array.

The hash reduces modulo `size` at every step. `Hashing.HashOfIsReducedDjb2`
proves that, for a non-empty key, this gives the same index as the classic
unbounded djb2 hash reduced once at the end. So the stepwise reduction only
keeps the numbers small: for a non-empty key it does not change which
positions the key is sent to. For the empty key the source returns
`5381 + seed` unreduced, whereas reducing once at the end would give
`(5381 + seed) % size`.

## Model

| member | source | states |
|---|---|---|
| `Hashing.HashOf` | index.js:20-26 | For a non-empty key the hash lies in `[0, size)`. For the empty key it is exactly `5381 + seed`, unreduced. |
| `Hashing.HashOfIsReducedDjb2` | index.js:21-23 | For a non-empty key, reducing after every step gives the same result as reducing the unbounded djb2 value `Djb2(value, seed)` once: `HashOf == Djb2 % size`. |
| `Hashing.Probes` | index.js:29-30 | The probes of a key are exactly `hashCount` positions, the `i`-th being the hash with seed `i + 1`. For a non-empty key every probe is `< size`. |
| `Hashing.ProbesInRange` | index.js:20-31 | All `hashCount` probes of a key are `< size` if and only if the key is non-empty or `5381 + hashCount < size`. |
| `BitSpec.Zeros` | index.js:7 | A new bit array has exactly `size` entries. |
| `BitSpec.Marked` | index.js:29-32 | Setting the probed positions one after another keeps the array's length. |
| `BitSpec.MarkedAt` | index.js:29-32 | After `add`, a position holds 1 if it is one of the key's probes, and keeps its old value otherwise. |
| `BitSpec.MarkedAppend` | index.js:29-32 | Setting one more position after a run of positions equals a single update of the result: the loop's step. |
| `BitSpec.AllSet` | index.js:37-43 | The answer of the `contains` loop on a bit sequence. When it is true, every probe is an index of the array. With no probes it is true. |
| `BitSpec.AddAll` | index.js:28-34 | The bits after a run of `add` calls, one key after another. The array keeps its length. |
| `BitSpec.MarkedFrame` | index.js:28-34 | `add` changes no position that is not one of the key's probes. |
| `BitSpec.MarkedIdempotent` | index.js:31 | Adding the same key twice leaves the same bits as adding it once. |
| `BitSpec.MarkedSetsAndKeeps` | index.js:28-44 | After `add(x)` every probe of `x` finds a 1. A key whose probes were all 1 before still has them all 1. |
| `BitSpec.AddAllAppend` | index.js:28-34 | Adding keys `ks` then `k` equals marking `k`'s probes in what adding `ks` left. |
| `BitSpec.StaysSet` | index.js:28-34 | Any further sequence of `add` calls keeps every bit that was 1. |
| `BitSpec.NoFalseNegatives` | index.js:28-44 | After `add(x)` and any later `add` calls, every probe of `x` still finds a 1, so `contains(x)` is true. |
| `BitSpec.EmptyFindsNothing` | index.js:36-44 | In an all-zero array, `contains` is false for every key when `hashCount >= 1`. |
| `BitSpec.Count` | index.js:58 | The number of 1s is at most the array's length. |
| `BitSpec.CountIsZero` | index.js:58 | The count is 0 if and only if every entry is 0. |
| `BitSpec.CountIsFull` | index.js:58 | The count equals the length if and only if every entry is 1. |
| `BitSpec.CountSetOne` | index.js:31 | Setting one entry to 1 raises the count by 1 if it was 0, and leaves it unchanged if it was 1. |
| `BitSpec.CountMarked` | index.js:28-34 | One `add` never lowers the filled-bit count and raises it by at most `hashCount`. |
| `Bloom.BloomFilter.constructor` | index.js:3-10 | For `1 <= size < 2^32` and `hashCount >= 1`, a new filter has a bit array of length `size`, all entries 0, and `itemsAdded == 0`. |
| `Bloom.BloomFilter.Hash` | index.js:20-26 | The loop returns `HashOf(value, seed, size)`. |
| `Bloom.BloomFilter.Add` | index.js:28-34 | The new bits are `Marked(old bits, probes)`. Every probe reads 1 afterwards. Every other bit is unchanged. `itemsAdded` grows by exactly 1. |
| `Bloom.BloomFilter.Contains` | index.js:36-44 | The early-return loop answers true if and only if every probe lies in the array and reads 1. It changes nothing. |
| `Bloom.BloomFilter.FilledBits` | index.js:58 | The count is at most `size`. It is 0 if and only if no bit is set, and equals `size` if and only if every bit is set. |
| `Bloom.BloomFilter.GetInfo` | index.js:57-69 | Reports the counter, size, probe count and capacity, with a filled-bit count that is at most `size`. |
| `Bloom.AddEach` | index.js:51 | Adding each key in turn leaves the bits at `AddAll(old bits, keys)` and raises `itemsAdded` by the number of keys. |
| `Bloom.AddedKeyIsFound` | test.js:24-31 | On the class, `contains(x)` is true after `add(x)` and any further `add` calls. |

## Left out

- The sizing formulas `calculateOptimalSize` and `calculateOptimalHashCount` (index.js:12-18) use floating point (`Math.log`, `Math.ceil`, `**`). The constructor takes `size >= 1` and `hashCount >= 1` directly. For a positive capacity and a rate in (0, 1), the formulas always give values of that kind.
- `falsePositiveRate` and `fillPercentage` (index.js:5, index.js:59, index.js:65-67) are a float and float division formatted with `toFixed(2)`. `Info` holds only the whole-number statistics.
- `loadFromFile` and `fromFile` (index.js:46-55, index.js:71-75) fetch over the network and log errors. Only their last step, adding each word in turn, is modelled, as `Bloom.AddEach`. The line splitting, trimming and blank-line filtering are not modelled.
- `test.js` is a demonstration driver that logs to the console and patches the loader to read a file. Only its "added keys are found" claims are modelled, as `Bloom.AddedKeyIsFound`.
- The statistical false-positive rate cannot be stated as a deterministic contract. So the model does not claim that `contains` is false for the key `orange` at test.js:32.
- Bloom.BloomFilter.Add: requires `KeyFits` (a non-empty key, or `size > 5381 + hashCount`). For the empty key the hash loop never runs, so the probes are `5381 + 1 .. 5381 + hashCount`, unreduced. In a smaller filter the JavaScript code would write past the end of `bitArray`, and the array would silently grow. The model keeps the array at a fixed length and does not model that growth.
- Bloom.BloomFilter.Contains: a probe past the end of the array is taken to read JavaScript's `undefined`, which is not 1, so the answer is false. This matches the source as long as `add` has never grown the array, which the model's `Add` cannot do.
- JavaScript numbers are doubles. Every intermediate value of the hash is below `33 * max(size, 5382 + hashCount) + 65536`. The first step multiplies the unreduced start value `5381 + seed`. A JavaScript array's length is below 2^32, and the model's filter keeps `size` below that bound. So every value stays far below 2^53 and is exact. The model therefore uses unbounded integers.
- Bloom.BloomFilter.constructor: requires `size < 2^32`. In the source, `new Array(size)` (index.js:7) throws a `RangeError` for a larger size. For example, a capacity of 10^9 at rate 0.01 gives a size of about 9.6 * 10^9. The model has no such error path: a larger size is outside the constructor's precondition.
- Concurrency is not part of the source. The class has one owner.
