# Incremental prime generator, modelled in Dafny

The repository's library exposes one object, `Primes`. It holds two fields:

- `primes_found`: the primes produced so far.
- `current`: the next candidate to test.

The object has three operations:

- `next_prime` steps `current` upward until trial division by the stored primes finds no factor. It then appends that candidate, moves `current` past it and returns it.
- `has_prime(p)` answers whether `p` lies below `current` and occurs among the stored primes, using a binary search.
- `is_prime(n)` (private) performs the trial division. It walks the stored primes in storage order, which is ascending because of the invariant that `next_prime` keeps. It stops at the first prime above the square root of `n`. It answers false as soon as a stored prime divides `n`.

The model has three modules:

- `primes.dfy` (module `PrimeGen`): the class `Primes`. It has the fields `primesFound: seq<nat>` and `current: nat`. The object invariant `Valid()` says that `primesFound` is exactly the ascending sequence of primes in `[2, current)`. `NextPrime` is a method with the source's search loop. `IsPrime` is a read-only method with the source's `for` loop, its early break and its early return. `HasPrime` is a function.
- `primality.dfy` (module `Primality`) holds the mathematics:
  - primality;
  - `PrimesBelow(n)`, the ascending primes below `n`;
  - the proof that trial division by every prime whose square is at most `n` decides primality;
  - Euclid's theorem that a prime exists at or above any bound. `NextPrime` uses it as the ghost bound that makes its search loop terminate.
- `search.dfy` (module `Search`) holds a verified binary search over a sorted sequence. It stands in for the slice search the source calls. Its outcome has the same shape: the index of a match, or the index at which the value would be inserted.

`src/lib.rs` contains only the trial-division generator; no sieve is modelled.

## Model

| member | source | states |
|---|---|---|
| `PrimeGen.Primes.constructor` | src/lib.rs:9-14 | a new generator has no stored primes and `current == 2`, and the invariant holds |
| `PrimeGen.Primes.NextPrime` | src/lib.rs:16-25 | the returned value is the least prime at or above the old `current`. It is appended as the only new element and nothing before it changes. `current` becomes the returned prime plus one, above every stored prime. The invariant (stored primes = primes in `[2, current)`, ascending) is kept |
| `PrimeGen.Primes.IsPrime` | src/lib.rs:31-42 | the answer is false exactly when some stored prime `p` with `p * p <= n` divides `n`. The method changes no state. This holds for every `n`: for 0 and 1 the answer is true, because no stored prime has a square at most `n`. The generator never asks about them, since `current` starts at 2 and only grows |
| `PrimeGen.Primes.DecidesPrimality` | src/lib.rs:17-19 | under the invariant, the trial division of `current` decides exactly whether `current` is prime |
| `PrimeGen.Primes.HasPrime` | src/lib.rs:27-29 | true exactly when `p < current` and `p` occurs in `primesFound`. Equivalently, exactly when `p` is a prime in `[2, current)`. Primes not yet reached are reported absent |
| `PrimeGen.SuccessiveCalls` | src/lib.rs:16-25 | two successive calls return primes `first < second` with no prime strictly between them, and the store grows by exactly `[first, second]`, so the produced sequence is strictly increasing and duplicate-free |
| `PrimeGen.FirstFivePrimes` | src/lib.rs:49-54 | the first five `NextPrime` calls on a new generator return 2, 3, 5, 7, 11 |
| `Search.BinarySearch` | src/lib.rs:28 | on a sorted sequence the search reports a match exactly when the value occurs. A reported index holds the value. Otherwise everything before the insertion point is smaller and everything from it on is larger |
| `Search.SearchBetween` | src/lib.rs:28 | the search narrowed to `[lo, hi)` keeps the same guarantees, given that everything outside the window is already known to be smaller or larger |
| `Primality.PrimesBelow` | src/lib.rs:3-6 | the stored-primes value the invariant demands is strictly increasing and holds exactly the primes in `[2, n)` |
| `Primality.PrimesBelowSkip` | src/lib.rs:17-19 | stepping `current` past a composite candidate leaves the primes below it unchanged, so the loop keeps the invariant |
| `Primality.PrimesBelowAppend` | src/lib.rs:20-22 | stepping `current` past a prime adds exactly that prime at the end, which is what the push does |
| `Primality.TrialDivisionDecidesPrimality` | src/lib.rs:31-42 | for `n >= 2`, suppose every stored value is prime and every prime whose square is at most `n` is stored. Then `n` is prime exactly when no stored prime with square at most `n` divides it |
| `Primality.SmallPrimeFactor` | src/lib.rs:32-39 | a composite `n >= 2` has a prime factor whose square is at most `n`, so the square-root cut-off loses no factor |
| `Primality.SquaresIncrease` | src/lib.rs:34-36 | in an ascending sequence, once a prime's square exceeds `n` so does every later prime's, so breaking out of the loop there is sound |
| `Primality.PrimeAtLeast` | src/lib.rs:17-19 | above any bound there is a prime, so the search loop of `next_prime` ends |

## Left out

- Integer width: the source stores `u64`; the model uses unbounded `nat`. The overflow of `current += 1` (src/lib.rs:18, 22) at the top of the 64-bit range is not modelled.
- Square root: the source computes the trial-division bound as a floating-point square root truncated to an integer (src/lib.rs:32). The model uses the exact integer test `p * p > n` instead. It therefore does not capture any rounding of that bound for inputs near the limit of 64-bit floating-point precision.
- Binary search: the library's own binary search (src/lib.rs:28) is not modelled. `Search.BinarySearch` is a verified search with the same outcome shape. It is stated only for sorted input, which the invariant guarantees here.
- Public field: `primes_found` is a public field, so Rust callers could overwrite it and break the invariant. The model requires the invariant on entry to every operation and does not model outside writes to the field.
- Test module: the `#[cfg(test)]` module (src/lib.rs:45-55) is not modelled as test-harness code. Its one assertion is the postcondition of `PrimeGen.FirstFivePrimes`.
