# Goodstein-sequence representations in Dafny

This project models the representation layer of the `goodstein-sequence`
Rust crate. That layer writes a number as a sum of powers of a base `K`, and
then classifies the powers for a hereditary (Goodstein) expansion. It has
three pieces, each in its own module:

- `BinaryExponents` (`binary_exponents.dfy`) is the binary draft of
  `Base<K>` in `src/lib.rs`.
  - `from(n)` formats `n` in binary and scans the digits from the least
    significant one upward. It pushes the position of every `1` into a
    vector, then reverses the vector.
  - `compute` folds the list into the sum of `K^e`.
  - `from` is modelled as a method with the source's loop. Its contract
    ties the result to a recursive reference definition: the set-bit
    positions, highest first.
- `BaseDigits` (`base_digits.dfy`) is the base-K `Base<K>` that
  `src/goostein_sequence.rs` imports and that `src/tests.rs` pins down.
  - A number is stored with its base-K digits as `(Multiplier, Power)`
    terms, highest power first, and with a `reduced` flag.
  - `is_power_of` gives the bracketing exponent `e` with `K^e <= n < K^(e+1)`.
  - `to_string` prints the positional digits.
  - The digits run from `e` downward, one term per power, and stop once
    the remainder is 0. So interior zero digits are kept and trailing ones
    are dropped.
  - `reduced` holds exactly when every power is below `K`.
- `Goodstein` (`goodstein.dfy`) is `GoodsteinSeq<K>` with `From<Base<K>>`,
  `get_num` and `get_compute`.
  - Each power `p > K` becomes `NonReduced(Base::<K>::from(p))`.
  - Every other power, including `p == K`, becomes `Reduced(p)`.
  - The expansion goes one level deep.

`Arith` (`arith.dfy`) holds powers and the division facts the proofs rest on.

The const generic `K` becomes a runtime field, `base`. Rust's `u32` becomes
Dafny's unbounded `nat`.

The implementation of the base-K `Base<K>` is not part of this model. This
is the version with `number`, `Multiplier`, `Power`, `reduced`,
`is_power_of` and `Display`; `src/lib.rs` holds an older draft
without them. `BaseDigits` therefore models the behaviour that the
assertions in `src/tests.rs` fix.

Choices the tests fix, and choices the model makes where they do not:

- Trailing zero digits are dropped. `src/tests.rs:101-118` expects
  `[(1,1)]` for 8 and `[(1,2)]` for 64 in base 8, not `[(1,1),(0,0)]`.
- Interior zero digits are kept. `src/tests.rs:140-154` expects 11 in
  base 2 to be `[(1,3),(0,2),(1,1),(1,0)]`, so 100 in base 2 is
  `[(1,6),(1,5),(0,4),(0,3),(1,2)]`. The list `[6,5,2]` is what the binary
  draft's `from` returns, and `BinaryExponents.Hundred` states it.
- 0 decomposes to the single term `(0,0)`. This is the model's own choice;
  no test fixes it.
- On an exact power, `is_power_of` returns the flag `true`. This is the
  model's own choice; no test fixes it.
- Bases outside 2..36 are excluded by preconditions. They are not
  rejected with an error.

## Model

| member | source | states |
|---|---|---|
| BinaryExponents.Compute | src/lib.rs:10-15 | `compute`, the left fold of `acc + K^e`; no ensures of its own, its contract is carried by `ComputeIsSum` and `RoundTrip` |
| BaseDigits.Compute | src/tests.rs:161-171 | `compute`, the sum of `multiplier * K^power`; no ensures of its own, its contract is carried by `FromNumberRoundTrip` |
| BaseDigits.Into | src/tests.rs:136-137 | `Into<u32>`, the stored number; no ensures of its own, its contract is carried by `FromNumberRoundTrip` |
| BaseDigits.ToString | src/tests.rs:6-59 | `to_string`, the digits from the top power down to power 0; no ensures of its own, its contract is carried by `DisplayMatchesRadix` |
| Goodstein.GetNum | src/goostein_sequence.rs:64-66 | `get_num`; no ensures of its own, its contract is carried by `FromNumberAccessors` |
| Goodstein.GetCompute | src/goostein_sequence.rs:67-69 | `get_compute`; no ensures of its own, its contract is carried by `FromNumberAccessors` and `FromBaseValue` |
| BinaryExponents.ComputeIsSum | src/lib.rs:10-15 | the left fold of `acc + K^e` equals the plain sum of `K^e` over the list; an empty list computes to 0 |
| BinaryExponents.FromNat | src/lib.rs:17-34 | the scan-and-reverse loop returns exactly the set-bit positions of `n`, highest first, whatever `K` is. Also: the list is strictly decreasing; `e` is listed iff bit `e` of `n` is 1; every listed `e` has `2^e <= n`; and at `K = 2`, `compute` gives back `n` |
| BinaryExponents.ScanMatchesSetBits | src/lib.rs:20-31 | scanning the binary digits upward from counter `c` and reversing yields the set-bit positions shifted by `c`, highest first |
| BinaryExponents.SetBitsDecreasing | src/lib.rs:23-31 | the positions are strictly decreasing and none is below the starting counter |
| BinaryExponents.SetBitsMember | src/lib.rs:20-28 | `e` is listed exactly when bit `e - c` of `n` is 1, so each set bit appears once and no other position appears |
| BinaryExponents.SetBitsBound | src/lib.rs:20-27 | every listed position `e` has `2^e <= n`, i.e. lies below the binary length of `n` |
| BinaryExponents.SetBitsSum | src/lib.rs:10-34 | the sum of `2^e` over the positions from counter `c` is `n * 2^c` |
| BinaryExponents.RoundTrip | src/lib.rs:10-34 | at `K = 2`, `compute(from(n)) == n` for every `n` |
| BinaryExponents.Hundred | src/lib.rs:40-47 | `from(100)` lists `[6, 5, 2]` (for any base, by `FromNat`), and `from(0)` lists nothing |
| BaseDigits.IsPowerOf | src/tests.rs:173-180 | `None` exactly when `n < K`; otherwise an exponent `e >= 1` with `K^e <= n < K^(e+1)`, and a flag that is true exactly when `n == K^e` |
| BaseDigits.LogUnique | src/tests.rs:173-180 | only one exponent brackets `n`, so the exponent `is_power_of` reports is determined by the bracket |
| BaseDigits.Digits | src/tests.rs:79-91 | the digits from power `e` down are base-K digits on consecutive powers; the list ends with a nonzero digit unless it is a single term |
| BaseDigits.FromNumber | src/tests.rs:66-118 | `from(n)` keeps `number == n` and the base. Its terms are base-K digits on consecutive powers down from the bracketing exponent, and `reduced` holds iff every power is below `K` |
| BaseDigits.FromNumberRoundTrip | src/tests.rs:161-171 | `compute()`, `number` and `Into<u32>` of `from(n)` all equal `n` |
| BaseDigits.DigitsUnique | src/tests.rs:79-118 | every digit list from power `e` is below `K^(e+1)` and is exactly what the decomposition produces from its value, so the representation is unique |
| BaseDigits.FromNumberCanonical | src/tests.rs:66-118 | a digit list with a nonzero leading digit is exactly `from` of its value |
| BaseDigits.FromNumberShape | src/tests.rs:79-91 | for `n >= 1` the terms start at the bracketing exponent with a nonzero digit and end with a nonzero digit. All multipliers are below `K`, and the powers fall by one from term to term |
| BaseDigits.ReducedIff | src/tests.rs:182-190 | `from(n)` is reduced iff `n < K^K`, iff its top power is below `K` |
| BaseDigits.PowersBelowNumber | src/goostein_sequence.rs:21-22 | every power in the decomposition of `n >= 1` is below `n`, so expanding powers again always terminates |
| BaseDigits.DisplayMatchesRadix | src/tests.rs:6-59 | for every `n` and every base from 2 to 36, `to_string` of `from(n)` equals the standard positional digits by repeated division over `0-9a-z` |
| BaseDigits.Octal18 | src/tests.rs:66-78 | 18 in base 8 is `[(2,1),(2,0)]`, reduced |
| BaseDigits.Octal69 | src/tests.rs:79-91 | 69 in base 8 is `[(1,2),(0,1),(5,0)]`, reduced |
| BaseDigits.Octal10 | src/tests.rs:92-100 | 10 in base 8 is `[(1,1),(2,0)]`, reduced |
| BaseDigits.Octal8 | src/tests.rs:101-109 | 8 in base 8 is `[(1,1)]`, reduced |
| BaseDigits.Octal64 | src/tests.rs:110-118 | 64 in base 8 is `[(1,2)]`, reduced |
| BaseDigits.Base3Eleven | src/tests.rs:121-138 | 11 in base 3 is `[(1,2),(0,1),(2,0)]`, reduced, and converts back to 11 |
| BaseDigits.Base2Eleven | src/tests.rs:140-158 | 11 in base 2 is `[(1,3),(0,2),(1,1),(1,0)]`, not reduced, and converts back to 11 |
| BaseDigits.ComputeAcrossBases | src/tests.rs:161-171 | 11 in bases 2, 3 and 4 computes to the same value, equal to the stored number |
| BaseDigits.IsPowerOfCases | src/tests.rs:173-180 | `is_power_of(3,2) == Some((false,1))`, `is_power_of(11,3) == Some((false,2))`, `is_power_of(2,3) == None` |
| BaseDigits.ReducedCases | src/tests.rs:182-190 | 100 and 4 in base 2 are not reduced; 3 in base 2 is |
| Goodstein.Classify | src/goostein_sequence.rs:21-25 | a power is kept as `Reduced(p)` iff `p <= K`. Otherwise it is expanded at the same base into a number that stores `p`, computes to `p` and only has powers below `p` |
| Goodstein.ClassifyTerms | src/goostein_sequence.rs:15-28 | the mapped list has the input's length, and at each index the multiplier is copied and the power is classified |
| Goodstein.FromBase | src/goostein_sequence.rs:13-35 | `base_number` is the input and `reduced` is copied. There is one classified term per input term, with the same multiplier, and the term is `Reduced` iff its power is at most `K` |
| Goodstein.ClassifyTermsValue | src/goostein_sequence.rs:15-28 | the classified terms stand for the same value as the input terms, counting an expanded power as the value of its expansion |
| Goodstein.FromBaseValue | src/goostein_sequence.rs:67-69 | for any base-K number, `get_compute` of the converted sequence and the value of its classified terms both equal the number's `compute` |
| Goodstein.FromNumberAccessors | src/goostein_sequence.rs:63-69 | for a sequence built from `Base::<K>::from(n)`, `get_num` and `get_compute` both return `n` |
| Goodstein.BelowBaseAllReduced | src/goostein_sequence.rs:21-25 | when every power is below `K`, every classified term is `Reduced` with the original power |
| Goodstein.ReducedAllReduced | src/goostein_sequence.rs:21-34 | converting a reduced `from(n)` yields only `Reduced` terms |
| Goodstein.PowerEqualToBaseKept | src/goostein_sequence.rs:21-25 | 4 in base 2 is not reduced as a `Base`, yet its single term classifies as `Reduced(2)` |
| Goodstein.Generate100 | src/tests.rs:191-195 | for 100 in base 2, `compute` of the number equals `get_compute` of the sequence built from it, and both are 100 |
| Goodstein.EightExpanded | src/goostein_sequence.rs:40-43 | 8 in base 2 classifies as `[(1, NonReduced(3 = 2^1 + 2^0))]`; the expansion is a plain decomposition, not classified again |

## Left out

- `bump_base`, `substract_one` and `Display for GoodsteinSeq`: their
  bodies are `todo!()` in `src/goostein_sequence.rs:57-61,70-75`. No
  base-bump or borrow logic is modelled.
- The `Debug` impl for `GPow` (`src/goostein_sequence.rs:44-56`): it only
  formats output.
- The `paste!` macro, the `radix_fmt::radix` crate and `println!` in
  `src/tests.rs:7-21`. `BaseDigits.Radix` is the reference radix
  conversion in their place. `DisplayMatchesRadix` covers every `n`, where
  the test samples `1..10000`.
- `format!("{n:b}")` in `src/lib.rs:20`: the binary string is modelled as
  its digits, as booleans, least significant first (`Bits`). No string
  formatting is modelled.
- `u32` arithmetic. `K.pow(e)` and the fold's addition in `src/lib.rs:14`
  would panic or wrap on overflow in Rust. The model uses
  unbounded `nat`, so `RoundTrip` and `FromNumberRoundTrip` hold for every
  `n`, including values whose powers do not fit in 32 bits.
- The const generic `K` is a runtime field. `BaseDigits.FromNumber`,
  `Goodstein.Classify` and `Goodstein.FromBase` require `K >= 2`, and
  `BaseDigits.ToString` requires `2 <= K <= 36`. Bases outside that range
  are excluded by these preconditions rather than rejected with an error.
- The search for the bracketing exponent: the model computes it by
  repeated division. Only its result, which `LogUnique` shows is unique,
  is modelled.
- `BaseDigits.IsPowerOf`: on an exact power the flag is the model's own
  choice (true). No test fixes this case.
- `BaseDigits.FromNumber`: the decomposition of 0 as `[(0,0)]` is the
  model's own choice. No test fixes this case.
