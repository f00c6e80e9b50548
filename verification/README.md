# LibAFL QEMU helper chain, instrumentation filters, `hash_me` and the sancov 8-bit counter registry

A Dafny model of two small pieces of LibAFL:

- `libafl_qemu/src/helper.rs`:
  - The helper chain `QemuHelperTuple`. Helpers are chained as nested pairs ending in `()`. Each `*_all` hook calls the head helper's hook and then the tail's. The `HOOKS_DO_SIDE_EFFECTS` constant folds over the chain.
  - The instrumentation filters:
    - `QemuFilterList` works as an allow list, a deny list or no filter.
    - The paging filter is a set of physical page ids.
    - The address filter is a list of half-open guest address ranges.
  - `HasInstrumentationFilter::update_filter`, which replaces a helper's filter and flushes the emulator's JIT cache.
  - The 64-bit mixing function `hash_me`.
- `libafl_targets/src/sancov_8bit.rs`: the process-wide registry `COUNTERS_MAPS` and its single entry point `__sanitizer_cov_8bit_counters_init`, which appends one counter map per call.

Modules, one per file:

| file | module | models |
|---|---|---|
| `wrappers.dfy` | `Wrappers` | Rust's `Option` |
| `filters.dfy` | `Filters` | `IsFilter::allowed` for `QemuFilterList`, `HashSet<GuestPhysAddr>` and `Vec<Range<GuestAddr>>` |
| `instrumentation_filter.dfy` | `InstrumentationFilter` | `HasInstrumentationFilter::update_filter` and `Qemu::flush_jit` |
| `helper_tuple.dfy` | `HelperTuple` | `QemuHelper` / `QemuHelperTuple` for `()` and `(Head, Tail)` |
| `hash.dfy` | `Hash` | `hash_me`, as written and as evidently intended |
| `sancov_8bit.dfy` | `Sancov8bit` | `COUNTERS_MAPS` and `__sanitizer_cov_8bit_counters_init` |

Modelling choices:

- **Filter answers.** The pure `allowed` functions are Dafny functions. The range filter's early-return loop is a method, proved equal to the predicate `InSomeRange`: some range holds the address.
- **Updating a filter.** `update_filter` changes a helper in place, so it is a method of a class. The emulator is a class that counts its JIT flushes.
- **The helper chain** is a datatype, `Unit | Pair(head, tail)`.
  - A helper is its identity, its `HOOKS_DO_SIDE_EFFECTS` override (or none, meaning the trait default `true`) and its `post_exec`. `post_exec` is a function from the observers and the exit kind to their updated values. Both are abstract type parameters.
  - The chain's hooks are recursive methods that record each helper call in a `Trace`. Each is proved to produce the calls in declaration order.
  - `post_exec_all` is also proved equal to the left-to-right composition `Compose` of the helpers' updates.
- **`hash_me`** treats a `u64` as a natural number below 2^64.
  - A right shift is repeated halving, xor is defined bit by bit, and `overflowing_mul(..).0` is the product modulo 2^64.
  - The lemmas reason through the bit view `Bit(x, i)`.
- **The counter registry** is a class with a `seq` of counter maps and a ghost history of init calls. The specification function `Registry` maps that history to the expected maps.

The first two lines of `hash_me` are rounds of the common xorshift-multiply integer hash with multiplier 0x45d9f3b, whose finaliser is a plain `x >> 16 ^ x`:

- The third line xors `x` back in, so the whole line reduces to `x >> 16`. The top 16 bits of every output are therefore zero, and every input collides with another.
- `HashMeAsWritten` models the code as written; `HashMe` is the finaliser evidently intended. The difference is recorded under Findings.

## Model

| member | source | states |
|---|---|---|
| `Filters.AllowDenyDisagree` | libafl_qemu/src/helper.rs:158-164 | an allow list answers with the inner filter and a deny list over the same inner filter answers the opposite, on every parameter |
| `Filters.NoneAllowsEverything` | libafl_qemu/src/helper.rs:162 | with no list, every parameter is allowed |
| `Filters.PagingAllowed` | libafl_qemu/src/helper.rs:175-177 | a missing paging id is rejected, an empty set rejects everything, and an accepted id is in the set |
| `Filters.PagingAcceptsMembers` | libafl_qemu/src/helper.rs:175-177 | a present paging id is accepted exactly when the set contains it |
| `Filters.PagingFilterListOnMissingId` | libafl_qemu/src/helper.rs:158-177 | a missing paging id is refused by an allow list and let through by a deny list |
| `Filters.PagingFilterExample` | libafl_qemu/src/helper.rs:175-177 | ids {5, 7}: Some(5) accepted, Some(6) and None rejected |
| `Filters.RangesAllowed` | libafl_qemu/src/helper.rs:185-192 | the early-return scan over the ranges answers true exactly when some range has start <= addr < end |
| `Filters.AddressFilterAllowed` | libafl_qemu/src/helper.rs:180-192 | the address-range filter list answers as `QemuFilterList::allowed` over the range predicate |
| `Filters.EmptyRangesRejectAll` | libafl_qemu/src/helper.rs:185-192 | an empty range list rejects every address |
| `Filters.InvertedRangeNeverMatches` | libafl_qemu/src/helper.rs:187 | a range whose end is not above its start contains no address |
| `Filters.UpperBoundExclusive` | libafl_qemu/src/helper.rs:187 | a range never contains its end, and contains its start iff it is non-empty |
| `Filters.InSomeRangeAppend` | libafl_qemu/src/helper.rs:185-192 | appending a range accepts exactly the old accepted set plus that range's addresses |
| `Filters.AddingRangeKeepsAccepted` | libafl_qemu/src/helper.rs:185-192 | inserting a range at any position never turns an accepted address into a rejected one |
| `Filters.InSomeRangeBySet` | libafl_qemu/src/helper.rs:185-192 | acceptance depends only on which ranges are listed, not their order or repetition |
| `Filters.AddressFilterExample` | libafl_qemu/src/helper.rs:185-192 | ranges [0x10,0x20) and [0x30,0x40): 0x15 and 0x30 accepted, 0x25 and 0x40 rejected, and the deny list gives the opposite answer at each of these |
| `InstrumentationFilter.Qemu.FlushJit` | libafl_qemu/src/helper.rs:205 | a flush increments the emulator's flush count by one |
| `InstrumentationFilter.FilteredHelper.UpdateFilter` | libafl_qemu/src/helper.rs:203-206 | afterwards the filter is the new one and exactly one JIT flush happened, even when the new filter equals the old |
| `InstrumentationFilter.UpdateThenQuery` | libafl_qemu/src/helper.rs:203-206 | after an update, address queries are answered by the new filter |
| `HelperTuple.ChainSideEffectsIffSomeMember` | libafl_qemu/src/helper.rs:70-108 | the chain's `HOOKS_DO_SIDE_EFFECTS` (false for `()`, head or tail for a pair) is true iff some member's constant is true |
| `HelperTuple.DefaultHelpersDoSideEffects` | libafl_qemu/src/helper.rs:16 | a chain whose head keeps the default `true` has side effects; a chain whose members all override it to false has none |
| `HelperTuple.CallsOfPair` | libafl_qemu/src/helper.rs:110-129 | a pair's calls are the head's call followed by the tail's calls |
| `HelperTuple.Dispatch` | libafl_qemu/src/helper.rs:110-129 | a hook run over a chain calls each helper once, in declaration order, and the unit chain makes no call |
| `HelperTuple.InitHooksAll` | libafl_qemu/src/helper.rs:110-116 | `init_hooks_all` calls every helper's `init_hooks` in declaration order |
| `HelperTuple.FirstExecAll` | libafl_qemu/src/helper.rs:118-124 | `first_exec_all` calls every helper's `first_exec` in declaration order |
| `HelperTuple.PreExecAll` | libafl_qemu/src/helper.rs:126-129 | `pre_exec_all` calls every helper's `pre_exec` in declaration order |
| `HelperTuple.ComposeCons` | libafl_qemu/src/helper.rs:131-142 | composing a head before a tail equals running the head and feeding its result to the tail's composition |
| `HelperTuple.PostExecAll` | libafl_qemu/src/helper.rs:131-142 | `post_exec_all` threads the observers and exit kind through every helper in order, yielding the left-to-right composition of their updates, and calls each helper once in order |
| `HelperTuple.DeclarationOrderExample` | libafl_qemu/src/helper.rs:126-129 | helpers A, B, C are called as A, B, C |
| `Hash.HashMeAsWritten` | libafl_qemu/src/helper.rs:264-269 | the output, as written, is the second-round value shifted right by 16, hence below 2^48 |
| `Hash.HashMeAsWrittenIsShift` | libafl_qemu/src/helper.rs:267 | the third line equals a plain right shift by 16 of the second-round value |
| `Hash.HashMeAsWrittenCollides` | libafl_qemu/src/helper.rs:264-269 | as written, every input has a different input with the same hash |
| `Hash.HashMeZero` | libafl_qemu/src/helper.rs:264-269 | both versions map 0 to 0 |
| `Hash.XorShiftBound` | libafl_qemu/src/helper.rs:265 | the xorshift step keeps a u64 a u64 |
| `Hash.UnXorShiftAfterXorShift` | libafl_qemu/src/helper.rs:265 | the xorshift step by 16 is undone by xoring in the shifts by 16, 32 and 48 |
| `Hash.XorShiftAfterUnXorShift` | libafl_qemu/src/helper.rs:265 | the xorshift step is onto the u64 values |
| `Hash.MulModInverse` | libafl_qemu/src/helper.rs:265 | wrapping multiplication by a factor is undone by its inverse modulo 2^64 |
| `Hash.MultiplierCancels` | libafl_qemu/src/helper.rs:265 | wrapping multiplication by 0x45d9f3b is undone by 0xf9e122f8119de1f3 |
| `Hash.MultiplierInverseCancels` | libafl_qemu/src/helper.rs:265 | and the other way round |
| `Hash.UnRoundAfterRound` | libafl_qemu/src/helper.rs:265-266 | each xorshift-multiply round is injective |
| `Hash.RoundAfterUnRound` | libafl_qemu/src/helper.rs:265-266 | each round is onto the u64 values |
| `Hash.HashMeRoundTrip` | libafl_qemu/src/helper.rs:264-269 | the intended mixer is undone by `UnhashMe` |
| `Hash.UnhashMeRoundTrip` | libafl_qemu/src/helper.rs:264-269 | the intended mixer is onto the u64 values: `UnhashMe` is also its right inverse, so with `HashMeRoundTrip` it is a bijection |
| `Hash.HashMeInjective` | libafl_qemu/src/helper.rs:264-269 | the intended mixer maps distinct inputs to distinct outputs |
| `Hash.FlipLowBitKeepsHighBits` | libafl_qemu/src/helper.rs:267 | flipping bit 0 changes a value but not its shift right by 16 |
| `Sancov8bit.CountersMaps.constructor` | libafl_targets/src/sancov_8bit.rs:5 | the registry starts empty |
| `Sancov8bit.CountersMaps.CountersInit` | libafl_targets/src/sancov_8bit.rs:11-14 | an init call with start <= stop appends exactly one map, based at start and stop - start bytes long, leaving earlier maps unchanged |
| `Sancov8bit.RegistryAt` | libafl_targets/src/sancov_8bit.rs:13 | the registry holds one map per init call, in call order, each taken from its call's bounds |
| `Sancov8bit.RegistryAppend` | libafl_targets/src/sancov_8bit.rs:11-14 | later calls only append: nothing is removed, reordered or merged |
| `Sancov8bit.DuplicatesAreKept` | libafl_targets/src/sancov_8bit.rs:13 | registering the same span twice yields two maps |
| `Sancov8bit.RegistryExample` | libafl_targets/src/sancov_8bit.rs:11-14 | registering 8 and then 16 bytes yields those two maps in that order |

## Left out

- **The emulator** (`Qemu`) is modelled only through its count of JIT flushes. `QemuHooks` is not modelled; the hooks arguments of `init_hooks` and `first_exec` carry no state here.
- **The `Qemu` and input arguments** of `pre_exec` and `post_exec` are not modelled: the helpers' default hooks ignore them.
- **`ObserversTuple` and `ExitKind`** are abstract type parameters. Their contents are not modelled.
- **A helper's own state** (`&mut self` in `pre_exec` and `post_exec`) is not modelled. Only the call order and the threaded observers and exit kind are.
- **Only `post_exec`** is a function in the model. The helper hooks `init_hooks`, `first_exec` and `pre_exec` are observed only as recorded calls.
- **`MatchFirstType`, `SplitBorrowExtractFirstType`** and the `StdInstrumentationFilter` / `HasInstrumentationFilter` delegation impls for `(QemuEdgeCoverageHelper, ())` are not part of this model. Neither are `IsAddressFilter` and `IsPagingFilter` (marker traits), nor the `cfg(emulation_mode)` gating.
- **Filter parameter widths.** `GuestAddr` and `GuestPhysAddr` are natural numbers; their 32- or 64-bit width does not affect a comparison or a set lookup. The hasher `H: BuildHasher` of the paging filter's set is not modelled.
- **Raw pointers.** The pointers of `__sanitizer_cov_8bit_counters_init` are addresses. `offset_from` is the difference `stop - start`, under the caller's guarantee `start <= stop`. The counter bytes, `static mut` aliasing and the pointer validity `from_raw_parts_mut` trusts are not modelled.
- **Concurrency** and the unsynchronised access to `COUNTERS_MAPS` are not modelled.

## Findings

| source | as written | input that shows it | evidently intended | confidence | as-written member | corrected member |
|---|---|---|---|---|---|---|
| libafl_qemu/src/helper.rs:267 | `x = (x.overflowing_shr(16).0 ^ x) ^ x` xors `x` in twice, so the line equals `x >> 16`. Bits 0-15 of the second-round value are discarded, the top 16 output bits are always 0, and every input collides with another | 0 and 0x789fff2d0b8ed37b both hash to 0; the second-round value of the latter is 1 | `x = x.overflowing_shr(16).0 ^ x`, the same xorshift as in the two rounds, which makes the mixer a bijection on u64 | not executed | `Hash.HashMeAsWrittenCollides` | `Hash.HashMeRoundTrip` |
