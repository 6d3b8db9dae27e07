# The `tt` truth-table command of CirKit, in Dafny

CirKit's `tt` command manipulates truth tables. A truth table for n variables
is a `dynamic_bitset` of 2^n bits. Index x is an input assignment; bit j of
the assignment is `(x >> j) & 1`. The command works on the environment's
store of truth tables: an append-only list plus the index of the current
table, -1 while the list is empty.

One run of the command does exactly one of these:
- loads a table from binary, `0x` hexadecimal or `0d<n>:<v>` text;
- draws a random table;
- generates one of three benchmark functions (HWB, MAJ, PRIME);
- extends, shrinks or permutes the current table.

Before the run, the command's validity rules are checked. Afterwards, its log
entry is the current table as binary text.

The model is split into these modules:
- `Bits` (`bits.dfy`): the bitset operations the command relies on. A
  `dynamic_bitset` is a `seq<bool>` whose index i is bit i. This covers
  `to_ulong` (`ToNat`), `dynamic_bitset(n, v)` (`FromNat`), `count`, `any`,
  and the wrap-around successor `inc`.
- `Codec` (`codec.dfy`, with a small `Wrappers` module for `Option`): binary text in `dynamic_bitset` order (first
  character = highest index), `lexical_cast<unsigned>` on decimal text, and
  `std::string::find`.
- `Generators` (`generators.dfy`): the HWB, MAJ and PRIME loops. Each writes
  an `array<bool>` of 2^k entries in place, driven by the counter bitset or by
  a pointer into the ascending primes table.
- `Stores` (`store.dfy`): the store, a class whose `Extend` appends a slot and
  makes it current, and whose `SetCurrent` overwrites the current slot.
- `TtCommand` (`tt_command.dfy`): the options, the validity rules, the effect
  of one run (`CommandEffect`), the imperative `Execute` that carries it out on
  a `Store`, and `Log`.
- `TtProperties` (`tt_properties.dfy`): the lemmas that relate these
  parts.

Routines the command calls but that are defined elsewhere are fields of the
`Env` value passed to `Execute`: `convert_hex2bin`, `tt_extend`, `tt_shrink`,
`tt_permute`, `split_string_pair`, and the random source behind
`random_bitset`. The model states only what the call sites determine: the
result is pushed as a new slot (hex load, random) or replaces the current slot
(transformations). Two more helpers, the one-argument `to_string` and `inc`,
are also defined outside the command. They are modelled with an assumed
behaviour, `Codec.ToBinaryString` and `Bits.Inc` (see "Left out").

The model follows the code in two places:
- A binary load is not restricted to lengths that are powers of two;
  `dynamic_bitset(load)` takes the text's length.
- The binary order is fixed by `dynamic_bitset`: character k of a text of
  length L is index L - 1 - k.

## Model

| member | source | states |
|---|---|---|
| `Bits.ToNat` | src/cli/commands/tt.cpp:127 | the value `to_ulong` reads from a bitset of n bits is below 2^n |
| `Bits.FromNat` | src/cli/commands/tt.cpp:123 | `dynamic_bitset(n, v)` has exactly n bits |
| `Bits.Count` | src/cli/commands/tt.cpp:127 | `count()` is at most the width, and is 0 exactly when `any()` is false |
| `Bits.Any` | src/cli/commands/tt.cpp:129 | `any()` holds exactly when some index of the bitset is set |
| `Bits.Inc` | src/cli/commands/tt.cpp:128-129 | `inc` keeps the width and steps the value to value + 1, wrapping to 0 after 2^n - 1 |
| `Bits.ToNatFromNat` | src/cli/commands/tt.cpp:123 | a counter built from an assignment below 2^n reads back as that assignment |
| `Bits.FromNatToNat` | src/cli/commands/tt.cpp:127 | every bitset equals the bitset built from its own value |
| `Bits.FromNatBit` | src/cli/commands/tt.cpp:101 | index j of `dynamic_bitset(n, v)` is bit j of v, `(v >> j) & 1` |
| `Bits.CountIsWeight` | src/cli/commands/tt.cpp:141 | `count()` of a bitset is the popcount of its value |
| `Bits.AnyIffNonZero` | src/cli/commands/tt.cpp:129 | `any()` holds exactly when the counter's value is not 0, so the do-while loops stop on wrap-around |
| `Bits.IncFromNat` | src/cli/commands/tt.cpp:128 | `inc` on the counter of assignment x gives the counter of x + 1, or the all-zero counter after the last assignment |
| `Bits.ToNatBit` | src/cli/commands/tt.cpp:127 | index j of a bitset is bit j of its `to_ulong` value |
| `Codec.ToBinaryString` | src/cli/commands/tt.cpp:175 | assuming the order of boost's `to_string` (see Left out), `to_string` writes index L - 1 - k as character k, '1' for set bits and '0' otherwise |
| `Codec.ParseBinary` | src/cli/commands/tt.cpp:105 | `dynamic_bitset(text)` has the text's length and sets index i exactly when character L - 1 - i is '1' |
| `Codec.ParseToBinaryString` | src/cli/commands/tt.cpp:101-105 | converting a bitset to text gives binary text, and reading that text back gives the same bitset |
| `Codec.ToBinaryStringParse` | src/cli/commands/tt.cpp:175 | binary text read as a bitset and printed again is the same text |
| `Codec.ParseDecimal` | src/cli/commands/tt.cpp:98-99 | the decimal cast succeeds exactly on non-empty all-digit text |
| `Codec.ParseDecimalString` | src/cli/commands/tt.cpp:98-99 | the decimal text of any number casts back to that number |
| `Codec.Find` | src/cli/commands/tt.cpp:92-93 | `find(':')` is `npos` exactly when there is no ':'; otherwise it is the first position holding ':' |
| `Generators.HwbZeroBitsReadsOutOfRange` | src/cli/commands/tt.cpp:123-127 | with 0 bits the counter is empty and `it.count() - 1u` wraps to an index beyond its end |
| `Generators.HwbReadIndexInRange` | src/cli/commands/tt.cpp:127 | with at least one bit, every counter the loop visits gives an in-range read index |
| `Generators.HwbRead` | src/cli/commands/tt.cpp:127 | for a counter with a set bit, `it[it.count() - 1]` is in range and is the HWB output of the counter's value |
| `Generators.GenerateHwb` | src/cli/commands/tt.cpp:122-129 | the loop fills 2^k entries; each entry x is bit (popcount(x) - 1) of x, and entry 0 is false |
| `Generators.GenerateMaj` | src/cli/commands/tt.cpp:136-143 | the loop visits every assignment from 0 up to the wrap; entry x is popcount(x) > k / 2, over 2^k entries |
| `Generators.GeneratePrime` | src/cli/commands/tt.cpp:150-157 | given an ascending table with an entry of at least 2^k, the scan stops, and entry y is set exactly when y is in the table |
| `Generators.PrimesIn` | src/cli/commands/tt.cpp:151 | the list is strictly ascending and holds exactly the primes in [lo, hi) |
| `Generators.PrimeTableFits` | src/cli/commands/tt.cpp:67 | for at most 10 bits, the primes table is ascending and has an entry of at least 2^k; below 2^k its entries are exactly the primes |
| `Stores.Store.Extend` | src/cli/commands/tt.cpp:104 | appends one empty slot, makes it current, and keeps every earlier slot |
| `Stores.Store.Current` | src/cli/commands/tt.cpp:109 | `current()` is the table stored at the current index, one of the store's tables |
| `Stores.Store.SetCurrent` | src/cli/commands/tt.cpp:105 | overwrites the current slot only; the index and every other slot are unchanged |
| `TtCommand.Violations` | src/cli/commands/tt.cpp:62-76 | the rules pass exactly when one action is selected and it is admissible: a current table for extend/shrink/swap, odd maj, prime at most 10 |
| `TtCommand.LoadEffect` | src/cli/commands/tt.cpp:83-106 | load never replaces a slot; it is a no-op exactly for `0d` text without ':'; only `0d` text can fail a cast; plain text pushes the table read MSB first |
| `TtCommand.DecimalFieldsEffect` | src/cli/commands/tt.cpp:98-105 | the two casts either both succeed, and `dynamic_bitset(2^n, v)` is pushed, or one fails and the cast exception is thrown |
| `TtCommand.CommandEffect` | src/cli/commands/tt.cpp:83-166 | with no action nothing happens; hwb, maj and prime push one table of 2^k entries; random pushes; extend and shrink replace the current table; swap replaces it or fails a cast; only those three ever replace |
| `TtCommand.ApplyTables` | src/cli/commands/tt.cpp:104-105 | a push adds exactly one slot holding the table after the old ones; a replacement overwrites the current slot only; every other slot is kept |
| `TtCommand.ApplyIndex` | src/cli/commands/tt.cpp:104-105 | the new index keeps the store's invariant (-1 exactly when empty, otherwise in range), a push makes the pushed table current, and anything else keeps the index |
| `Generators.PrimeBitsEquals` | src/cli/commands/tt.cpp:150-160 | for at most 10 bits, the table the scan over the primes table leaves is true exactly on the primes below 2^k |
| `TtCommand.PushTable` | src/cli/commands/tt.cpp:104-105 | `extend()` then `current() = t` leaves the old slots followed by t, and t's slot is current |
| `TtCommand.ExecuteLoad` | src/cli/commands/tt.cpp:83-106 | the load branch changes the store exactly as `LoadEffect` says, and throws exactly on a failed cast |
| `TtCommand.ExecuteSwap` | src/cli/commands/tt.cpp:162-166 | a swap whose two indices cast replaces the current slot with the permuted table; a failed cast throws and leaves the store unchanged |
| `TtCommand.Execute` | src/cli/commands/tt.cpp:79-169 | the store afterwards is the old store with the run's effect applied: one pushed slot that becomes current, the current slot replaced, or nothing changed (no-op or failed cast) |
| `TtCommand.Log` | src/cli/commands/tt.cpp:171-181 | no log entry exactly when the current index is -1; otherwise binary text that reads back as the current table |
| `TtProperties.DecimalLoadIsLowBits` | src/cli/commands/tt.cpp:90-105 | `0d<n>:<v>` pushes a table of 2^n entries with entry j = bit j of v; its value is v when v fits |
| `TtProperties.DecimalTextFields` | src/cli/commands/tt.cpp:90-105 | for the text `0d<n>:<v>`, the branch pushes exactly `dynamic_bitset(2^n, v)` |
| `TtProperties.DecimalBranch` | src/cli/commands/tt.cpp:90-105 | any `0d` text whose first ':' is at col, with both fields casting to n and v, pushes `dynamic_bitset(2^n, v)` |
| `TtProperties.DecimalLoadExample` | src/cli/commands/tt.cpp:98-105 | `0d2:3` pushes [1, 1, 0, 0] (indices 0..3) |
| `TtProperties.BinaryLoadExample` | src/cli/commands/tt.cpp:105 | binary text `0110` pushes [0, 1, 1, 0] (indices 0..3): the last character is index 0 |
| `TtProperties.HwbZeroBitsPassesValidation` | src/cli/commands/tt.cpp:62-76 | the validity rules accept `--hwb 0` |
| `TtProperties.PrimeFourExample` | src/cli/commands/tt.cpp:150-157 | PRIME over 4 bits is true exactly at 2, 3, 5, 7, 11 and 13 among assignments 0..15 |
| `TtProperties.MajThreeExample` | src/cli/commands/tt.cpp:136-143 | MAJ over 3 bits is [0,0,0,1,0,1,1,1] for assignments 0..7 |
| `TtProperties.WeightComplement` | src/cli/commands/tt.cpp:141 | complementing all k inputs turns popcount w into k - w |
| `TtProperties.MajSelfDual` | src/cli/commands/tt.cpp:66 | for odd k, complementing all inputs complements the MAJ output |
| `TtProperties.MajEvenWidthTies` | src/cli/commands/tt.cpp:66 | for even k at least 2, some assignment and its complement are both false: the tie the odd-width rule excludes |

## Left out

- The bodies of `convert_hex2bin`, `tt_extend`, `tt_shrink`, `tt_permute` and `split_string_pair` are not part of this model. They are `Env` parameters. So the permutation involution, the extend/shrink round trip and the hex round trip are not stated.
- `--random`: `random_bitset` is an `Env` parameter. The model only records that its table is pushed as a new current slot.
- The `primes` table is defined outside the command. The model gives every prime below 1024 followed by 1031. A scan of at most 10 bits reads no further.
- Option parsing (`boost::program_options`) is left out. The model starts from the parsed options.
- `lexical_cast<unsigned>` is modelled only on non-empty digit strings, and any other text is a failed cast. Its acceptance of a leading sign and its 32-bit range are left out.
- The fixed integer widths are left out. These are the 32-bit `1u << k` / `1 << num_vars` shifts and the `unsigned long` behind `to_ulong`. The model's integers are unbounded.
- The debug-only assertion in `dynamic_bitset(text)` that every character is '0' or '1' is left out. The model reads every character other than '1' as 0, as a release build does.
- The log entry is a one-entry map `{"tt": text}` in the source. The model returns the text as an option.
- `Execute` requires that the validity rules pass. The command framework runs `execute` only after they do.
- The bodies of CirKit's `to_string` (one argument) and `inc` are not part of this model. The model assumes that `to_string` writes boost's order, highest index first, so that it inverts `dynamic_bitset(text)`. It assumes that `inc` is the binary successor with wrap to zero. The `0d` load results (`DecimalFieldsEffect`, `DecimalLoadIsLowBits`, `DecimalLoadExample`), the log text and the HWB/MAJ loop bounds depend on these two assumptions.
- The store's other operations (moving the current index, used by other commands) and the `nct` command are not part of this model.

## Findings

| source | as written | input that shows it | evidently intended | confidence | as-written member | corrected member |
|---|---|---|---|---|---|---|
| src/cli/commands/tt.cpp:122-129 | the HWB do-while body runs once on the counter `dynamic_bitset(hwb, 1)`; with 0 bits the counter is empty, `it.count() - 1u` wraps to 2^64 - 1 and `it[...]` reads past its end | `tt --hwb 0`, which every validity rule accepts | HWB over 0 bits is the one-entry table [false] (or the rules reject 0) | medium, not executed | `Generators.HwbZeroBitsReadsOutOfRange` | `Generators.GenerateHwb` |
