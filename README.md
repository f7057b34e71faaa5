# stream-wallet-api-js: amount codec, in-memory key store and key-file bootstrap

This project is a Dafny model of three pieces of the STREAM wallet SDK, with proofs about each.

- **The fixed-point amount codec** (`utils/format.ts`). It converts between decimal STREAM strings such as `1,234.5` and integer amounts of indivisible units, at 10^24 units per STREAM.
  - `formatStreamAmount` adds a precomputed rounding offset and splits the printed balance at 24 digits. It groups the whole part with commas and trims trailing fraction zeros.
  - `parseStreamAmount` removes commas and surrounding whitespace and splits at `.`. It rejects a second dot and more than 24 fraction digits, pads the fraction to 24 digits and drops leading zeros.
  - `BN` values are naturals and strings are `seq<char>`. Each regular expression is modelled by the match it computes.
  - The module-level loop that fills `ROUNDING_OFFSETS` and the `while` loop of `formatWithCommas` are methods with loop invariants. Each is proved against a function (`IsRoundingTable`, `Grouped`).
  - `formatStreamAmount` is a method that reads the table and calls `FormatWithCommas`. It is proved equal to the function `FormatSpec`, and the lemmas are stated about `FormatSpec`.
- **`InMemoryKeyStore`** (`key_stores/in_memory_key_store.ts`). It is a class whose `keys` field is the dictionary from `<accountId>:<networkId>` to the string form of a key pair.
  - A ghost field `entries` records the (network, account) pairs that were set and not removed since. `Valid()` ties the dictionary's keys to those pairs.
  - `getNetworks` and `getAccounts` are methods whose loops walk the stored keys.
- **The key-file step of `connect`** (`connect.ts`, lines 44-66). When both a key path and a key store are configured, the key read from the file is put in a fresh in-memory store. That store is merged in front of the configured one, and the file's account becomes the master account unless one is already set.

Files:
- `wrappers.dfy`: `Option`.
- `strings.dfy`: `split`/`join` on one separator, and decimal digit strings read as naturals.
- `format.dfy`: the amount codec.
- `key_pair.dfy`: the string form of a key pair.
- `in_memory_key_store.dfy`: the key store.
- `connect.dfy`: the `connect` step.

Paths below are relative to the repository root.

## Model

| member | source | states |
|---|---|---|
| Format.NominationIsPower | packages/stream-wallet-api-js/src/utils/format.ts:6-11 | `STREAM_NOMINATION` is 10 to the power `STREAM_NOMINATION_EXP` = 24 |
| Format.FillOffsets | packages/stream-wallet-api-js/src/utils/format.ts:16-18 | after `count` rounds of the loop, the table holds `count` entries and entry `i` is 5·10^i |
| Format.BuildRoundingOffsets | packages/stream-wallet-api-js/src/utils/format.ts:14-18 | `ROUNDING_OFFSETS` has 24 entries, and `ROUNDING_OFFSETS[i] == 5·10^i` |
| Format.FormatWithCommas | packages/stream-wallet-api-js/src/utils/format.ts:101-107 | repeatedly applying `/(-?\d+)(\d{3})/ → '$1,$2'` to a digit string until it no longer matches yields the digits with a comma before every block of three counted from the right (`Grouped`) |
| Format.CommaPositionOfPartial | packages/stream-wallet-api-js/src/utils/format.ts:102-104 | while the loop runs, the pattern matches exactly when at least four digits lead, and the comma goes before the last three of them; otherwise the loop stops |
| Format.GroupedDigits | packages/stream-wallet-api-js/src/utils/format.ts:101-107 | deleting the commas from a grouped digit string gives back the input |
| Format.GroupedBlocks | packages/stream-wallet-api-js/src/utils/format.ts:101-107 | split at commas, a grouped non-empty digit string has a first block of 1-3 digits, and every later block has exactly 3 |
| Format.GroupedChars | packages/stream-wallet-api-js/src/utils/format.ts:101-107 | a grouped digit string holds only digits and commas, and starts and ends with a digit |
| Format.TrimZeroFraction | packages/stream-wallet-api-js/src/utils/format.ts:79-81 | `/\.?0*$/` removes an all-zero fraction together with its dot |
| Format.TrimTrailingZeroes | packages/stream-wallet-api-js/src/utils/format.ts:79-81 | the result is a prefix of the input, the removed suffix matches `/\.?0*$/`, and no suffix starting earlier matches, as the leftmost match of `replace` requires |
| Format.TrimNonZeroFraction | packages/stream-wallet-api-js/src/utils/format.ts:79-81 | when some fraction digit is not `0`, `/\.?0*$/` keeps the fraction up to its last non-zero digit and removes only the zeros after it |
| Format.TrimLeadingZeroes | packages/stream-wallet-api-js/src/utils/format.ts:88-94 | the result is never empty and starts with `0` only when it is `"0"`; on digits it is canonical and has the input's value |
| Format.TrimLeadingZeroesIsDecimal | packages/stream-wallet-api-js/src/utils/format.ts:88-94 | on digits, trimming leading zeros prints the value the way `BN.toString()` does |
| Format.CleanupAmount | packages/stream-wallet-api-js/src/utils/format.ts:70-72 | the result holds no comma and neither starts nor ends with JavaScript whitespace |
| Format.CleanupPiece | packages/stream-wallet-api-js/src/utils/format.ts:70-72 | the cleaned-up amount is a contiguous piece of the comma-free input, and everything cut off before and after it is whitespace |
| Format.RemoveAllKeeps | packages/stream-wallet-api-js/src/utils/format.ts:71 | `replace(/,/g, '')` keeps every character other than a comma, in order, between what it keeps before and after it |
| Format.RemoveAllLength | packages/stream-wallet-api-js/src/utils/format.ts:71 | `replace(/,/g, '')` shortens the string by exactly its number of commas |
| Format.TrimStart | packages/stream-wallet-api-js/src/utils/format.ts:71 | the start of `trim()`: the result is a suffix of the input, everything dropped is whitespace, and the result does not start with whitespace |
| Format.TrimEnd | packages/stream-wallet-api-js/src/utils/format.ts:71 | the end of `trim()`: the result is a prefix of the input, everything dropped is whitespace, and the result does not end with whitespace |
| Format.CleanupUnchanged | packages/stream-wallet-api-js/src/utils/format.ts:70-72 | cleanup leaves a comma-free string unchanged when its ends are not whitespace |
| Format.ParseStreamAmount | packages/stream-wallet-api-js/src/utils/format.ts:53-63 | `null` comes back exactly for an undefined or empty argument; an error carries the cleaned-up argument; an amount in units is never empty and has no leading zero unless it is `"0"` |
| Format.ParseErrors | packages/stream-wallet-api-js/src/utils/format.ts:55-61 | a non-empty argument throws exactly when its cleaned-up form has more than one `.`, or one `.` followed by more than 24 characters; the error names the cleaned-up form |
| Format.ParseScales | packages/stream-wallet-api-js/src/utils/format.ts:53-63 | an argument that cleans up to digits `w`, a dot and at most 24 digits `f` parses to the decimal of w·10^24 + f·10^(24-\|f\|) |
| Format.ParseScalesWhole | packages/stream-wallet-api-js/src/utils/format.ts:53-63 | an argument that cleans up to digits `w` with no dot parses to the decimal of w·10^24 |
| Format.AdjustmentFromTable | packages/stream-wallet-api-js/src/utils/format.ts:30-35 | the amount added to the balance is the table entry at `roundingExp = 24 - fracDigits - 1` when `fracDigits != 24` and `roundingExp > 0`, and 0 otherwise |
| Format.FormatStreamAmount | packages/stream-wallet-api-js/src/utils/format.ts:28-44 | the method computes `FormatSpec`: the adjusted balance printed, split at 24 digits, the whole part grouped, the fraction cut to `fracDigits` digits, joined with `.` and trimmed |
| Format.NominationShape | packages/stream-wallet-api-js/src/utils/format.ts:38-41 | the whole part of the printed balance is canonical, and its fraction part is exactly 24 digits |
| Format.NominationSplit | packages/stream-wallet-api-js/src/utils/format.ts:38-41 | the whole part is worth the balance divided by 10^24, and the padded fraction is worth the remainder |
| Format.ParseOfRender | packages/stream-wallet-api-js/src/utils/format.ts:38-63 | parsing the display of a balance of `n` units with `fracDigits` digits gives `n` rounded down to a multiple of 10^(24-fracDigits) |
| Format.RoundTrip | packages/stream-wallet-api-js/src/utils/format.ts:28-63 | for every canonical digit string `x`, `parseStreamAmount(formatStreamAmount(x)) == x` |
| Format.FullPrecisionUnrounded | packages/stream-wallet-api-js/src/utils/format.ts:30 | at `fracDigits == 24` (the default) the balance is not adjusted |
| Format.Render | packages/stream-wallet-api-js/src/utils/format.ts:38-43 | the display of a balance, and so every result of `formatStreamAmount`, is non-empty and ends in a digit, never in `.`, and it does not end in `0` when a dot is left |
| Format.FormatWholeAmount | packages/stream-wallet-api-js/src/utils/format.ts:38-43 | at full precision an exact multiple of 10^24 units prints as the grouped whole number of STREAM alone, with no dot |
| Format.AdjustmentAgrees | packages/stream-wallet-api-js/src/utils/format.ts:32-35 | the adjustment as written equals half of the last place shown for every `fracDigits` except 23 |
| Format.RoundsHalfUpAsWritten | packages/stream-wallet-api-js/src/utils/format.ts:28-44 | as written, with fewer than 23 fraction digits, the display parses back to the balance rounded half-up to the last digit shown |
| Format.TruncatesAt23 | packages/stream-wallet-api-js/src/utils/format.ts:32-35 | as written, a display with 23 fraction digits parses back to the balance rounded down to a multiple of 10 |
| Format.RoundingCounterexample | packages/stream-wallet-api-js/src/utils/format.ts:33 | a balance of 19 units shown with 23 digits parses back to `"10"`, which is not 19 rounded half-up; with `>= 0` it parses back to `"20"` |
| Format.RoundsHalfUp | packages/stream-wallet-api-js/src/utils/format.ts:25-35 | with the offset added whenever `roundingExp >= 0`, a display with fewer than 24 digits parses back to the balance rounded half-up to the last digit shown |
| Strings.SplitShape | packages/stream-wallet-api-js/src/utils/format.ts:56-59 | `split` gives one more segment than there are separators, and no segment holds the separator |
| Strings.JoinSplit | packages/stream-wallet-api-js/src/key_stores/in_memory_key_store.ts:100-102 | joining the segments of a split with the same separator gives back the string |
| Strings.FirstSegment | packages/stream-wallet-api-js/src/utils/format.ts:56-57 | segment `[0]` of a split is the text before the first separator, or the whole string when there is none |
| Strings.SplitOnce | packages/stream-wallet-api-js/src/utils/format.ts:56-58 | a string with one separator splits into the text before it and the text after it |
| Strings.SplitConcat | packages/stream-wallet-api-js/src/key_stores/in_memory_key_store.ts:87 | splitting `a + sep + b` gives the segments of `a` followed by the segments of `b` |
| Strings.JoinLast | packages/stream-wallet-api-js/src/key_stores/in_memory_key_store.ts:102 | joining `n >= 2` segments is joining the first `n - 1`, the separator and the last one |
| Strings.DecimalOfValue | packages/stream-wallet-api-js/src/utils/format.ts:38 | `BN.toString()` prints a natural in canonical decimal digits that read back as that natural |
| Strings.ValueOfDecimal | packages/stream-wallet-api-js/src/utils/format.ts:29 | `new BN(s, 10)` on canonical digits is the natural whose printing is `s` again |
| KeyPairs.KeyPairRoundTrip | packages/stream-wallet-api-js/src/key_stores/in_memory_key_store.ts:47-61 | reading back the string form of a key pair gives the same key pair |
| KeyPairs.KeyPairStringRoundTrip | packages/stream-wallet-api-js/src/key_stores/in_memory_key_store.ts:47-61 | writing back a key pair read from a string with a curve prefix gives the same string |
| InMemoryKeyStores.KeyRejoins | packages/stream-wallet-api-js/src/key_stores/in_memory_key_store.ts:100-102 | a key holding a colon is its account part, a colon and its last segment, so `getAccounts` loses nothing when it takes a key apart |
| InMemoryKeyStores.StorageKey | packages/stream-wallet-api-js/src/key_stores/in_memory_key_store.ts:47 | the key `` `${accountId}:${networkId}` `` always holds a colon, the separator that `getNetworks` and `getAccounts` split keys at |
| InMemoryKeyStores.StorageKeyInjective | packages/stream-wallet-api-js/src/key_stores/in_memory_key_store.ts:47 | two entries whose networks hold no colon have the same key only when they have the same account and network |
| InMemoryKeyStores.StorageKeyParts | packages/stream-wallet-api-js/src/key_stores/in_memory_key_store.ts:47-102 | for a colon-free network, the last segment of `` `${accountId}:${networkId}` `` is the network, and the rest is the account, whatever the account holds |
| InMemoryKeyStores.StorageKeyNetwork | packages/stream-wallet-api-js/src/key_stores/in_memory_key_store.ts:47-88 | for a colon-free account and network, segment `[1]` of the storage key is the network |
| InMemoryKeyStores.NetworksWithColonAccount | packages/stream-wallet-api-js/src/key_stores/in_memory_key_store.ts:87-88 | an account `a:x` stored on network `n` is reported by `getNetworks` under `x`, not under `n` |
| InMemoryKeyStores.NetworksOfEntries | packages/stream-wallet-api-js/src/key_stores/in_memory_key_store.ts:84-91 | with no colon in any account or network, the networks reported are exactly those that have an entry |
| InMemoryKeyStores.AccountsOfEntries | packages/stream-wallet-api-js/src/key_stores/in_memory_key_store.ts:97-106 | with no colon in any network, the accounts reported for `n` are exactly those with an entry on `n` |
| InMemoryKeyStores.InMemoryKeyStore.constructor | packages/stream-wallet-api-js/src/key_stores/in_memory_key_store.ts:35-38 | a new store is empty |
| InMemoryKeyStores.InMemoryKeyStore.GetKey | packages/stream-wallet-api-js/src/key_stores/in_memory_key_store.ts:56-62 | `null` exactly when no entry is stored under the key; otherwise a key pair whose string form is the stored value |
| InMemoryKeyStores.InMemoryKeyStore.SetKey | packages/stream-wallet-api-js/src/key_stores/in_memory_key_store.ts:46-48 | stores the key pair's string under `` `${accountId}:${networkId}` ``, after which `getKey` returns that key pair; every other lookup is unchanged |
| InMemoryKeyStores.InMemoryKeyStore.RemoveKey | packages/stream-wallet-api-js/src/key_stores/in_memory_key_store.ts:69-71 | deletes only that key, after which `getKey` returns `null`; it changes nothing when the key is absent, and every other lookup is unchanged |
| InMemoryKeyStores.InMemoryKeyStore.Clear | packages/stream-wallet-api-js/src/key_stores/in_memory_key_store.ts:76-78 | the store is empty and every `getKey` returns `null` |
| InMemoryKeyStores.InMemoryKeyStore.GetNetworks | packages/stream-wallet-api-js/src/key_stores/in_memory_key_store.ts:84-91 | reports segment `[1]` of every stored key, each once; with colon-free ids these are exactly the networks that have an entry |
| InMemoryKeyStores.InMemoryKeyStore.GetAccounts | packages/stream-wallet-api-js/src/key_stores/in_memory_key_store.ts:97-106 | for every key whose last segment is `networkId`, reports the segments before it joined with `:`, with no account twice; with colon-free networks these are exactly the accounts with an entry on `networkId` |
| InMemoryKeyStores.EnumerationsAfterClear | packages/stream-wallet-api-js/src/key_stores/in_memory_key_store.ts:76-106 | after `clear()`, `getNetworks()` and `getAccounts(n)` return empty arrays |
| InMemoryKeyStores.AccountsPerNetwork | packages/stream-wallet-api-js/src/key_stores/in_memory_key_store.ts:97-106 | after setting one key on each of two colon-free networks, `getAccounts` reports each account for its own network only, and nothing for a third network |
| InMemoryKeyStores.AccountsOfTwoEntryStore | packages/stream-wallet-api-js/src/key_stores/in_memory_key_store.ts:97-106 | `getAccounts(n)` on such a two-entry store returns `[a1]`, `[a2]` or `[]` according to `n` |
| Connect.ConnectConfig.constructor | packages/stream-wallet-api-js/src/connect.ts:32-37 | a configuration holds the given network, key path, key store and master account |
| Connect.Connect | packages/stream-wallet-api-js/src/connect.ts:44-66 | without both a key path and a key store, or when reading the file fails, or when the file names no account, the configuration is unchanged; otherwise a fresh store holds exactly the loaded key under (configured network, file's account), `keyStore` becomes `Merge([fresh, old], 1)`, and `masterAccount` is set to the file's account only when it was unset |

## Left out

- Format.FormatStreamAmount: requires a string of decimal digits and `fracDigits <= 24`. Negative balances, non-digit input and fractional or larger `fracDigits` depend on the `BN` parser and on JavaScript number semantics, and they are not modelled.
- Format.FormatWithCommas: requires a digit string, which is all `formatStreamAmount` passes it. The optional `-` of the pattern is not modelled.
- Format.ParseErrors: lengths are counted in characters (Unicode scalar values), whereas JavaScript's `length` counts UTF-16 code units. A fraction holding characters outside the Basic Multilingual Plane, such as `"0." + "😀".repeat(13)`, is 13 characters here but 26 code units in JavaScript, so the model accepts it while the source throws. The same applies to `Format.ParseStreamAmount`; on the digit strings the lemmas about values require, the two counts agree.
- Format.ParseStreamAmount: non-digit characters are not rejected, as in the source. The lemmas about values (`ParseScales`, `RoundTrip`) require digit input.
- The order of `getNetworks` and `getAccounts` results is not modelled. `Object.keys` insertion order and `Set` iteration order are replaced by taking the stored keys in an unspecified order, so only the contents and the absence of duplicates are stated.
- `async`/`Promise`: every store method is synchronous.
- `InMemoryKeyStore.toString`: it returns a constant name.
- `KeyPair`: `utils/key_pair.ts` is not part of this model. A key pair is a curve name without `:` and an encoded key, written as `<curve>:<key>` and read back by splitting at the first `:`. The round trip is proved for this stand-in rather than taken as given. Key generation, signing, base58 encoding and the error for an unknown curve are left out.
- `readKeyFile` is an I/O call. Its outcome is a parameter of `Connect.Connect`: it failed (the caught exception), or it gave an account id and a key pair.
- `MergeKeyStore` is not part of this model. It appears only as a record of its member stores and `writeKeyStoreIndex`, with no read or write behaviour.
- Logging is not modelled: the `console.log` message, the `STREAM_NO_LOGS` environment check and `logWarning`. `Connect.Connect` returns which branch was taken instead.
- `new Stream(config)`, `global.fetch` and the rest of `connect.ts` outside lines 44-66 are not modelled.

## Findings

| source | as written | input that shows it | evidently intended | confidence | as-written member | corrected member |
|---|---|---|---|---|---|---|
| packages/stream-wallet-api-js/src/utils/format.ts:33 | `if (roundingExp > 0)` skips the offset when `roundingExp == 0`, that is at `fracDigits == 23`, so that precision is truncated instead of rounded | `formatStreamAmount("19", 23)` shows `0.00000000000000000000001`, which parses back to `"10"` | `roundingExp >= 0`: add 5 whenever one digit is cut, showing `0.00000000000000000000002`, which parses back to `"20"`, as every other precision rounds half-up | medium, not executed | Format.RoundingCounterexample | Format.RoundsHalfUp |
