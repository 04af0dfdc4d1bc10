# getEnum: enum index maps from Solidity sources

The repository's Hardhat configuration installs one runtime helper, `getEnum(contractName, enumName)`.
It finds the source file a compiled contract came from and parses it.
It then walks the file's enum declarations and resolves to an object that maps every member's position to its name and every member's name to its position.
The first enum with the requested name is used.
When no enum has that name, the promise is rejected with `"not found"`.

This project models that helper once the artifact lookups and the parser are set aside.

- `EnumIndexMap` (`enum_index_map.dfy`) is the pure map builder.
  `Entries` is the `flatMap` step: two entries per member, position to name and then name to position.
  `FromEntries` is `Object.fromEntries`: it stores the entries in order, so a later entry with a key overwrites an earlier one.
  `IndexMap` puts the two together.
  Keys are the sum type `IndexKey(nat) | NameKey(string)` and values are `IndexVal(nat) | NameVal(string)`.
- `EnumResolver` (`enum_resolver.dfy`) is the selection.
  The visitor's calls to the `EnumDefinition` callback, in traversal order, are the input sequence of `EnumDecl(name, members)`.
  `GetEnum` is the callback loop: a `found` flag lets only the first declaration with the requested name resolve.
  After the loop, it rejects with `"not found"` if nothing matched.
  Ghost counters record how many times `resolve` and `reject` are called.
  `Select` is the reference definition: a walk that stops at the first match.
  `GetEnum` is proved equal to it, and the lemmas state what `Select` promises.

The callback never stops the visitor: every later declaration is still visited and ignored through the `found` flag (hardhat.config.ts:70).
The model's loop therefore visits every declaration.
The rejection reason is the plain string `"not found"` (hardhat.config.ts:82), carried as `Rejected(NotFoundReason)`.

## Model

| member | source | states |
|---|---|---|
| EnumIndexMap.Entries | hardhat.config.ts:74-77 | the flatMap produces exactly two entries per member |
| EnumIndexMap.EntryAt | hardhat.config.ts:74-77 | entry 2i is (position i, name of member i) and entry 2i+1 is (name of member i, position i), in declaration order |
| EnumIndexMap.FromEntries | hardhat.config.ts:73-78 | `Object.fromEntries` holds the key of every entry, and each key holds the value of the last entry with that key |
| EnumIndexMap.FromEntriesKeys | hardhat.config.ts:73 | `Object.fromEntries` adds no key that is not the key of some entry |
| EnumIndexMap.PositionEntryIsLast | hardhat.config.ts:74-75 | entry 2i writes (position i, name of member i), and no later entry writes position i again |
| EnumIndexMap.PositionEntriesAreLast | hardhat.config.ts:74-75 | the same for every position below N at once |
| EnumIndexMap.IndexMap | hardhat.config.ts:73-78 | the resolved object, `FromEntries` of `Entries`: for every i below N, position i maps to the name of member i; its name keys and its key set are stated by the lemmas below |
| EnumIndexMap.NameToIndexLastWins | hardhat.config.ts:73-76 | a member name maps to the position of its last declaration (the later entry overwrites the earlier) |
| EnumIndexMap.NameToIndex | hardhat.config.ts:74-76 | with distinct member names, the name of member i maps to position i |
| EnumIndexMap.KeyIsPositionOrName | hardhat.config.ts:73-78 | every key is a position below N or a declared member name |
| EnumIndexMap.NameIsKey | hardhat.config.ts:74-76 | every declared member name is a key |
| EnumIndexMap.Keys | hardhat.config.ts:73-78 | the keys are exactly the positions 0..N-1 together with the member names, and nothing else |
| EnumIndexMap.IndexMapSnoc | hardhat.config.ts:73-78 | adding a member at the end adds its two entries on top of the map of the earlier members |
| EnumIndexMap.Size | hardhat.config.ts:73-78 | with distinct member names the map has exactly 2N keys |
| EnumIndexMap.RoundTrip | hardhat.config.ts:74-76 | with distinct names the map is its own inverse: position to name to position, and name to position to name, return where they started |
| EnumIndexMap.StatusExample | hardhat.config.ts:73-78 | `enum Status { Pending, Active, Closed }` gives {0: Pending, 1: Active, 2: Closed, Pending: 0, Active: 1, Closed: 2} |
| EnumResolver.GetEnum | hardhat.config.ts:66-82 | the callback loop's outcome equals the first-match walk, is never left pending, and the promise is settled exactly once: one resolve and no reject, or one reject and no resolve |
| EnumResolver.FirstMatchWins | hardhat.config.ts:67-79 | if declaration i is the first with the requested name, the result is the index map of its members, whatever comes later |
| EnumResolver.NotFoundIff | hardhat.config.ts:70-82 | the promise is rejected if and only if no declaration has the requested name, the reason is always "not found", and the outcome is never pending |
| EnumResolver.ResolvedIsFirstMatch | hardhat.config.ts:70-79 | a resolved outcome is the index map of the first declaration with the requested name |
| EnumResolver.NonMatchingIgnored | hardhat.config.ts:70 | inserting a declaration with another name anywhere leaves the outcome unchanged |
| EnumResolver.SelectAppend | hardhat.config.ts:67-82 | visiting two runs of declarations gives the first run's result if it matched and the second run's result otherwise |
| EnumResolver.AppendAfterMatch | hardhat.config.ts:70-79 | declarations appended after a match do not change the outcome |

## Left out

- The configuration object (hardhat.config.ts:5-59): compiler versions, optimizer settings, network flags and the test timeout are inert data.
- The artifact lookups `artifacts.readArtifact` and `artifacts.getBuildInfo` (hardhat.config.ts:64-65) are asynchronous I/O against the build system. Their lookup errors propagate unchanged and are not modelled. The visited declarations are the model's input instead.
- `getFullyQualifiedName` (hardhat.config.ts:3, 65) is a foreign Hardhat utility that is not part of this model.
- `parse` and `visit` from `@solidity-parser/parser` (hardhat.config.ts:1, 68) are not modelled. They are replaced by the sequence of enum declarations in traversal order. A parse error, which would reject the promise with the parser's exception, is left out with them.
- The promise and async plumbing and `extendEnvironment` with `hre.getEnum = ...` (hardhat.config.ts:61-63) are reduced to a method that returns the promise's settlement.
- The TypeScript module augmentation (hardhat.config.ts:91-95) is typing only.
- JavaScript turns the numeric keys into strings, so a member named `"0"` would collide with position 0. Solidity identifiers cannot start with a digit, so the model keeps positions and names as separate kinds of key.
- A Dafny `map` has no key order. The JavaScript object does: integer keys come first in ascending order, then member names in the order they were first inserted, which `Object.keys` exposes. No property of `getEnum` depends on that order, so the model does not keep it.
- Idempotence of repeated calls holds because `Select` and `GetEnum` are deterministic functions of their inputs. No separate lemma states it.
