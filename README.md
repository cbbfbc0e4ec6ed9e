# 0Auth server utilities: Merkle root and property projection

This project models two pure pieces of the 0Auth server's utility module
(`packages/server/src/utils.ts`) and proves properties of them in Dafny.

- **Merkle root** (`merkle.dfy`, module `Merkle`). `getMerkleRoot` reduces an
  ordered list of string-encoded property values to one root string, one level
  at a time. Each level pairs adjacent nodes from left to right. It hashes the
  string concatenation of each pair. An odd trailing node is carried up to the
  next level **unhashed**. A one-node level is the root. `NextLevel` is the
  pure level function and `Root` is the recursive root. `GetMerkleRoot` is the
  source's algorithm: a loop in steps of two builds `parentNodes`, then the
  method recurses. It is proved to return `Root`. The hash function is a
  parameter `hash: string -> string`. Nothing is assumed about it, so every
  result holds for any hash function.
- **Property projection** (`property_map.dfy`, module `PropertyMap`).
  `propertyObject` folds a list of `{type, key, value}` properties into a
  string dictionary. It skips properties of type `Hash`, and a later property
  overwrites an earlier one with the same key. `objectToProperty` lists a
  dictionary as `Raw` properties, one per key.

## Model

| member | source | states |
|---|---|---|
| `Merkle.NextLevel` | packages/server/src/utils.ts:9-16 | the level above is never longer than the level, strictly shorter once the level has two or more nodes, and empty exactly when the level is empty |
| `Merkle.NextLevelLength` | packages/server/src/utils.ts:9-16 | a level of n nodes has ceil(n/2) nodes above it, which is fewer than n when n >= 2 and never zero when n > 0, so the recursion ends on every non-empty input |
| `Merkle.NextLevelEmpty` | packages/server/src/utils.ts:9-18 | the level above is empty exactly when the level is empty, so on empty input the recursion calls itself on `[]` for ever; this is why a non-empty input is required |
| `Merkle.NextLevelPair` | packages/server/src/utils.ts:10-12 | node i of the level above, for i < n/2, is `hash(p[2i] + p[2i+1])`, pairs taken left to right |
| `Merkle.NextLevelCarry` | packages/server/src/utils.ts:14-16 | on an odd-length level, the last node above is the last node `p[n-1]` itself, not hashed |
| `Merkle.NextLevelUnique` | packages/server/src/utils.ts:9-16 | length, pairs and carried node together determine the level above: any sequence with all three is it |
| `Merkle.Root` | packages/server/src/utils.ts:6-19 | a one-node level is its own root; the root of two or more leaves is always a hash output, never a leaf carried up unhashed |
| `Merkle.GetMerkleRoot` | packages/server/src/utils.ts:6-19 | the loop-and-recursion algorithm returns `Root` of its input on every non-empty input; a one-node level is returned unchanged at every recursion depth; the number of hash calls it makes is `HashCalls` of its input, and its recursion depth is `Height` of its input |
| `Merkle.HashCallsTotal` | packages/server/src/utils.ts:10-11 | over all levels the reduction of n leaves calls the hash exactly n - 1 times, so with `GetMerkleRoot`'s count the algorithm makes n - 1 hash calls |
| `Merkle.HeightIsCeilLog2` | packages/server/src/utils.ts:6-18 | the recursion depth d over n leaves (the `depth` that `GetMerkleRoot` is proved to reach) is ceil(log2 n): n <= 2^d, and 2^(d-1) < n when d > 0 |
| `Merkle.RootOfOne` | packages/server/src/utils.ts:7 | `[a]` has root `a` |
| `Merkle.RootOfTwo` | packages/server/src/utils.ts:6-18 | `[a, b]` has root `hash(a + b)` |
| `Merkle.RootOfThree` | packages/server/src/utils.ts:6-18 | `[a, b, c]` has first level `[hash(a + b), c]` and root `hash(hash(a + b) + c)` |
| `Merkle.RootNotOrderSensitive` | packages/server/src/utils.ts:10-11 | for every hash, the different leaf orders `["x", "xx"]` and `["xx", "x"]` both have the root `hash("xxx")`, because pairs are joined by plain concatenation |
| `Merkle.RootNotOrderSensitiveFour` | packages/server/src/utils.ts:6-18 | for every hash, `["p", "qr", "pq", "r"]` and `["pq", "r", "p", "qr"]` have the same level `[hash("pqr"), hash("pqr")]` above them and so the same root |
| `Merkle.RootSwapNeedsCollision` | packages/server/src/utils.ts:6-18 | when swapping two distinct leaves of equal length keeps the root, the two concatenations `a + b` and `b + a` differ but hash to the same value, so the hash has a collision |
| `PropertyMap.PropertyObject` | packages/server/src/utils.ts:81-94 | every entry of the dictionary comes from the list: for each key k, the list holds a `Raw` property with key k and the value the dictionary gives k |
| `PropertyMap.PropertyObjectKeys` | packages/server/src/utils.ts:81-93 | the dictionary's key set is exactly the set of keys of the non-Hash properties; an empty or all-Hash list gives the empty dictionary |
| `PropertyMap.PropertyObjectLastWins` | packages/server/src/utils.ts:84-88 | when the last non-Hash property with key k is at index i, the dictionary maps k to that property's value |
| `PropertyMap.PropertyObjectValue` | packages/server/src/utils.ts:82-93 | every key of the dictionary has a last non-Hash property with that key, and the dictionary holds that property's value |
| `PropertyMap.PropertyObjectIgnoresHashed` | packages/server/src/utils.ts:84-90 | dropping every Hash property from the list first gives the same dictionary |
| `PropertyMap.PropertyObjectAppend` | packages/server/src/utils.ts:82-93 | the fold over `front + back` is the fold over `front` overridden by the fold over `back` |
| `PropertyMap.EnumerationExists` | packages/server/src/utils.ts:96-97 | every dictionary has a key order listing each of its keys exactly once, so the lemmas about `ObjectToProperty` cover every dictionary `Object.keys` can be applied to |
| `PropertyMap.ObjectToProperty` | packages/server/src/utils.ts:96-102 | the list has as many entries as the dictionary has keys, and each entry is `Raw` with a key of the dictionary and the value the dictionary holds there |
| `PropertyMap.ObjectToPropertyOnePerKey` | packages/server/src/utils.ts:96-101 | the list has one property per dictionary key: as many entries as keys, no key twice, every key present, each entry `Raw` with the value the dictionary holds |
| `PropertyMap.ObjectToPropertyRoundTrip` | packages/server/src/utils.ts:81-101 | folding the listed properties back gives the original dictionary, whatever the key order |
| `PropertyMap.PropertyObjectRoundTripAnyOrder` | packages/server/src/utils.ts:81-101 | a list of `Raw` properties with distinct keys, folded and listed back in any key order `Object.keys` may choose, is a permutation of the original list |
| `PropertyMap.PropertyObjectRoundTrip` | packages/server/src/utils.ts:81-101 | a list of `Raw` properties with distinct keys is folded and listed back, in its own key order, unchanged |

The hash is a function parameter and no member assumes anything about it, so
these statements hold for every hash function. No collision resistance is
assumed anywhere; `RootSwapNeedsCollision` concludes a collision instead.

`propertyObject` is `Array.prototype.reduce` from `{}`. The model writes this
left fold recursively from the end: the result for a list is one `Absorb`
step applied to the result for all but its last element. The object spread
`{...dict, [key]: value}` is the map update `dict[key := value]`.

## Left out

- The empty Merkle input. The source has no error for it: the loop does not run, `parentNodes` stays `[]`, and the function calls itself on `[]` again and again. V8 (Node.js) does not eliminate tail calls, so in practice this ends in a thrown `RangeError` (maximum call stack size exceeded); that exception is not modelled. `Root` and `GetMerkleRoot` therefore require a non-empty list (see `NextLevelEmpty`).
- `publicKeyFromKeyString`, `signByKeyType` and `verifyByKeyType` (packages/server/src/utils.ts:21-79). They wrap the `elliptic` library's secp256k1 ECDSA and Ed25519 code, and that cryptography cannot be stated here. The sign/verify round trip for each key type and the "Unreachable Code" default branches are left out with them.
- The body of the `hash` function from `@0auth/message`. It stays a parameter with no properties. The root is not order sensitive in general, whatever the hash: pairs are joined by plain `+`, so two leaf orders whose pair concatenations agree give the same root (`RootNotOrderSensitive`, `RootNotOrderSensitiveFour`). Order sensitivity holds at best for leaves of equal length and a hash without collisions on the inputs that occur; for two leaves this is stated as: a swap of distinct equal-length leaves that keeps the root exhibits a collision (`RootSwapNeedsCollision`).
- The iteration order of `Object.keys`. `ObjectToProperty` takes the key order as its `keys` argument. It requires only that `keys` lists each key of the dictionary exactly once (`Enumerates`), which is what `Object.keys` guarantees. Every lemma about it holds for every such order.
- `Property` and `PropertyType` are defined in `@0auth/message`, which is not part of this model. `PropertyType` is modelled as `Raw | Hash`. The fold tests only `kind != Hash`, so further types would behave like `Raw`.
- JavaScript's dynamic typing. Reading a missing key or a non-string value cannot happen in the model.
- JavaScript strings are sequences of UTF-16 code units, while a Dafny `string` is a sequence of Unicode scalar values. Keys, values and hash inputs holding a lone surrogate cannot be represented. This core only concatenates and compares strings, so nothing else depends on the difference.
