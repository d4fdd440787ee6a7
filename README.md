# Semaphore Noir adapter — a Dafny model

This project models the adapter layer that lets Semaphore proofs be produced
and checked by a Noir circuit with the UltraHonk proving backend. It covers
three parts:

- `generateProof` checks its arguments and turns message and scope into bigints.
- It then resolves the tree depth and derives one index bit per tree level.
- It pads the caller's Merkle proof siblings to the depth. This happens in
  place, on the caller's own array.
- It packs the circuit inputs in their fixed layout: the index bits as 64-digit
  hex, 32 sibling slots, the hashed message and scope, and the decimal secret.
- It calls the external witness generator and prover, and assembles the proof
  record. The nullifier is the fourth public input.
- `verifyProof` checks the shape of a proof record and its depth. It rebuilds
  the four public inputs from the record's fields: hashed scope, hashed
  message, root and nullifier. It returns the backend's verdict.
- `toHex` is the `0x`-prefixed, zero-padded hex formatter both adapters use.

Modules, one per concern:

| file | module | contents |
|---|---|---|
| `wrappers.dfy` | `Wrappers` | `Option`, `Result` |
| `js_values.dfy` | `JsValues` | JavaScript values, the zk-kit parameter checks, property reads |
| `js_sequences.dfy` | `JsSequences` | `Array(n).fill`, `reverse`, `padStart` |
| `js_numbers.dfy` | `JsNumbers` | `toString(radix)`, `BigInt(string)`, `parseInt`, `join`, 32-bit `>>` and `& 1` |
| `to_hex.dfy` | `Hex` | `toHex` and its read-back |
| `semaphore_types.dfy` | `SemaphoreTypes` | proof record, circuit inputs, errors, external helpers and backend |
| `generate_proof.dfy` | `GenerateProof` | `generateProof`: specification functions, lemmas, the imperative method |
| `verify_proof.dfy` | `VerifyProof` | `verifyProof`, its lemmas, generation followed by verification |

Design of the model:

- **Thrown exceptions** become `Err(Failure)`. The failure names the guard
  that threw: `requireNumber`, the depth `TypeError`, `BigInt`'s
  `SyntaxError`/`RangeError`, or `Array`'s `RangeError`.
- **External code** is passed in as function-valued parameters:
  - `Helpers` holds `toBigInt` and `hash`.
  - `Backend` holds `Noir.execute`, `UltraHonkBackend.generateProof` and
    `verifyProof`.
  - Their exceptions pass through unchanged as `External`.
- **`MIN_DEPTH` and `MAX_DEPTH`** are the `Bounds` parameter, because
  `./constant` is not part of this model.
- **The Merkle proof** is the class `GenerateProof.MerkleProof`. The method
  `GenerateProof.GenerateProof` pads its `siblings` field in a `while` loop,
  as lines 101-109 do through the alias `merkleProofSiblings`. The method is
  proved against the pure function `Generate` (its result) and `SiblingsAfter`
  (the caller's array afterwards).
- **JavaScript's 32-bit operators** are written out exactly.
  - `(index >> i) & 1` wraps the index to a signed 32-bit integer and takes the
    shift count modulo 32.
  - `ShiftAndMaskIsBit` proves that for every shift below 32 this is bit `i` of
    the index, however large the index.

Three behaviours of the code that are easy to misread:

- Nothing checks that the sibling path is no longer than the depth. The only
  limit is the 32 slots of `paths.storage`: with more than 32 siblings,
  `Array(negative)` throws at line 124. A depth smaller than the sibling count
  is accepted, and all the siblings are then marshalled.
- State outlives the call. The caller's `siblings` array is padded in place,
  and this padding stays even when a later step throws.
- An inferred depth, taken from the sibling count, is never range-checked
  against `MIN_DEPTH`/`MAX_DEPTH`. Only an explicit depth is.

## Model

| member | source | states |
|---|---|---|
| JsNumbers.RadixStringValue | apps/benchmarks/src/semaphore-noir/toHex.ts:10 | the digits `toString(radix)` writes read back as the number |
| JsNumbers.RadixStringLength | apps/benchmarks/src/semaphore-noir/toHex.ts:10 | `toString(radix)` writes the minimal number of digits: n < radix^k, and radix^(k-1) <= n unless k = 1 |
| JsNumbers.DecimalStringRoundTrip | apps/benchmarks/src/semaphore-noir/generate-proof.ts:137-140 | `BigInt(String(i)) === i` for every integer, negative included |
| JsNumbers.ParseIntAllDigits | apps/benchmarks/src/semaphore-noir/generate-proof.ts:118 | `parseInt(s, radix)` for a radix up to 10 on a non-empty all-digit string reads the whole string |
| JsNumbers.ToInt32 | apps/benchmarks/src/semaphore-noir/generate-proof.ts:104 | the 32-bit operand lies in [-2^31, 2^31) and is congruent to x modulo 2^32 |
| JsNumbers.BitAndOne | apps/benchmarks/src/semaphore-noir/generate-proof.ts:104 | `x & 1` is 0 or 1 |
| JsNumbers.ShiftAndMaskIsBit | apps/benchmarks/src/semaphore-noir/generate-proof.ts:104 | `(x >> i) & 1` is bit i of x for every i < 32 and every non-negative x, despite the 32-bit wrap |
| JsNumbers.SignedShiftRight | apps/benchmarks/src/semaphore-noir/generate-proof.ts:104 | `x >> count` on the 32-bit form with the count taken modulo 32; its bit meaning is proved in JsNumbers.ShiftAndMaskIsBit |
| JsNumbers.RadixString | apps/benchmarks/src/semaphore-noir/toHex.ts:10 | `n.toString(radix)` for n >= 0: at least one digit, all radix digits, a leading '0' only for 0; value and minimal length in JsNumbers.RadixStringValue and JsNumbers.RadixStringLength |
| JsNumbers.IntToString | apps/benchmarks/src/semaphore-noir/toHex.ts:10 | `toString(radix)` of a bigint: a '-' before the digits of a negative value; read back in Hex.NegativeHexUnreadable and JsNumbers.DecimalStringRoundTrip |
| JsNumbers.DecimalString | apps/benchmarks/src/semaphore-noir/generate-proof.ts:123 | `toString()` of the bigint siblings, root, message, scope and secret, and of the 0/1 index bits; read back by JsNumbers.DecimalStringRoundTrip |
| JsNumbers.StringToBigInt | apps/benchmarks/src/semaphore-noir/toHex.ts:10 | `BigInt(string)`: empty is 0, optional sign and decimal digits, else a SyntaxError; it inverts JsNumbers.DecimalString (JsNumbers.DecimalStringRoundTrip) |
| JsNumbers.Join | apps/benchmarks/src/semaphore-noir/generate-proof.ts:118 | `bits.join("")` on small numbers: decimal forms end to end; on bits it gives the binary string of GenerateProof.BitStringValue |
| JsNumbers.DigitPrefixLength | apps/benchmarks/src/semaphore-noir/generate-proof.ts:118 | the longest run of digits at the front: all digits, followed by a non-digit or the end |
| JsNumbers.ParseInt | apps/benchmarks/src/semaphore-noir/generate-proof.ts:118 | `parseInt(s, radix)` for radixes 2 to 10 (line 118 uses 2), NaN as None; whole-string reading in JsNumbers.ParseIntAllDigits |
| JsNumbers.NumberOverflowValue | apps/benchmarks/src/semaphore-noir/generate-proof.ts:118 | the threshold from which `parseInt`'s Number result is Infinity is 2^1024 - 2^970 |
| JsSequences.Reverse | apps/benchmarks/src/semaphore-noir/generate-proof.ts:118 | `reverse()`: same length, element i is element n-1-i |
| JsSequences.PadStart | apps/benchmarks/src/semaphore-noir/toHex.ts:10 | `padStart(target, c)`; its shape after `0x` is proved in Hex.ToHexDigits and Hex.ToHexLength |
| JsSequences.Fill | apps/benchmarks/src/semaphore-noir/generate-proof.ts:124 | `Array(n).fill(x)`; its place in the storage is proved in GenerateProof.PathStorageLayout |
| Hex.ToHex | apps/benchmarks/src/semaphore-noir/toHex.ts:9-10 | the result starts with `0x` and has at least one character after it |
| Hex.ToHexDigits | apps/benchmarks/src/semaphore-noir/toHex.ts:10 | after `0x`: as many zeros as `padding` exceeds the digit count by, then the lower-case hex digits of the value |
| Hex.ToHexLength | apps/benchmarks/src/semaphore-noir/toHex.ts:10 | the hex part is at least `padding` long, never truncates the value, and is longer only when the value needs the digits |
| Hex.ToHexRoundTrip | apps/benchmarks/src/semaphore-noir/toHex.ts:9-10 | reading the output back as hex gives the value, at any padding |
| Hex.ToHexPaddingKeepsValue | apps/benchmarks/src/semaphore-noir/toHex.ts:9-10 | the padding never changes the number denoted, negative values included |
| Hex.NegativeHexUnreadable | apps/benchmarks/src/semaphore-noir/toHex.ts:10 | a negative value keeps its '-' behind the padding zeros, so the output is not a hex number |
| Hex.ToHexInjective | apps/benchmarks/src/semaphore-noir/toHex.ts:9-10 | distinct non-negative values give distinct strings at the same padding |
| GenerateProof.CheckArgumentsAccepts | apps/benchmarks/src/semaphore-noir/generate-proof.ts:45-53 | message and scope pass the checks iff each is a string, bigint, number or Uint8Array; an undefined message, then an undefined scope, is reported first |
| GenerateProof.CheckArguments | apps/benchmarks/src/semaphore-noir/generate-proof.ts:45-53 | the `requireDefined`/`requireTypes` checks on message and scope in source order; characterised by GenerateProof.CheckArgumentsAccepts |
| GenerateProof.ResolveDepth | apps/benchmarks/src/semaphore-noir/generate-proof.ts:75-86 | an explicit depth outside [MIN_DEPTH, MAX_DEPTH] (and only that) throws the range error naming both bounds; an explicit depth is kept; with none, the depth is the sibling count, or DEFAULT_TREE_DEPTH (32) when there are no siblings |
| GenerateProof.Prepare | apps/benchmarks/src/semaphore-noir/generate-proof.ts:45-86 | checks, `toBigInt` of message then scope, and the depth, stopping at the first exception; its outcome is pinned by GenerateProof.GenerateSucceeds and GenerateProof.GenerateResult |
| GenerateProof.IndexBitsAreBinaryDigits | apps/benchmarks/src/semaphore-noir/generate-proof.ts:103-104 | the index list has one entry per level, and entry i is bit i of the leaf index |
| GenerateProof.IndexBits | apps/benchmarks/src/semaphore-noir/generate-proof.ts:98-104 | the index list after the loop; entry i is bit i of the index by GenerateProof.IndexBitsAreBinaryDigits |
| GenerateProof.LeafOneAtDepthThree | apps/benchmarks/src/semaphore-noir/generate-proof.ts:98-104 | leaf 1 at depth 3 gives the index list [1, 0, 0] |
| GenerateProof.PadSiblings | apps/benchmarks/src/semaphore-noir/generate-proof.ts:103-108 | after the loop the array covers every level; existing siblings are kept; only positions past the end are added, each 0 |
| GenerateProof.PadSiblingsStep | apps/benchmarks/src/semaphore-noir/generate-proof.ts:106-107 | one iteration appends a single 0 exactly when position i is past the end |
| GenerateProof.BitStringValue | apps/benchmarks/src/semaphore-noir/generate-proof.ts:118 | the reversed, joined index list is a `depth`-digit binary string whose value is index mod 2^depth |
| GenerateProof.PackedIndexesValue | apps/benchmarks/src/semaphore-noir/generate-proof.ts:118 | `indexes` is the 64-digit hex of index mod 2^depth for depths 1-32; with depth 0, `BigInt(NaN)` throws |
| GenerateProof.PackIndexes | apps/benchmarks/src/semaphore-noir/generate-proof.ts:118 | `toHex(parseInt(reversed bits joined, 2), 64)`, NaN and Infinity throwing in `BigInt`; its value is GenerateProof.PackedIndexesValue |
| GenerateProof.PathStorageLayout | apps/benchmarks/src/semaphore-noir/generate-proof.ts:122-124 | the storage exists iff there are at most 32 (padded) siblings; it has 32 decimal slots reading back as the siblings and then 0s |
| GenerateProof.PathStorage | apps/benchmarks/src/semaphore-noir/generate-proof.ts:122-124 | the 32 decimal storage slots, `Array` throwing past 32 siblings; characterised by GenerateProof.PathStorageLayout |
| GenerateProof.BuildInputs | apps/benchmarks/src/semaphore-noir/generate-proof.ts:117-128 | the witness inputs object, fields evaluated in source order; characterised by GenerateProof.BuildInputsLayout |
| GenerateProof.BuildInputsLayout | apps/benchmarks/src/semaphore-noir/generate-proof.ts:117-128 | the inputs exist iff 1 <= depth <= 32 and there are at most 32 siblings; `paths.len` is the unpadded sibling count; it also gives each input's content |
| GenerateProof.OutOfRangeDepthRejected | apps/benchmarks/src/semaphore-noir/generate-proof.ts:80-83 | an explicit out-of-range depth throws the range error whatever the backend does, and the caller's siblings are left untouched |
| GenerateProof.SiblingsAfterPadding | apps/benchmarks/src/semaphore-noir/generate-proof.ts:101-109 | the caller's array only grows, keeps its siblings, gains zeros only, and covers the resolved depth |
| GenerateProof.SiblingsAfter | apps/benchmarks/src/semaphore-noir/generate-proof.ts:101-109 | the caller's sibling array after the call: padded once the depth is known, untouched before; properties in GenerateProof.SiblingsAfterPadding |
| GenerateProof.Finish | apps/benchmarks/src/semaphore-noir/generate-proof.ts:111-143 | inputs, `noir.execute`, `honk.generateProof` and the returned record with `publicInputs[3]` as nullifier; its record is described by GenerateProof.GenerateResult |
| GenerateProof.Generate | apps/benchmarks/src/semaphore-noir/generate-proof.ts:38-144 | the whole of `generateProof` on a Merkle proof as a function of its starting values; success condition in GenerateProof.GenerateSucceeds, record in GenerateProof.GenerateResult |
| GenerateProof.GenerateSucceeds | apps/benchmarks/src/semaphore-noir/generate-proof.ts:45-133 | generation succeeds iff preparation succeeds, 1 <= depth <= 32, at most 32 siblings, and both backend calls return |
| GenerateProof.GenerateResult | apps/benchmarks/src/semaphore-noir/generate-proof.ts:130-143 | the record's depth is the resolved one (1 to 32); root, message and scope read back as their bigints; proof and public inputs are the prover's; the nullifier is public input 3 |
| GenerateProof.GenerateProof | apps/benchmarks/src/semaphore-noir/generate-proof.ts:38-144 | the result is `Generate` of the caller's starting values; the caller's siblings become `SiblingsAfter`; root and index are unchanged |
| VerifyProof.CheckShapeAccepts | apps/benchmarks/src/semaphore-noir/verify-proof.ts:18-29 | the guards pass iff the record is an object with a numeric depth, string root, nullifier, message and scope, Uint8Array proof and array of public inputs; undefined and null are refused first |
| VerifyProof.CheckShape | apps/benchmarks/src/semaphore-noir/verify-proof.ts:18-29 | the guard chain in source order, null failing at the destructuring; characterised by VerifyProof.CheckShapeAccepts |
| VerifyProof.ReadBigInt | apps/benchmarks/src/semaphore-noir/verify-proof.ts:45 | `BigInt` of a record string as `hash` and `toHex` apply it, a SyntaxError otherwise |
| VerifyProof.PublicInputLayoutShape | apps/benchmarks/src/semaphore-noir/verify-proof.ts:45 | the layout exists iff scope, message and root read as bigints; it is [hash(scope), hash(message), root] in 64-digit hex, then the nullifier, and each hex entry reads back as its number |
| VerifyProof.PublicInputLayout | apps/benchmarks/src/semaphore-noir/verify-proof.ts:45 | the four public inputs built left to right; characterised by VerifyProof.PublicInputLayoutShape |
| VerifyProof.VerifyProof | apps/benchmarks/src/semaphore-noir/verify-proof.ts:17-51 | the whole of `verifyProof`; its outcomes are pinned by VerifyProof.VerifyResult, VerifyProof.VerifyDelegates and VerifyProof.VerifyRejectsBeforeBackend |
| VerifyProof.VerifyResult | apps/benchmarks/src/semaphore-noir/verify-proof.ts:17-51 | a verdict comes back only for a well-formed record with depth in [MIN_DEPTH, MAX_DEPTH], and it is the backend's answer on the rebuilt layout |
| VerifyProof.VerifyDelegates | apps/benchmarks/src/semaphore-noir/verify-proof.ts:42-50 | for a well-formed, in-range record with a readable layout, the result is exactly the backend's verdict or exception |
| VerifyProof.VerifyRejectsBeforeBackend | apps/benchmarks/src/semaphore-noir/verify-proof.ts:18-33 | a malformed record or out-of-range depth is an error before the backend is consulted (the same for every backend); the depth error names both bounds |
| VerifyProof.VerifyIgnoresRecordPublicInputs | apps/benchmarks/src/semaphore-noir/verify-proof.ts:42-50 | the record's own `publicInputs` never reach the backend: replacing them with any array gives the same result |
| SemaphoreTypes.ToJs | apps/benchmarks/src/semaphore-noir/generate-proof.ts:135-143 | the returned record as the JavaScript object `verifyProof` receives; read back in VerifyProof.GeneratedRecordWellFormed |
| VerifyProof.GeneratedRecordWellFormed | apps/benchmarks/src/semaphore-noir/generate-proof.ts:135-143 | a generated record passes `verifyProof`'s shape checks iff it has a nullifier, i.e. the prover returned at least four public inputs |
| VerifyProof.RecordWithoutNullifierRejected | apps/benchmarks/src/semaphore-noir/verify-proof.ts:25 | a generated record without a nullifier is refused by `requireString(nullifier)`, whatever the bounds and backend |
| VerifyProof.GeneratedProofReachesBackend | apps/benchmarks/src/semaphore-noir/verify-proof.ts:42-50 | a generated record with depth in bounds and a nullifier reaches the backend with its own proof bytes and [hash(scope), hash(message), root] in hex plus the nullifier; if the prover's public inputs are laid out that way, they are what the backend checks |

## Left out

- The group branch of `generateProof` (lines 68-73) is left out. `indexOf` and `generateMerkleProof` belong to an external library, so the model always receives a Merkle proof.
- `requireDefined` and `requireObject` on `identity` and `groupOrMerkleProof` (lines 45-46, 50-51) are left out. Both are typed records in the model, so these checks cannot fail.
- `if (merkleTreeDepth) requireNumber(...)` (lines 55-57) is left out. An explicit depth is an integer here, so the check always passes.
- Floating-point numbers are not modelled; every JavaScript number is integral. A fractional or NaN depth is therefore not modelled.
- GenerateProof.PackIndexes: `parseInt` is modelled exactly, except that its Number result is rounded to 53 significant bits above 2^53. Only the overflow to Infinity at 2^1024 - 2^970 is modelled: `BigInt(Infinity)` then throws at line 118, as NaN does. Rounding below that threshold needs a value of more than 53 bits, so a depth above 32. Line 124 then throws anyway, and the rounded hex string never reaches the result.
- `toBigInt` and `hash` are parameters, because `./to-bigint` and `./hash` are not part of this model. `hash` is taken to read a string argument through `BigInt` and to return a non-negative integer. Its output goes into the inputs as a number, not as a `NumericString`.
- JsNumbers.ParseInt: only radixes 2 to 10 are modelled; above 10 JavaScript also strips a `0x` prefix (radix 16) and reads upper-case letters. Line 118 uses radix 2.
- JsNumbers.DecimalString: a Number of magnitude 10^21 or more is written in exponent notation by JavaScript, which is not modelled; the adapters only format bigints and the 0/1 index bits.
- `BigInt(string)` is modelled for the empty string and for an optional sign followed by decimal digits. Surrounding white space and the `0x`/`0o`/`0b` prefixes are not modelled. `parseInt` leading white space is not modelled either.
- The Noir circuit, `Noir.execute` and `UltraHonkBackend` are parameters. Their internals, the `keccak: true` option and the `threads` setting are outside the model.
- The nullifier's dependence on the secret and the scope alone is a property of the circuit, so it is not modelled.
- Promises are not modelled: both adapters are synchronous functions here.
- `console.log` (verify-proof.ts lines 39-40) has no effect on the result and is not modelled.
- Holes inside the caller's siblings array are not modelled. The model's array is dense, so the loop only ever fills positions past the end.
- The benchmark UI (`App.tsx`) and the build configuration are not part of the core.
- VerifyProof.PublicInputLayoutShape: the hex round trip of the root is stated only for a non-negative root, because `toHex` of a negative bigint is not a hex number (Hex.NegativeHexUnreadable).
- VerifyProof.GeneratedProofReachesBackend: does not show that the backend accepts a generated proof. That depends on the circuit's public-input order, which only the external prover fixes.
