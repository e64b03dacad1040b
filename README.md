# Dilithium2 WebAssembly marshaling layer, modelled in Dafny

lattice-crypto-js wraps a pre-compiled CRYSTALS-Dilithium2 (ML-DSA) WebAssembly
module. Three functions form its core: `generateKeypair`, `signMessage` and
`verifySignature`. Each allocates scratch regions in the module's linear memory
with `_malloc` and copies bytes in through `HEAPU8`. It then calls the engine
(`keypair`, `sign` or `verify`), reads results back (`HEAPU32` for the signature
length, `HEAPU8` for the signature) and frees what it allocated. A key pair is
the exception: it is handed to the caller, who owns it from then on.

This project models that layer and proves that it:
- requests regions of exactly the right sizes;
- calls the engine only when every allocation succeeded, exactly once, with
  the right addresses and the right bytes in memory;
- maps engine status codes to results as the code does;
- hands the engine memory that differs from memory at entry only in the
  regions it copied into, and those regions overlap no region that was live
  before the call, so a live key handle reaches the engine intact;
- copies out exactly the bytes the length cell announces;
- frees every scratch region on every exit, in allocation order, never
  freeing the caller's key handles.

## Layout

- `memory.dfy` (module `Memory`): the linear memory as the JavaScript side sees it.
  - `byte` models a `Uint8Array` element.
  - ECMAScript `ToInt32` and the expression `p >> 2` are modelled exactly.
  - `DecodeU32`/`EncodeU32` are little-endian 32-bit words, read and written.
  - `WordAt` is the `HEAPU32` view.
  - `Overwrite` is `HEAPU8.set`.
- `dilithium2.dfy` (module `Dilithium2`): the sizes 1312, 2560 and 2420, and the 4-byte length cell.
- `types.dfy` (module `Types`):
  - `Message`, with the choice between text and binary data;
  - `Error` and `Result`, which stand in for the thrown `Error`s.
- `dilithium_api.dfy` (module `DilithiumApi`): the foreign module as a class `Api`, shaped after the `DilithiumApi` interface.
  - Fields:
    - `heap`: an array of bytes, the memory;
    - `live`: a ghost map from live address to region size;
    - `log`: a ghost call log that records every `_malloc`, `_free`, `keypair`, `sign` and `verify` call. The engine entries hold the whole of memory as the engine was given it, and the message and signature bytes it read.
  - Methods `Malloc`, `Free`, `SetBytes`, `Keypair`, `Sign` and `Verify`. Their contracts are everything the marshalers rely on.
  - Observers of the log: `Requests`, `Acquired`, `Released`, `Invocations`.
  - `if (p) api._free(p)` as `ReleaseIfAllocated`.
- `generate_keypair.dfy`, `sign_message.dfy`, `verify_signature.dfy`: the three marshalers.
  - Each is a method over `Api` with a function (`KeypairLog`, `SignLog`, `VerifyLog`) naming the calls it makes.
  - Lemmas state the properties of those call sequences.
  - The `try` and `finally` blocks of `signMessage` are their own methods (`SignInScratch`, `FreeScratch`), and so is the `try` block of `verifySignature` (`VerifyInScratch`).

A thrown `Error` becomes an `Err` result:
- `AllocationError`: "Memory allocation failed ...";
- `GenerationError`: "Failed to generate key pair";
- `SigningError(code)`: "Signing failed with error code ...".

What malloc and the engine returned, and the memory the engine was given, are exposed as ghost out-parameters. The contracts state the result, the call log and that memory in terms of those values.

## Model

| member | source | states |
|---|---|---|
| Memory.ToInt32 | src/dilithium-api/signMessage.ts:42 | the operand of `>>` becomes the signed 32-bit integer congruent to it modulo 2^32 |
| Memory.ShiftRight2 | src/dilithium-api/signMessage.ts:42 | `p >> 2` is p / 4 for p below 2^31, and negative (an index outside `HEAPU32`) for p in [2^31, 2^32) |
| Memory.DecodeEncodeU32 | src/dilithium-api/signMessage.ts:42 | reading a little-endian 32-bit word gives back the word that was stored |
| Memory.AlignedWordAt | src/dilithium-api/signMessage.ts:42 | for a 4-aligned address p below 2^31, `HEAPU32[p >> 2]` is in range and is the little-endian word in bytes p..p+3 |
| Memory.Overwrite | src/dilithium-api/signMessage.ts:28 | after `HEAPU8.set(bytes, at)` memory has the same length, holds `bytes` at [at, at+len) and every other byte is unchanged |
| Memory.OverwriteElsewhere | src/dilithium-api/verifySignature.ts:24-25 | a copy leaves any range it does not overlap unchanged, so copying the message does not disturb the signature copied before it |
| DilithiumApi.Api.Malloc | src/types/dilithium-api.ts:20 | returns 0 and changes nothing live, or returns a non-zero, 4-aligned address not live before, whose region lies in memory and is disjoint from every live region; exactly that region becomes live; the call is logged |
| DilithiumApi.Api.Free | src/types/dilithium-api.ts:21 | a live region stops being live and nothing else does; the call is logged |
| DilithiumApi.Api.SetBytes | src/types/dilithium-api.ts:22 | `HEAPU8.set` leaves memory equal to the old memory overwritten at `at` by `bytes` |
| DilithiumApi.Api.Keypair | src/types/dilithium-api.ts:4 | the engine call keeps the allocator's state (it never allocates or frees) and is logged with the memory it was given and its status |
| DilithiumApi.Api.Sign | src/types/dilithium-api.ts:5-11 | on status 0 the length cell holds a word of at most 2420; the log records the memory the engine was given, the message bytes it read, the signature region it left and the length word |
| DilithiumApi.Api.Verify | src/types/dilithium-api.ts:12-18 | the engine call keeps the allocator's state and is logged with the memory it was given and the signature and message bytes it read |
| DilithiumApi.ReleaseLog | src/dilithium-api/signMessage.ts:21-23 | `if (p) api._free(p)` releases p exactly when p is non-null, and requests, acquires and invokes nothing |
| DilithiumApi.ReleaseIfAllocated | src/dilithium-api/signMessage.ts:21-23 | `if (p) api._free(p)` removes p from the live map exactly when p is non-null |
| DilithiumApi.UndoTwo | src/dilithium-api/generateKeyPair.ts:13-17 | freeing the non-null results of two successive allocations, in allocation order, gives back the live map from before them |
| DilithiumApi.UndoThree | src/dilithium-api/signMessage.ts:20-25 | the same for three successive allocations |
| GenerateKeyPair.GenerateKeypair | src/dilithium-api/generateKeyPair.ts:6-28 | success iff both allocations returned non-zero and keypair returned 0, and then the result is exactly the two addresses; allocation error iff an allocation returned 0; generation error iff keypair returned non-zero; on success both addresses are distinct, not live before, and the live map grew by exactly 1312 and 2560 bytes at them; on any error the live map is unchanged; keypair is given memory exactly as it was on entry; an allocation error leaves memory unchanged; the call sequence is `KeypairLog` |
| GenerateKeyPair.KeypairRequests | src/dilithium-api/generateKeyPair.ts:10-11 | exactly two regions are requested, of 1312 and then 2560 bytes |
| GenerateKeyPair.KeypairInvocations | src/dilithium-api/generateKeyPair.ts:13-19 | keypair runs exactly once, on (publicKeyPtr, secretKeyPtr), when both allocations succeed, and never otherwise |
| GenerateKeyPair.KeypairOwnership | src/dilithium-api/generateKeyPair.ts:13-27 | the non-null addresses malloc returned are freed, in allocation order, on every exit except success, where nothing is freed |
| SignMessage.SignMessage | src/dilithium-api/signMessage.ts:6-53 | success iff all three allocations returned non-zero and sign returned 0; allocation error iff one of them returned 0; signing error carrying the status iff sign returned non-zero; on success the signature is the first `length` bytes of the signature region left by sign, where `length` is the word in the length cell and is at most 2420; sign is given memory as it was on entry with only the message region overwritten by the encoded message, and that region overlaps no region live on entry; an allocation error leaves memory unchanged; the live map is unchanged on every exit; the scratch addresses were not live before; the call sequence is `SignLog` |
| SignMessage.SignInScratch | src/dilithium-api/signMessage.ts:27-47 | sign is given memory as it was before the block with only the message region overwritten, by the message bytes exactly as encoded; a non-zero status gives a signing error with that status; otherwise the result is exactly the bytes of the signature region up to the length word |
| SignMessage.KeyReachesSign | src/dilithium-api/signMessage.ts:28-36 | when the message region overlaps no live region, the bytes of a live secret-key region that sign is given are those it held before the copy |
| SignMessage.SignsBinaryAsGiven | src/dilithium-api/signMessage.ts:11-13 | a binary message reaches sign byte for byte whatever the text encoder is |
| SignMessage.FreeScratch | src/dilithium-api/signMessage.ts:48-52 | the finally block frees the message region, the signature region and the length cell, in that order |
| SignMessage.SignRequests | src/dilithium-api/signMessage.ts:14-18 | exactly three regions are requested: the message length, 2420 bytes, and 4 bytes |
| SignMessage.SignInvocations | src/dilithium-api/signMessage.ts:20-36 | sign runs exactly once, with (signaturePtr, signatureLengthPtr, messagePtr, messageLength, secretKeyPtr) and the encoded message in memory, when all three allocations succeed, and never otherwise |
| SignMessage.SignAcquired | src/dilithium-api/signMessage.ts:16-18 | the regions acquired are the non-null results of the three allocations, in order |
| SignMessage.SignReleased | src/dilithium-api/signMessage.ts:20-52 | every acquired region is freed exactly once, in allocation order, on every exit, and nothing else is freed |
| SignMessage.SignSparesKey | src/dilithium-api/signMessage.ts:48-52 | a secret-key handle other than the three scratch addresses is never freed |
| VerifySignature.VerifySignature | src/dilithium-api/verifySignature.ts:4-39 | allocation error iff one of the two allocations returned 0 (no other error), and then memory is unchanged; otherwise `true` iff verify returned 0, and `false` (not an error) for any other status; verify is given memory as it was on entry with only the signature region and then the message region overwritten, and neither region overlaps a region live on entry; the live map is unchanged on every exit; the scratch addresses were not live before; the call sequence is `VerifyLog` |
| VerifySignature.VerifyInScratch | src/dilithium-api/verifySignature.ts:23-34 | verify is given memory as it was before the block with only the signature region and then the message region overwritten, by the signature and the encoded message exactly; the result is `true` iff its status is 0 |
| VerifySignature.CopiesInPlace | src/dilithium-api/verifySignature.ts:24-25 | after both copies into disjoint regions, each region holds exactly the bytes copied into it |
| VerifySignature.KeyReachesVerify | src/dilithium-api/verifySignature.ts:24-33 | when neither scratch region overlaps a live region, the bytes of a live public-key region that verify is given are those it held before the copies |
| VerifySignature.VerifiesBinaryAsGiven | src/dilithium-api/verifySignature.ts:10-12 | a binary message reaches verify byte for byte whatever the text encoder is |
| VerifySignature.VerifyRequests | src/dilithium-api/verifySignature.ts:14-15 | exactly two regions are requested, of signature.length and then messageBytes.length bytes |
| VerifySignature.VerifyInvocations | src/dilithium-api/verifySignature.ts:17-33 | verify runs exactly once, with (signaturePtr, signature.length, messagePtr, messageBytes.length, publicKeyPtr) and both byte strings in memory, when both allocations succeed, and never otherwise |
| VerifySignature.VerifyAcquired | src/dilithium-api/verifySignature.ts:14-15 | the regions acquired are the non-null results of the two allocations, in order |
| VerifySignature.VerifyReleased | src/dilithium-api/verifySignature.ts:17-38 | every acquired region is freed exactly once, in allocation order, on every exit, and nothing else is freed |
| VerifySignature.VerifySparesKey | src/dilithium-api/verifySignature.ts:35-38 | a public-key handle other than the two scratch addresses is never freed |

## Left out

- The signature algorithm (FIPS 204 key generation, signing and verification) is compiled foreign code and is not modelled. So sign-then-verify round trips and the tamper, cross-key and cross-message outcomes are not stated.
- DilithiumApi.Api.Keypair, DilithiumApi.Api.Sign and DilithiumApi.Api.Verify: these may write any byte of memory, because the engine's writes are not specified. So the contents of the key regions are not proved unchanged across calls.
- The bodies of the `Api` methods are stand-ins: a bump allocator that never reuses memory, and engine stubs that return 0. They only show that the contracts can be met.
- DilithiumApi.Api.Malloc and DilithiumApi.Api.Free: writes the allocator makes to its own metadata outside live regions are not modelled. The model's allocator changes no byte of memory.
- Memory is at most 2^31 bytes, so `p >> 2` is p / 4 for every allocated address. Memory growth (which replaces `HEAPU8`) is not modelled.
- Traps: an exception thrown by the foreign code is not modelled. `generateKeypair` has no `finally`, so a trap inside `keypair` would leave both key regions allocated. The other two marshalers free their regions in `finally`.
- The `TextEncoder` is the parameter `encode` of `MessageBytes`. UTF-8 encoding itself (RFC 3629) is not modelled.
- src/dilithium-api/initializeDilithiumApi.ts (asynchronous loading and binding of the module) is not part of this model.
- src/test/index.ts is not part of this model. Its `{ signature }` destructuring of the returned byte array and its import path `generateKeypair`, which differs in case from the file `generateKeyPair.ts`, are build issues rather than behaviour. Its empty-message case relies on `_malloc(0)` returning non-zero, which the model does not assume. Malloc may return 0 for any size, which gives an allocation error.
- Concurrency and re-entrancy: each call is modelled as running alone on the module.
