# AgenC model registry — a verified model

The AgenC model registry is a Solana program for publishing versioned AI
model weights. A publisher creates a `Model` account at an address derived
from their key and the SHA-256 of the model name. Every new set of weights
becomes a `ModelVersion` account at an address derived from the model and the
version number. A `RegistryConfig` singleton counts models and versions. The
publisher can update the metadata URI, deprecate the model (a one-way latch),
and hand the model to a new owner. A browser client builds the same addresses
with a hand-written SHA-256, renders hashes as hex, and shows the agents and
tasks of the companion AgenC coordination protocol: capability bitmasks,
status enums and task descriptions.

The project has these modules:

- `Wrappers` — `Option`.
- `Bytes` — bytes, little-endian integers and UTF-8 encoding.
- `Hex` — `hashToHex`, with a decoder and the round trip.
- `Pda` — the seed lists of the config, model and version addresses, their
  injectivity, and addresses through an abstract derivation.
- `RegistryState` — the account records, the `License` tags, the Borsh layout
  and the account sizes.
- `RegistryErrors` — the error enum, its Anchor codes and one guard per error.
- `ModelRegistry` — the program as a class `Registry`. Its maps of model and
  version accounts are updated by `Initialize`, `PublishModel`, `AddVersion`,
  `UpdateMetadata`, `DeprecateModel` and `TransferOwnership`. Each instruction
  keeps an invariant: counters match the accounts, every model has all its
  version records, and the latest version carries the model's hash. A
  failing instruction changes nothing.
- `RegistryScenario` — the program's own test suite, as methods that run the
  lifecycle on a fresh registry. Each test's expectations are proved for
  every name, URI and hash the program accepts.
- `Sha256` — `sha256Simple` as written, which is imperative over arrays, and
  `ror`. It is proved equal to a functional specification. That
  specification shares its compression, message schedule and tables with the
  FIPS 180-4 one; below 2^29 bytes its padding is proved to be FIPS 180-4's,
  so the two hashes agree there.
- `AgencConstants` and `AgencUtils` — the constant tables, the enum parsers and
  labels, the capability mask walk, and the hex and address shorteners.
- `TaskDetail` — `formatDescription` and the zero case of `formatTimestamp`.

The registry program's entry point (`programs/model-registry/src/lib.rs`) is
only a stub that logs. The transitions are therefore built from four sources:

- the account layouts in `state.rs`;
- the guards the errors in `errors.rs` name;
- the expectations of `tests/model-registry.ts`;
- the client's use of the instructions in `app/src/hooks/useRegistry.ts`.

The order in which the guards are checked is a choice of this model. It is
stated on each `*Failure` function.

## Model

| member | source | states |
|---|---|---|
| Bytes.AsciiBytes | tests/model-registry.ts:18 | `Buffer.from` of an ASCII tag is one byte per character, with the character's code |
| Bytes.LittleEndianRoundTrip | app/src/lib/program.ts:39-40 | decoding the little-endian bytes of a value that fits the width gives the value back |
| Bytes.LittleEndianBytesRoundTrip | app/src/lib/program.ts:39-40 | encoding the decoded value of any byte string gives the same bytes back |
| Bytes.LittleEndianInjective | app/src/lib/program.ts:39-40 | two values that fit the width and have the same little-endian bytes are equal |
| Bytes.Utf8Char | app/src/lib/program.ts:50-51 | `TextEncoder` writes one to four bytes per character, and exactly one byte, equal to the code, below 0x80 |
| Bytes.Utf8EncodeLength | app/src/lib/program.ts:50-51 | the UTF-8 encoding of a name is between one and four bytes per character |
| Bytes.Utf8EncodeAscii | app/src/lib/program.ts:50-51 | an ASCII string encodes to its character codes |
| Bytes.Utf8EncodeEmpty | app/src/lib/program.ts:50-51 | only the empty string encodes to no bytes |
| Hex.HexValue | app/src/lib/program.ts:126 | a character is a lower-case hex digit exactly when it has a value, and that value renders back to it |
| Hex.ByteToHexDigits | app/src/lib/program.ts:126 | `b.toString(16).padStart(2, "0")` is the high digit followed by the low digit |
| Hex.HashToHexLength | app/src/lib/program.ts:124-128 | the hex of n bytes has exactly 2n characters |
| Hex.HashToHexAt | app/src/lib/program.ts:124-128 | characters 2i and 2i+1 are the two digits of byte i |
| Hex.HashToHexDigitsOnly | app/src/lib/program.ts:124-128 | every character is a lower-case hex digit |
| Hex.HexRoundTrip | app/src/lib/program.ts:124-128 | decoding the hex gives back the bytes |
| Hex.HashToHexInjective | app/src/lib/program.ts:124-128 | different byte strings have different hex |
| Pda.VersionBytes | app/src/lib/program.ts:39-40 | `writeUInt32LE` succeeds exactly for 0..2^32-1, with four bytes |
| Pda.VersionSeeds | app/src/lib/program.ts:35-45 | the version seed list exists exactly for versions in u32 range |
| Pda.VersionBytesRoundTrip | app/src/lib/program.ts:39-40 | the version seed decodes back to the version for every u32 |
| Pda.VersionBytesOnto | app/src/lib/program.ts:39-40 | every four-byte string is the seed of exactly the version it decodes to |
| Pda.AllSeedsWithinLimit | app/src/lib/program.ts:17-45 | every seed of the three address kinds is within Solana's 32-byte seed limit |
| Pda.ModelSeedsInjective | tests/model-registry.ts:14-25 | equal model seed lists mean the same publisher and the same name hash |
| Pda.VersionSeedsInjective | tests/model-registry.ts:27-40 | equal version seed lists mean the same model and the same version |
| Pda.SeedKindsDistinct | tests/model-registry.ts:14-46 | config, model and version seed lists never coincide |
| Pda.VersionAddress | app/src/lib/program.ts:35-45 | a version address exists exactly for versions in u32 range |
| Pda.ModelAddressesDistinct | tests/model-registry.ts:14-25 | under an injective derivation, different (publisher, name hash) pairs get different model addresses |
| Pda.VersionAddressesDistinct | tests/model-registry.ts:27-40 | under an injective derivation, different versions of one model get different addresses |
| RegistryState.LicenseTag | programs/model-registry/src/state.rs:3-10 | every license has a wire tag in 0..4 |
| RegistryState.LicenseFromTag | programs/model-registry/src/state.rs:3-10 | a tag decodes exactly when it is in 0..4 |
| RegistryState.LicenseTagRoundTrip | programs/model-registry/src/state.rs:3-10 | tag and decoding are mutually inverse on the five variants |
| RegistryState.ClientLicenseNumber | app/src/hooks/useRegistry.ts:63-66 | the client's key decoding always yields a number in 0..4 |
| RegistryState.ClientLicenseRoundTrip | app/src/hooks/useRegistry.ts:63-66 | the client's decoding of each variant's key is the variant's wire tag |
| RegistryState.LicenseOptionsAreTags | app/src/pages/Publish.tsx:9-15 | the five publish-form options are the tags 0..4 in order, each a valid license |
| RegistryState.BorshString | programs/model-registry/src/state.rs:24 | a Borsh string takes its UTF-8 bytes plus a 4-byte length prefix |
| RegistryState.I64Bytes | programs/model-registry/src/state.rs:29-30 | an `i64` takes eight bytes |
| RegistryState.SpacesAsDocumented | programs/model-registry/src/state.rs:12-45 | the account sizes are 57, 295 and 217 bytes |
| RegistryState.ConfigBodyLength | programs/model-registry/src/state.rs:12-19 | a serialized config fills its 57-byte account exactly |
| RegistryState.ModelBodyLength | programs/model-registry/src/state.rs:21-34 | a serialized model fits its 295-byte account, filling it exactly when name and URI are at capacity |
| RegistryState.VersionBodyLength | programs/model-registry/src/state.rs:36-45 | a serialized version fits its 217-byte account, filling it exactly when the URI is at capacity |
| RegistryState.ModelAccountData | programs/model-registry/src/state.rs:21-34 | every model account is exactly 295 bytes |
| RegistryState.ModelAccountPrefix | programs/model-registry/src/state.rs:21-23 | the account starts with the discriminator, then the publisher key |
| RegistryState.ClientFilterMissesEveryModel | app/src/hooks/useRegistry.ts:41 | the `dataSize: 283` filter, as written, matches no model account |
| RegistryState.ModelFilterKeepsEveryModel | programs/model-registry/src/state.rs:21-34 | a 295-byte filter keeps every model account and no config or version account |
| RegistryErrors.ErrorCode | programs/model-registry/src/errors.rs:3-28 | the eight errors have Anchor codes in 6000..6007 |
| RegistryErrors.ErrorFromCode | programs/model-registry/src/errors.rs:3-28 | a code decodes exactly when it is in 6000..6007 |
| RegistryErrors.ErrorCodeRoundTrip | programs/model-registry/src/errors.rs:3-28 | codes and errors are mutually inverse |
| RegistryErrors.NameError | programs/model-registry/src/errors.rs:5-12 | `ModelNameEmpty` exactly for the empty name, `ModelNameTooLong` exactly above 64 bytes, and no error otherwise |
| RegistryErrors.UriError | programs/model-registry/src/errors.rs:8-15 | `MetadataUriEmpty` exactly for the empty URI, `MetadataUriTooLong` exactly above 128 bytes, and no error otherwise |
| RegistryErrors.LicenseError | programs/model-registry/src/errors.rs:26-27 | `InvalidLicense` exactly for a tag outside 0..4 |
| RegistryErrors.PublisherError | programs/model-registry/src/errors.rs:17-18 | `UnauthorizedPublisher` exactly when the signer is not the model's current publisher |
| RegistryErrors.AddVersionDeprecationError | programs/model-registry/src/errors.rs:20-21 | `ModelDeprecated` exactly when the model is deprecated |
| RegistryErrors.DeprecateError | programs/model-registry/src/errors.rs:23-24 | `AlreadyDeprecated` exactly when the model is deprecated |
| ModelRegistry.ClientNameHashAgrees | app/src/lib/program.ts:24-33 | for every name the program accepts, the client's hand-written SHA-256 gives the program's name hash, so both derive the same model address |
| ModelRegistry.NextVersionWellFormed | app/src/hooks/useRegistry.ts:123 | a model with all its versions, given record `versionCount + 1` at that version's address, has all its versions again |
| ModelRegistry.PublishKeepsConsistent | tests/model-registry.ts:79-118 | adding a model with its version-1 record and bumping both counters keeps the registry invariant, and no record is lost or changed |
| ModelRegistry.AddVersionKeepsConsistent | tests/model-registry.ts:120-145 | adding the next version record and raising the model's count keeps the invariant, and no record is lost or changed |
| ModelRegistry.RewriteKeepsConsistent | tests/model-registry.ts:147-173 | rewriting a model's URI, owner or deprecation flag keeps the invariant |
| ModelRegistry.Registry.constructor | tests/model-registry.ts:42-46 | a fresh deployment has no accounts, with addresses fixed by the derivation on the seed lists |
| ModelRegistry.Registry.Initialize | tests/model-registry.ts:58-77 | fails with `InvalidAddress` exactly when the supplied config account is not the config seeds' address, and with `AccountAlreadyInUse` exactly when the config already exists; otherwise creates it with the signer as authority and both counters zero |
| ModelRegistry.Registry.PublishModel | tests/model-registry.ts:79-118 | fails exactly on a guard and then changes nothing, with `InvalidAddress` when a supplied account is not its derived address; otherwise creates the model at the signer's derived address with version count 1 and not deprecated, creates its version-1 record carrying the same hash, and bumps both counters |
| ModelRegistry.Registry.AddVersion | tests/model-registry.ts:120-145 | fails exactly on a guard and then changes nothing, with `InvalidAddress` when the supplied version account is not the next version's address; otherwise raises the count to `versionCount + 1`, replaces hash and URI, and records that version at its derived address |
| ModelRegistry.Registry.AppendVersion | app/src/hooks/useRegistry.ts:121-124 | the writes of a successful `addVersion`: model updated, record `versionCount + 1` created, version counter bumped, invariant kept |
| ModelRegistry.Registry.UpdateMetadata | tests/model-registry.ts:147-160 | fails exactly on a guard; otherwise replaces only the URI and update time, leaving config and versions alone |
| ModelRegistry.Registry.DeprecateModel | tests/model-registry.ts:162-173 | fails exactly on a guard (including `AlreadyDeprecated`); otherwise sets only the flag, and no instruction ever clears it |
| ModelRegistry.Registry.TransferOwnership | tests/model-registry.ts:199-235 | fails exactly on a guard; otherwise replaces only the publisher, with the model staying at its address |
| RegistryScenario.LifecycleAccountsDistinct | tests/model-registry.ts:14-46 | the six seed lists of the suite's config, two models and three versions differ, so a derivation without collisions among them puts the six accounts at six different addresses |
| RegistryScenario.Initialized | tests/model-registry.ts:58-77 | after `initialize` the authority is the caller and both counters are zero |
| RegistryScenario.Published | tests/model-registry.ts:79-118 | after publishing, the model has the caller as publisher, the given name, hash and URI, count 1, not deprecated; version 1 points back with the same hash; one model and one version are counted |
| RegistryScenario.AddVersionStep | tests/model-registry.ts:120-145 | adding a version takes the count to 2 and the new hash and URI, and record 2 carries that hash |
| RegistryScenario.UpdateMetadataStep | tests/model-registry.ts:147-160 | the update changes the URI and keeps hash, count, owner and flag |
| RegistryScenario.DeprecateStep | tests/model-registry.ts:162-197 | deprecation latches, deprecating again fails with `AlreadyDeprecated`, and adding a version fails with `ModelDeprecated` |
| RegistryScenario.PublishedPair | tests/model-registry.ts:199-220 | a second model of the same publisher is published at its own derived address |
| RegistryScenario.TransferStep | tests/model-registry.ts:199-235 | after the transfer the model belongs to the new owner at the address derived from the old one, and the old owner is refused with `UnauthorizedPublisher` |
| Sha256.ShrIsDiv | app/src/lib/program.ts:85-86 | `x >>> n` is division by 2^n |
| Sha256.ShlIsMulMod | app/src/lib/program.ts:115 | `x << n` is multiplication by 2^n modulo 2^32 |
| Sha256.RorRotates | app/src/lib/program.ts:114-116 | `ror(x, n)` for 0 < n < 32 moves the high bits down by n and the low n bits to the top |
| Sha256.BigEndianRoundTrip | app/src/lib/program.ts:80-83 | `getUint32` of what `setUint32` wrote gives the word back |
| Sha256.BigEndianBytesRoundTrip | app/src/lib/program.ts:80-83 | `setUint32` of what `getUint32` read gives the four bytes back |
| Sha256.PadBlocksBounds | app/src/lib/program.ts:75-76 | `padLen * 64` is the message, 0x80, the fewest zeros FIPS allows, and 8 length bytes |
| Sha256.PaddedShape | app/src/lib/program.ts:73-80 | the buffer is whole blocks of at least len + 9 bytes, with the message first, then 0x80, then zeros, with the bit length big-endian in the last 4 bytes |
| Sha256.LengthFieldsAgree | app/src/lib/program.ts:74-80 | below 2^29 bytes the 4-byte length field equals the low half of the FIPS 8-byte field |
| Sha256.PaddedIsFips | app/src/lib/program.ts:73-80 | below 2^29 bytes the padding is that of section 5.1.1 of FIPS 180-4 |
| Sha256.PaddedDiffersFromFipsAt2To29 | app/src/lib/program.ts:74-80 | at 2^29 bytes the padding is not that of FIPS 180-4 |
| Sha256.HashIsFips | app/src/lib/program.ts:57-112 | below 2^29 bytes the digest is the FIPS 180-4 SHA-256 of the message |
| Sha256.OutputDecodes | app/src/lib/program.ts:102-111 | the 32-byte digest holds h0..h7 big-endian, in order |
| Sha256.SetUint32 | app/src/lib/program.ts:80 | `setUint32` writes the four big-endian bytes at the offset and nothing else |
| Sha256.PadInto | app/src/lib/program.ts:73-80 | the buffer built in place is the padded message |
| Sha256.FillSchedule | app/src/lib/program.ts:83-88 | the loop fills `w` with the block's message schedule |
| Sha256.CompressBlock | app/src/lib/program.ts:89-100 | the 64 rounds and the additions give the compression of the block |
| Sha256.WriteDigest | app/src/lib/program.ts:102-111 | the output array is the digest of the final hash values |
| Sha256.HashPadded | app/src/lib/program.ts:82-101 | the block loop yields the hash values after every block |
| Sha256.Sha256Simple | app/src/lib/program.ts:57-112 | the method computes `Hash` of its input |
| AgencConstants.SeedsDistinct | app/src/lib/agenc/constants.ts:6-12 | the five seed tags are pairwise distinct |
| AgencConstants.AgentStatusOf | app/src/lib/agenc/constants.ts:15-20 | a number names an agent status exactly in 0..3, and that status has the number |
| AgencConstants.AgentStatusValueRoundTrip | app/src/lib/agenc/constants.ts:15-20 | every status has a value below 4 that names it back |
| AgencConstants.TaskStatusOf | app/src/lib/agenc/constants.ts:23-30 | a number names a task status exactly in 0..5, and that status has the number |
| AgencConstants.TaskStatusValueRoundTrip | app/src/lib/agenc/constants.ts:23-30 | every status has a value below 6 that names it back |
| AgencConstants.TaskTypeOf | app/src/lib/agenc/constants.ts:33-37 | a number names a task type exactly in 0..2, and that type has the number |
| AgencConstants.TaskTypeValueRoundTrip | app/src/lib/agenc/constants.ts:33-37 | every type has a value below 3 that names it back |
| AgencConstants.AllCapabilitiesInOrder | app/src/lib/agenc/constants.ts:40-51 | the ten keys are listed once each, at their bit positions 0..9 |
| AgencConstants.PowerBits | app/src/lib/agenc/constants.ts:40-51 | `1n << n` has bit n set and no other |
| AgencConstants.CapabilityBits | app/src/lib/agenc/constants.ts:40-51 | each capability is a single bit at its own position, so the constants are pairwise disjoint |
| AgencConstants.CapabilityUnionIsLowTenBits | app/src/lib/agenc/constants.ts:40-51 | the ten constants add up to 0x3FF |
| AgencUtils.CapabilityOrIsLowTenBits | app/src/lib/agenc/constants.ts:40-51 | the ten constants OR-ed together left to right give 0x3FF, the same as their sum |
| AgencConstants.CapabilityNamesCoverKeys | app/src/lib/agenc/constants.ts:55-66 | `CAPABILITY_NAMES` labels every capability key and no other key |
| AgencConstants.KeysAndLabelsDistinct | app/src/lib/agenc/constants.ts:40-66 | different capabilities have different keys and different labels |
| AgencUtils.FirstKey | app/src/lib/agenc/utils.ts:18-19 | a first key exists exactly for a non-null object with at least one key |
| AgencUtils.ParseAgentStatus | app/src/lib/agenc/utils.ts:17-26 | any result other than `Inactive` comes from its own key as the first key |
| AgencUtils.ParseAgentStatusRoundTrip | app/src/lib/agenc/utils.ts:17-26 | an object whose first key is a status's key parses to that status |
| AgencUtils.AgentStatusLabel | app/src/lib/agenc/utils.ts:28-36 | the label is 'Unknown' exactly for numbers outside 0..3 |
| AgencUtils.AgentStatusLabelsDistinct | app/src/lib/agenc/utils.ts:28-36 | in-range statuses have different labels |
| AgencUtils.ParseTaskStatus | app/src/lib/agenc/utils.ts:38-49 | any result other than `Open` comes from its own key as the first key |
| AgencUtils.ParseTaskStatusRoundTrip | app/src/lib/agenc/utils.ts:38-49 | an object whose first key is a status's key parses to that status |
| AgencUtils.TaskStatusLabel | app/src/lib/agenc/utils.ts:51-61 | the label is 'Unknown' exactly for numbers outside 0..5 |
| AgencUtils.TaskStatusLabelsDistinct | app/src/lib/agenc/utils.ts:51-61 | in-range statuses have different labels |
| AgencUtils.ParseTaskType | app/src/lib/agenc/utils.ts:63-71 | any result other than `Exclusive` comes from its own key as the first key |
| AgencUtils.ParseTaskTypeRoundTrip | app/src/lib/agenc/utils.ts:63-71 | an object whose first key is a type's key parses to that type |
| AgencUtils.TaskTypeLabel | app/src/lib/agenc/utils.ts:73-80 | the label is 'Unknown' exactly for numbers outside 0..2 |
| AgencUtils.TaskTypeLabelsDistinct | app/src/lib/agenc/utils.ts:73-80 | in-range types have different labels |
| AgencUtils.ParsedNeverUnknown | app/src/lib/agenc/utils.ts:17-80 | parsing, then labelling, never gives 'Unknown' |
| AgencUtils.BitAndPower | app/src/lib/agenc/utils.ts:85 | `caps & (1n << n)` is `1n << n` when bit n of `caps` is set and 0 otherwise, negative masks included |
| AgencUtils.BitOrBits | app/src/pages/AgentRegister.tsx:45-48 | a bit of `x \| y` is set exactly when it is set in x or in y |
| AgencUtils.HasCapabilityIffBit | app/src/lib/agenc/utils.ts:85 | the test `(caps & value) === value` holds exactly when the capability's bit is set |
| AgencUtils.SetCapabilities | app/src/lib/agenc/utils.ts:82-90 | the kept entries are exactly those whose bit is set |
| AgencUtils.SetCapabilitiesInOrder | app/src/lib/agenc/utils.ts:82-90 | the kept entries keep the table's order |
| AgencUtils.GetCapabilityNames | app/src/lib/agenc/utils.ts:82-90 | the loop collects the set capabilities of the table, in table order |
| AgencUtils.CapabilityNamesExact | app/src/lib/agenc/utils.ts:82-90 | a capability is named exactly when its bit is set, in declaration order, at most ten names |
| AgencUtils.HighBitsIgnored | app/src/lib/agenc/utils.ts:82-90 | masks that agree on bits 0..9 give the same names |
| AgencUtils.FormatCapabilities | app/src/lib/agenc/utils.ts:92-94 | one label per name, in order, at most ten |
| AgencUtils.CombineCapabilities | app/src/pages/AgentRegister.tsx:45-48 | the OR loop sets exactly the bits of the selected capabilities and nothing above bit 9 |
| AgencUtils.CapabilityRoundTrip | app/src/pages/AgentRegister.tsx:45-48 | decoding a combined mask gives back exactly the selected set, in declaration order |
| AgencUtils.FormatAgentId | app/src/lib/agenc/utils.ts:102-107 | the result is 2·min(8, n) characters and decodes to the first min(8, n) bytes |
| AgencUtils.ShortenAddress | app/src/lib/agenc/utils.ts:109-111 | first four characters, then '...', then last four; 11 characters from four characters up |
| TaskDetail.NonZero | app/src/pages/TaskDetail.tsx:17 | the filtered bytes are exactly the non-zero bytes, never more than the input |
| TaskDetail.NonZeroAppend | app/src/pages/TaskDetail.tsx:17 | filtering distributes over concatenation |
| TaskDetail.NonZeroIdempotent | app/src/pages/TaskDetail.tsx:17 | filtering twice is filtering once |
| TaskDetail.FormatDescription | app/src/pages/TaskDetail.tsx:15-26 | 'No description' when all bytes are zero; the bytes as text when printable ASCII; otherwise 5..35 characters of hex that decode to the first ≤16 non-zero bytes, then '...' |
| TaskDetail.ZeroBytesIgnored | app/src/pages/TaskDetail.tsx:17 | inserting a zero byte anywhere never changes the output |
| TaskDetail.AllZeroShowsNoDescription | app/src/pages/TaskDetail.tsx:17-18 | an empty or all-zero description shows 'No description' |
| TaskDetail.FormatOnlySeesNonZero | app/src/pages/TaskDetail.tsx:17 | the output depends only on the non-zero bytes |
| TaskDetail.FormatTimestamp | app/src/pages/TaskDetail.tsx:10-13 | a zero timestamp is 'None'; any other goes to the locale rendering |

## Left out

- Network and wallet I/O, RPC calls, React rendering and routing are not modelled.
- Solana's `findProgramAddressSync` is the `derive` parameter. Distinctness lemmas assume it is injective on the seed lists they compare.
- The registry takes the name hash as the constructor parameter `hashName`. The deployed program hashes with `ModelRegistry.NameHash`, which is SHA-256 of the UTF-8 name. The parameter keeps the hash function's body out of the registry proofs.
- The 8-byte Anchor discriminator is a parameter of the account-data functions. Its value is derived from the account name by a foreign library.
- ModelRegistry.Registry.PublishModel: the order in which guards are checked is a choice of this model, since no handler source exists. Only which call fails, and that a failure changes nothing, is fixed by the sources.
- ModelRegistry.Registry.AddVersion: an address that holds a version or config account, rather than a model, fails as `AccountNotInitialized`. Anchor would report a discriminator mismatch instead.
- Event emission (`programs/model-registry/src/events.rs`) is left out. It has no effect on state.
- Sha256.Sha256Simple: uses the unbounded `(len + 8) / 64`. The source's signed 32-bit `>>` differs only at 2^31 − 8 bytes and above, and inputs of that size are not modelled.
- The round constants and initial hash values are stated as the FIPS 180-4 tables (sections 4.2.2 and 5.3.3). They are not derived from prime roots.
- `crypto.subtle.digest` (`sha256Hash`) and `hashFile` are foreign calls.
- `TextDecoder` is modelled only as far as `formatDescription` needs it: ASCII bytes decode to themselves, a leading byte order mark is dropped, and any byte from 0x80 up yields a character outside the printable range.
- TaskDetail.FormatDescription: takes bytes. The source's `number[]` could carry values outside 0..255, which an on-chain `[u8; 64]` never does.
- AgencUtils.FormatAgentId: takes bytes, for the same reason.
- The name and URI length guards count UTF-8 bytes, although the messages in `programs/model-registry/src/errors.rs:5-15` say "characters". Bytes match the capacities of the account layouts in `state.rs`.
- A Dafny `char` cannot hold a lone UTF-16 surrogate. `TextEncoder` writes U+FFFD for one, and `Bytes.Utf8Encode` does not cover that case.
- JavaScript strings are UTF-16 code-unit sequences; `ShortenAddress` slices `seq<char>`, which matches for the base58 addresses it receives.
- `formatSol`, `formatTimeAgo`, `toNumber` and `toBigInt` are left out. They are floating point, clock or dynamic-type conversions.
- The `formatTimestamp` date branch takes the locale rendering as a parameter.
- `app/src/lib/arweave.ts` is left out (JSON, base64 and `fetch`). So is the agent and task coordination program, whose source is not part of this model.

## Findings

| source | as written | input that shows it | evidently intended | confidence | as-written member | corrected member |
|---|---|---|---|---|---|---|
| app/src/lib/program.ts:74-80 | the bit length is written into only the last 4 bytes as a 32-bit value, so the upper 4 length bytes stay zero | any message of 2^29 bytes: its bit length 2^32 needs the fifth byte from the end | the 64-bit big-endian bit length of section 5.1.1 of FIPS 180-4 | not executed | Sha256.PaddedDiffersFromFipsAt2To29 | Sha256.HashIsFips |
| app/src/hooks/useRegistry.ts:41 | `dataSize: 283` filter on model accounts | every model account, which is 295 bytes | the model account size of 295 bytes | not executed | RegistryState.ClientFilterMissesEveryModel | RegistryState.ModelFilterKeepsEveryModel |
