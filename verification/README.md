# Crucible proof engine: a verified model

Crucible turns confidential-token operations into zero-knowledge proofs and checks them. This
project models the parts of it where a wrong branch would be silent: the text and byte formats
that values pass through on their way, the loader that decides which circuit artifacts may be
used, the way from a proof request to a verified proof, and the arithmetic of the circuits
themselves. Every theorem is about all inputs, all runs, or all registries and stores that the
operations can reach.

`dafny verify dfyconfig.toml` checks the whole project.

## How the project is laid out

- **Values and formats.** `Numerals`, `Hex` and `Text` give digit strings, bytes and lines a
  meaning; `FieldValues` is the canonical value, one string for each number below 2^256. On top
  of them stand `Bags` (ordered name-value bags), `Circuits` (decimal `u32`, versions, circuit
  ids, pinned interfaces), `Witness` (`Prover.toml`), `Scrub` (hex scrubbing), `Calldata`
  (on-chain inputs), `Words` (backend field words) and `Requests` (digests, state roots,
  requests and responses).
- **Keys and artifacts.** `KeyIds` and `KeyStore` model verification-key ids and the store as a
  map; `FileTree`, `Artifacts` and `ArtifactIntegrity` model the strict loader over a finite
  directory tree.
- **From request to verdict.** `ProverService` (registry, preflight, round trip, output
  comparison), `Mock` and `MockService`, `VerifierService` (several verifiers), `UltraHonk`,
  `UltraHonkVerifier`, `UltraHonkPipeline`, `UltraHonkHistory` (many requests over one store) and
  `UltraHonkBinding` (what an accepted proof binds). `IdealToolchain`, `IdealArtifacts` and
  `EnvelopeCodec` show that the premises can be met.
- **Circuits.** `ConfidentialCircuits` turns the Noir programs into functions whose `None` means
  that no proof exists, and `Ledger` runs them over live commitments. `Nullifiers` says what a
  nullifier tells about a second spend and who can spend a note, `TokenLedger` what happens to
  the value of each token.

Code that changes state is a class or a method with loops, proved against a specification
function; code made of expressions is a function.

## What is a parameter

SHA-256, the JSON grammar, Pedersen commitments and hashes, the cast of a field element to
`u64`, `nargo` and `bb` are arbitrary functions. Where a theorem needs something of them it says
so by name: `Mock.Faithful` (JSON decoding inverts encoding; `EnvelopeCodec.CodecIsFaithful` has
a codec that does), `UltraHonk.LoadsPinned` (the provider's bytecode is what the strict loader
of `Artifacts` returns; `IdealArtifacts` has a directory to load),
`UltraHonkPipeline.ReadsNumbers` (the backend's verdict depends on the numbers in a bundle, not
on spelling, version labels or proof-side digest text), `AcceptsOwnProofs` (it accepts what it
wrote), `EchoesRoot` (its root words are the root inputs it was given),
`UltraHonk.ReportsOwnSurface` (it reports as many words as the circuit it proves has public
names), `UltraHonkHistory.KeyFromBytecode` (its key depends on the bytecode alone),
`ConfidentialCircuits.CastConstrains` (the cast keeps 64-bit values and has no solution for
others, as documented) and `Ledger.Binding` (the openings that occur in a run do not collide).
`IdealToolchain` is a toolchain that meets all five premises made about one and still rejects
changed outputs. A hash into 32 bytes or into the field cannot be injective, so hashes are never
assumed to be: theorems about nullifiers and keyed digests name the exact pair of inputs that
would have to collide.

## Where the code does something other than its documentation says

- The decoder's comment says that lines outside the grammar are skipped
  (`crates/witness/src/decoder.rs:16`). A line can be put into a text without effect exactly when
  it is blank, a comment or has no `=` (`Witness.IgnoredIffSkipped`); a name with an unquoted
  value, such as `token = 1`, is an error (`Witness.UnquotedLineFails`).
- The decoder is documented to skip private-looking names (`crates/witness/src/decoder.rs:5-8`).
  It looks at no name that way: of disjoint sides every private value is returned
  (`Witness.PrivateValuesAreReturned`).
- `WitnessData` is documented as validated (`crates/witness/src/builder.rs:1-2`), but
  `from_request` does not look for names on both sides; `Witness.EncodeDecodeRoundTrip` says
  exactly when that shows.
- A manifest is documented to come out byte-identical for the same artifact
  (`crates/artifacts/src/manifest.rs:45-47`). The sorted list is the same exactly when every path
  has the same entries in the same order (`Artifacts.SortedAlike`); a path listed twice keeps the
  order it was given (`Artifacts.RepeatedPathKeepsOrder`).
- The directory walk turns every backslash into a slash (`crates/artifacts/src/loader.rs:172-177`),
  so on systems where a backslash is an ordinary character a file can pass under a declared
  name. `ArtifactIntegrity.StrictGuaranteeIff` says exactly when the promise "no undeclared file"
  holds, and `BackslashFileGoesUnnoticed` gives a directory.
- A mock key id is longer than the circuit id, and the prover unwraps the length check
  (`crates/mock/src/prover.rs:148-150`). `MockService.MockCompleteness` with `Mock.KeyIdFits` has the
  exact bound and `MockService.LongCircuitAborts` a request that passes every check and aborts.
- Flipping any byte of a mock proof is documented to break its digest
  (`crates/mock/src/prover.rs:106`). That holds short of a collision
  (`Mock.FlippedByteHolds`). The key and the payload are not separated, though: one digest serves
  every key and payload with the same concatenation (`Mock.SamePreimageIff`,
  `Mock.DigestServesTwoKeys`).
- Calldata writes its count modulo 2^32 and decoding ignores the version byte;
  `Calldata.DecodeEncode` and `Calldata.EncodeDecode` say what that costs. The encoder is
  documented to enforce the declared order (`crates/ultrahonk/src/calldata.rs:14-15`); it never
  looks at names and takes any order (`Calldata.EncodingSeesValuesOnly`).
- Key ids are documented never to escape the store root, foreign ones at least
  (`crates/ultrahonk/src/store.rs:43-45`). A path climbs exactly when the id parses with circuit
  `..` (`KeyStore.ClimbsIff`), which is an accepted circuit id (`KeyStore.ClimbingId`). What is
  stored is documented to be a well-formed key (`crates/ultrahonk/src/store.rs:66-67`); only its
  scheme is looked at (`KeyStore.VkStore.Put`).
- A proof is documented to be valid for exactly one context (`docs/security.md:44-52`,
  `interfaces/src/verifier/request.rs:10-14`). The UltraHonk verifier hands the backend output
  values in order and uses their names only to find the root words; nothing compares the names
  with the pinned surface. So:
  - An accepted proof with the same values under any names is accepted with a state exactly when
    the root words those names pick go with it (`UltraHonkBinding.AcceptedAgainIff`), and it is
    tied to its root exactly when the names still single that root out
    (`UltraHonkBinding.StateFixedIff`). With a root name replaced every state is accepted, and
    none (`UltraHonkBinding.RenamedRootFitsAnyState`), for every state-bound request
    (`UltraHonkBinding.GeneratedProofFitsAnyState`). Two other outputs may change names
    (`UltraHonkBinding.SwappedNamesAccepted`).
  - The state is documented as a pair of root and sequence
    (`interfaces/src/proof_provider/request.rs:148`); only the root counts
    (`UltraHonkBinding.OnlyRootCounts`).
  - Another circuit, version and artifact are refused unless the store gives a key for them that
    the backend accepts the same files under (`UltraHonkBinding.AcceptedElsewhereIff`,
    `UltraHonkBinding.OneKeyTwoContexts`). Another key id is not refused when it spells the same
    parts (`UltraHonkBinding.RespelledIdSameVerdict`).
- Outputs are documented to match when the bags are exactly equal
  (`crates/prover-core/src/public_inputs.rs:25`); their order does not count
  (`ProverService.OutputsMatchIff`, `ProverService.ReorderedOutputsMatch`).
- UltraHonk words are named by the request's operation but come from its circuit, and nothing
  ties the two. The response carries the circuit's own names exactly when they agree
  (`UltraHonk.NamedByOwnSurfaceIff`); with a backend that reports the circuit's own number of
  words, the count check lets exactly the mix-up of merge and transfer through
  (`UltraHonk.MisnamedIff`), and it happens, with a toolchain that insists on every input of the
  circuit it proves (`IdealToolchain.MixUpGoesThrough`).
- `crates/ultrahonk/src/provider.rs` stores the key before it decodes the proof bytes, so a
  failed request can leave a key behind: exactly when a proof word is malformed and the key was
  not there before (`UltraHonk.FailsOnProofWord`, `UltraHonk.FailureLeavesKeyIff`), as in
  `IdealToolchain.FailedRequestLeavesKey`.
- Nullifiers are documented as marking a commitment spent for good
  (`circuits/lib/src/crypto/nullifiers.nr:3-7`). Two accepted steps that consume one commitment
  publish one nullifier exactly when both are deposits with the same secret and token, or both
  are state-bound with the same secret, token and full root, hash collisions aside
  (`Nullifiers.SecondSpendNoticedIff`). Every other pair goes unnoticed, and for every 63-bit note
  there are such pairs (`Nullifiers.TwoSpends`), even under one token and root
  (`Nullifiers.TwoSecretsGoUnnoticed`).
- The account's secret is documented as the only thing that spends the account's commitments
  (`docs/circuit-model.md:15-17`). A commitment names no account: its opening and any account's
  secret suffice (`Nullifiers.AnySecretSpends`), so a transfer does not bind its recipient
  (`Nullifiers.RecipientIsNotBound`; the source says as much at
  `circuits/transfer/src/main.nr:64-68`).
- A merge may name one commitment twice (`ConfidentialCircuits.SelfMergeDoubles`). With the two
  points above, conservation rests on the ledger consuming live commitments at distinct places,
  which `Ledger` makes explicit.
- A commitment names no token either, so what holds of the total does not hold token by token: a
  step keeps every token's value exactly when it consumes notes of its own token or empty ones
  (`TokenLedger.StepConservesTokensIff`), and `TokenLedger.TokensMix` is an accepted run that
  does not.
- Amounts are bounded to 63 bits going in but not coming out: a sum of 2^63 or more is committed
  to and can never be spent again (`Ledger.StuckStays`, `Nullifiers.SpendableIff`).

## Model

| member | source | states |
|---|---|---|
| FieldValues.FromHexValue | interfaces/src/circuit/inputs.rs:53-74 | every text with an optional `0x` and 1 to 64 hex digits is accepted and keeps its number |
| FieldValues.CanonicalisationIsNumeric | interfaces/src/circuit/inputs.rs:53-74 | exactly those texts are accepted; two of them canonicalise alike if and only if they denote the same number, always below 2^256 |
| FieldValues.ValueInjective | interfaces/src/circuit/inputs.rs:41-74 | a canonical value is determined by its number |
| FieldValues.Idempotent | interfaces/src/circuit/inputs.rs:53-74 | canonicalising a canonical value, with or without its prefix, changes nothing |
| FieldValues.OfNatValue | interfaces/src/circuit/inputs.rs:53-74 | canonical values and numbers below 2^256 are in bijection |
| Hex.HexDigitsAre | interfaces/src/circuit/inputs.rs:53-74 | the hex digits are `0-9a-fA-F`, each denotes its place, and printed digits are lowercase |
| Hex.EncodedCharReads | interfaces/src/circuit/inputs.rs:334-343 | the UTF-8 bytes of every character spell its code point as RFC 3629 says |
| Hex.Utf8Length | interfaces/src/circuit/inputs.rs:159-170 | the byte length that limits are checked against is the number of UTF-8 bytes |
| Bags.PublicInputBag.Insert | interfaces/src/circuit/inputs.rs:277-285 | appends a new valid name, refuses a bad or taken one and then leaves the bag alone |
| Bags.PublicInputBag.Set | interfaces/src/circuit/inputs.rs:298-307 | replaces in place or appends, refuses bad names |
| Bags.PublicInputBag.Get | interfaces/src/circuit/inputs.rs:288-293 | the value at the first place that holds the name, and none exactly when no place does |
| Bags.PublicInputBag.CanonicalBytes | interfaces/src/circuit/inputs.rs:334-343 | the loop grows exactly the UTF-8 form of the `name=value` lines |
| Bags.PrivateWitnessBag.Insert | interfaces/src/circuit/inputs.rs:196-208 | as for public bags |
| Bags.RunRefinesMap | interfaces/src/circuit/inputs.rs:277-307 | after any run of inserts and sets, lookup agrees with a plain map driven by the same calls |
| Bags.ReachableIffValid | interfaces/src/circuit/inputs.rs:277-307 | the bags that runs can build are exactly those with valid, distinct names |
| Bags.CanonicalBytesInjective | interfaces/src/circuit/inputs.rs:334-343 | for bags built by any two runs, equal canonical bytes if and only if equal entries in order |
| Bags.NameAcceptedIff | interfaces/src/circuit/inputs.rs:159-170 | names are 1 to 64 of `a-z0-9_`; a wrong length is reported before wrong characters |
| Bags.OrderIsKept | interfaces/src/circuit/inputs.rs:277-307 | inserting appends, setting keeps every place it finds, no other entry changes, and each refusal has its error |
| Bags.CanonicalTextLines | interfaces/src/circuit/inputs.rs:334-343 | one `name=value` line an entry, each ended by a line feed |
| Circuits.ParseU32Spellings | interfaces/src/circuit/circuit.rs:169-181 | a decimal component parses to `n` exactly when it is `n` after an optional plus sign and any zeros |
| Circuits.VersionRoundTrip | interfaces/src/circuit/circuit.rs:163-181 | parsing a displayed version gives it back, for every triple of 32-bit numbers |
| Circuits.DisplayVersionInjective | interfaces/src/circuit/circuit.rs:163-167 | different versions display differently |
| Circuits.ParseVersionIff | interfaces/src/circuit/circuit.rs:163-181 | a text parses to a version exactly when it is three such numbers with dots between them; a version displays that way |
| Circuits.CircuitIdAccepted | interfaces/src/circuit/circuit.rs:83-98 | accepted exactly for 1 to 128 characters of the allowed alphabet, unchanged |
| Circuits.CircuitIdMeaning | interfaces/src/circuit/circuit.rs:83-98 | 1 to 128 of `A-Za-z0-9-_.`; the length, in bytes, is reported before wrong characters |
| Circuits.PinnedInterfaces | interfaces/src/circuit/expectations.rs:52-122 | the pinned names of every operation, in order |
| Circuits.PublicNamesUsable | interfaces/src/circuit/expectations.rs:32-122 | every pinned public name is a valid bag name, all differ, and the root names appear exactly for the state-bound operations |
| Witness.EncodeToml | crates/witness/src/encoder.rs:28-39 | the two loops print the public then the private entries, in order |
| Witness.DecodePublicOutputs | crates/witness/src/decoder.rs:19-38 | the line loop computes the decoding function, with each of its errors |
| Witness.EncodeDecodeRoundTrip | crates/witness/src/decoder.rs:19-38 | decoding an encoded witness gives the public then private entries in order exactly when no name is on both sides; otherwise it reports the first private clash |
| Witness.NoiseIsIgnored | crates/witness/src/decoder.rs:21-28 | a skipped line among any lines, and from any bag, changes nothing |
| Witness.ReadLineMatters | crates/witness/src/decoder.rs:26-35 | a line that is not skipped fails or adds an entry, whatever the bag |
| Witness.IgnoredIffSkipped | crates/witness/src/decoder.rs:16-28 | the lines that can be put anywhere in any text without effect are exactly the blank ones, the comments and those without `=` |
| Witness.UnquotedLineFails | crates/witness/src/decoder.rs:30-34 | a name with a value is an encoding error exactly when the value is not quoted |
| Witness.UnquotedExample | crates/witness/src/decoder.rs:58-60 | `token = 1` is refused |
| Witness.PrivateValuesAreReturned | crates/witness/src/decoder.rs:5-8 | decoding the encoding of disjoint sides gives back every private value under its name |
| Witness.PrintedLineText | crates/witness/src/encoder.rs:28-39 | the printed text has one line an entry: its name, ` = `, and its value in quotes behind `0x` |
| Witness.SkippedIff | crates/witness/src/decoder.rs:22-28 | skipped are lines of blanks, lines whose first other character is `#`, and lines without `=` |
| Witness.QuotedTextDecodes | crates/witness/src/decoder.rs:29-36 | a valid name with a quoted text decodes exactly when the text is a hex value, to the one entry of that number, and is refused as invalid hex otherwise |
| Witness.QuotedLineOutcome | crates/witness/src/decoder.rs:26-35 | the same for any name, any blanks around the parts and any bag: first the value, then what the bag says to the name |
| Witness.DecodeLinesAppend | crates/witness/src/decoder.rs:19-38 | lines are read one after the other into one bag, and the first that fails ends it |
| Witness.WitnessAssembler.WithPublic | crates/witness/src/builder.rs:105-112 | adds one public value under the bag's rules and touches nothing else |
| Witness.WitnessAssembler.WithPrivate | crates/witness/src/builder.rs:115-122 | adds one private value under the bag's rules and touches nothing else |
| Witness.WitnessAssembler.Assemble | crates/witness/src/builder.rs:137-168 | decides missing public names, then private ones, then the first shared name |
| Witness.AssembledSurvivesToml | crates/witness/src/builder.rs:137-168 | assembly succeeds exactly when all required names are there and the sides are disjoint, and then the `Prover.toml` trip loses nothing |
| Witness.AssemblyFault | crates/witness/src/builder.rs:137-161 | a failed assembly names the first missing public name, else the first missing private one, else the first shared one |
| Scrub.ScrubHex | crates/witness/src/secrets.rs:30-51 | the nested loops compute the scrubbing function |
| Scrub.ScrubbedObeysTheLaws | crates/witness/src/secrets.rs:34-49 | every non-hex character stays in place, and each maximal hex run becomes `***` if it has 16 or more digits and stays otherwise |
| Scrub.ScrubbingIsDetermined | crates/witness/src/secrets.rs:34-49 | those two laws admit only one function |
| Scrub.ScrubHexGuarantees | crates/witness/src/secrets.rs:22-51 | no run of 16 hex digits is left; a text changes if and only if it holds one; scrubbing is idempotent |
| Scrub.SixteenIsTheLimit | crates/witness/src/secrets.rs:22-44 | a run of 15 hex digits stays and one of 16 becomes `***` |
| Calldata.EncodeCalldata | crates/ultrahonk/src/calldata.rs:73-82 | the loop writes version, little-endian count and 32-byte values in order |
| Calldata.DecodeCalldata | crates/ultrahonk/src/calldata.rs:95-123 | the chunk loop computes the decoding function |
| Calldata.FieldBijection | crates/ultrahonk/src/calldata.rs:128-143 | values and 32-byte strings correspond one to one |
| Calldata.FieldKeepsValue | crates/ultrahonk/src/calldata.rs:128-143 | the 32 bytes are the value in big-endian order |
| Calldata.DecodeEncode | crates/ultrahonk/src/calldata.rs:73-123 | decoding what was encoded gives the values back in order exactly for fewer than 2^32 of them |
| Calldata.DecodeAccepts | crates/ultrahonk/src/calldata.rs:95-110 | accepted exactly when the length is 5 plus 32 times the count |
| Calldata.EncodeDecode | crates/ultrahonk/src/calldata.rs:95-123 | every string of the right length decodes and encodes back to itself exactly when its version byte is 1; only that byte can change |
| Calldata.EncodingSeesValuesOnly | crates/ultrahonk/src/calldata.rs:73-82 | two input lists below the count limit are encoded alike exactly when they hold the same values in the same order, whatever their names |
| Calldata.EncodedLayout | crates/ultrahonk/src/calldata.rs:71-82 | the byte 1, the count modulo 2^32 least significant byte first, then each value in 32 bytes most significant first |
| Calldata.DecodedContent | crates/ultrahonk/src/calldata.rs:95-123 | the version is the first byte, input `i` is named `input[i]` and denotes its 32 bytes; too short and wrong length have their errors |
| Words.ConcatWordBytes | crates/ultrahonk/src/exec.rs:337-343 | the loop concatenates 32 bytes a word, or fails if any word is malformed |
| Words.ConcatNoneIff | crates/ultrahonk/src/exec.rs:337-343 | concatenation fails exactly when some word is malformed |
| Words.WordBytesIff | crates/ultrahonk/src/exec.rs:346-358 | a proof word is 1 to 64 hex digits behind an optional `0x`, and its 32 bytes denote its number |
| Words.DigestBytesIff | crates/ultrahonk/src/exec.rs:361-371 | a digest is exactly 64 of them |
| Words.ResplitAt | crates/ultrahonk/src/verifier.rs:223-227 | word `i` of the split is `0x` and the hex of bytes `32i` to `32i + 31` |
| Words.PrintedWordText | crates/ultrahonk/src/verifier.rs:273-281 | words are written as `0x` and 64 lowercase digits |
| Words.ProofWordsSurvive | crates/ultrahonk/src/verifier.rs:223-227 | proof words stored as bytes and split again keep count and numbers, and concatenate to the same bytes |
| Words.ResplitConcat | crates/ultrahonk/src/verifier.rs:223-227 | any whole number of 32-byte words is what its printed words concatenate to |
| Words.DigestsAgree | crates/ultrahonk/src/exec.rs:361-371 | two digests agree as bytes exactly when they denote one 256-bit number, however spelled |
| Words.FieldFromWordMeaning | crates/ultrahonk/src/provider.rs:389-395 | a public word is named exactly when it is hex and fits 256 bits without its zeros, and keeps its number |
| Words.WordFormatsAgree | crates/ultrahonk/src/exec.rs:346-358 | for every word of the proof side, the named value's calldata bytes and the re-padded word are the same 32 bytes |
| Requests.ParseDigestMeaning | interfaces/src/proof_provider/proof.rs:129-135 | a digest parses to itself; two parse alike exactly when their numbers agree |
| Requests.ParseDigestIff | interfaces/src/proof_provider/request.rs:100-106 | accepted exactly for 64 hex digits behind an optional `0x`, keeping the number |
| Requests.DigestBytesValue | interfaces/src/proof_provider/request.rs:109-129 | digest and bytes denote one number, most significant byte first |
| Requests.RootToBytes | interfaces/src/proof_provider/request.rs:119-129 | the copy loop fills 32 bytes with the decoded root |
| Requests.DigestBytesBijection | interfaces/src/proof_provider/request.rs:109-129 | 64-digit digests and 32-byte strings correspond one to one |
| Requests.RootHalvesSplit | interfaces/src/proof_provider/request.rs:189-198 | both halves are below 2^128 and `hi * 2^128 + lo` is the root |
| Requests.RootHalvesInjective | interfaces/src/proof_provider/request.rs:189-198 | two roots have the same halves exactly when they are equal |
| Requests.RootHalvesDigits | interfaces/src/proof_provider/request.rs:189-198 | the high half is the first 32 digits and the low half the last 32 |
| Requests.FromResponseInjective | interfaces/src/verifier/request.rs:68-80 | a verification request keeps everything of the response it is built from |
| KeyIds.IdRoundTrip | crates/ultrahonk/src/vk.rs:26-48 | parsing a formed id gives exactly its circuit, version and checksum |
| KeyIds.IdForInjective | crates/ultrahonk/src/vk.rs:26-32 | two ids are equal exactly when their parts are |
| KeyIds.IdText | crates/ultrahonk/src/vk.rs:26-32 | an id is `uhk/`, circuit, version and checksum with slashes between |
| KeyIds.ParseSpellings | crates/ultrahonk/src/vk.rs:35-48 | exactly which other texts parse to the same parts |
| KeyIds.FormedIdFits | crates/ultrahonk/src/provider.rs:211-220 | a formed id passes the 128-byte limit exactly for circuit and version texts of at most 58 characters together |
| KeyStore.SharedPaths | crates/ultrahonk/src/store.rs:46-62 | two ids share a file exactly when they parse to the same triple, or neither parses and their hashes agree |
| KeyStore.PathsNeverNest | crates/ultrahonk/src/store.rs:46-62 | no key file lies on another's directory path |
| KeyStore.ClimbsIff | crates/ultrahonk/src/store.rs:41-62 | `..` occurs in a path exactly when the id parses with circuit `..`, so never for a foreign id |
| KeyStore.ClimbingId | crates/ultrahonk/src/vk.rs:26-32 | `..` is an accepted circuit id, and the path of every key id formed with it starts with `..` |
| KeyStore.StoreLayout | crates/ultrahonk/src/store.rs:46-62 | formed ids are filed under circuit, version and `<checksum>.json`, others under `_foreign` and the hash of the id |
| KeyStore.LookupOutcome | crates/ultrahonk/src/store.rs:101-124 | a missing file, a file of another scheme, or the document |
| KeyStore.VkStore.Put | crates/ultrahonk/src/store.rs:68-94 | an UltraHonk document replaces what its path held and no other path changes; any other scheme is refused with no change |
| KeyStore.VkStore.Get | crates/ultrahonk/src/store.rs:101-124 | the document at the id's path, missing and wrong-scheme files told apart |
| KeyStore.StoreRefinesMap | crates/ultrahonk/src/store.rs:68-124 | after any puts, every id reads the last accepted document put under its identity, or is missing |
| KeyStore.StoreHoldsOnlyPuts | crates/ultrahonk/src/store.rs:68-94 | every stored file belongs to a put id and carries the UltraHonk scheme |
| FileTree.WalkListsFiles | crates/artifacts/src/loader.rs:158-181 | the walk lists a path exactly when a file is there, for every finite tree |
| FileTree.WalkNoRepeats | crates/artifacts/src/loader.rs:158-181 | it lists no file twice |
| Artifacts.CollectFiles | crates/artifacts/src/loader.rs:158-181 | the recursive loop appends the walk's paths as they are reported |
| Artifacts.Normalize | crates/artifacts/src/manifest.rs:77-93 | checks the version, then every path in order, then sorts |
| Artifacts.SortIsStable | crates/artifacts/src/manifest.rs:91 | the result is sorted by path and keeps every path's entries in their order |
| Artifacts.SortedAlike | crates/artifacts/src/manifest.rs:77-93 | two manifests sort to the same list exactly when they declare the same entries for every path |
| Artifacts.RepeatedPathKeepsOrder | crates/artifacts/src/manifest.rs:91 | two different entries of one path come out in the order they were given |
| Artifacts.LeqTextIff | crates/artifacts/src/manifest.rs:91 | the order: a prefix first, and else the first differing character decides |
| Artifacts.SafeIffPlainComponents | crates/artifacts/src/manifest.rs:133-143 | safe paths are exactly non-empty components other than `.` and `..`, free of backslash and NUL, joined by slashes |
| Artifacts.NormalizedMeaning | crates/artifacts/src/manifest.rs:77-93 | normalising succeeds exactly for version 1 and safe paths, and returns the same manifest with its entries in path order, each path's in the order given |
| Artifacts.LoadedManifestSorted | crates/artifacts/src/loader.rs:87-130 | so is the manifest of every loaded artifact |
| Artifacts.LoadWithManifest | crates/artifacts/src/loader.rs:87-130 | the loops compute the loading function, errors in order |
| ArtifactIntegrity.LoadSucceedsIff | crates/artifacts/src/loader.rs:87-130 | success exactly when the version is supported, all paths are safe, every declared file is there with its digest and, if strict, every file is accounted for |
| ArtifactIntegrity.LoadFromRootIff | crates/artifacts/src/loader.rs:76-130 | the same from the root alone, where the manifest must be there and parse |
| ArtifactIntegrity.ManifestFaults | crates/artifacts/src/manifest.rs:77-100 | a malformed manifest, then a wrong version, then the first unsafe path |
| ArtifactIntegrity.FirstExtraReported | crates/artifacts/src/loader.rs:90-105 | then, in strict mode, the first listed file that is not accounted for |
| ArtifactIntegrity.FirstBadFileReported | crates/artifacts/src/loader.rs:107-127 | then the first declared file, in path order, that is missing or whose digest differs, with both digests |
| ArtifactIntegrity.NoManifestReported | crates/artifacts/src/loader.rs:76-83 | before all that, a missing manifest file |
| ArtifactIntegrity.LoadedFilesAreVerified | crates/artifacts/src/loader.rs:28-33 | exactly the declared paths can be asked for; each answer is what is on disk and hashes to the declared digest |
| ArtifactIntegrity.StrictGuaranteeIff | crates/artifacts/src/loader.rs:91-105 | after a strict load nothing undeclared is on disk if and only if no file path has a backslash |
| ArtifactIntegrity.BackslashFileGoesUnnoticed | crates/artifacts/src/loader.rs:171-177 | a directory that loads strictly with an undeclared file in it |
| Mock.WireRoundTrip | crates/mock/src/prover.rs:72-90 | the version and value codecs inside an envelope lose nothing |
| Mock.BuildProofBytes | crates/mock/src/prover.rs:159-191 | envelope bytes followed by the keyed digest over domain, payload, key and a zero byte |
| Mock.KeyIdFits | crates/mock/src/prover.rs:148-150 | the derived id passes the length check exactly for circuit and version texts of at most 119 characters together |
| Mock.PreimageLayout | crates/mock/src/prover.rs:180-191 | domain text, payload, key and a zero byte, in that order |
| Mock.DerivedIds | crates/mock/src/prover.rs:148-156 | the key id is `mock-vk`, circuit and version with slashes between, and the checksum hashes the same with `mock-artifact` |
| Mock.GenerateOutcome | crates/mock/src/prover.rs:206-218 | an invalid request, then another backend, then the abort on an over-long id; otherwise a response |
| Mock.GeneratedContent | crates/mock/src/prover.rs:219-236 | the response names the request's context and the derived ids, and its proof opens to an envelope naming the same |
| Mock.ParseEnvelopeIff | crates/mock/src/prover.rs:77-90 | an envelope parses exactly when its version and every value do and it is of this format |
| Mock.EarlyRejections | crates/mock/src/verifier.rs:65-98 | format and backend, then length and digest, then the envelope, are refused before anything is compared |
| Mock.ReasonIsFirstDisagreement | crates/mock/src/verifier.rs:100-149 | with a valid digest and envelope, acceptance means no field disagrees and each reason is given exactly for the first that does |
| Mock.AcceptedAgrees | crates/mock/src/verifier.rs:65-149 | acceptance exactly when the digest holds, the envelope parses and every context field agrees |
| Mock.ProofBindsItsContext | crates/mock/src/verifier.rs:65-149 | two requests accepted with the same proof bytes, even under different keys, agree on everything but the tracing id |
| Mock.OtherKeyNeedsCollision | crates/mock/src/verifier.rs:49-58 | a proof made under one key is accepted under another only if two different keyed preimages collide |
| Mock.SamePreimageIff | crates/mock/src/prover.rs:180-191 | two keys and payloads are digested alike, before any hashing, exactly when payload and key concatenate to the same bytes |
| Mock.DigestServesTwoKeys | crates/mock/src/prover.rs:180-191 | so the digest made for a payload under one key holds for a longer payload under the rest of that key |
| Mock.TamperedPartDetected | crates/mock/src/verifier.rs:49-58 | a changed digest never holds, and a changed payload of the same length holds under the old digest exactly when two different preimages collide |
| Mock.FlippedByteHolds | crates/mock/src/prover.rs:106 | after one byte of a proof is flipped its digest holds exactly when the byte is in the payload and the two named preimages collide |
| Mock.FlippedByteDetected | crates/mock/src/verifier.rs:65-96 | so a proof accepted after a flip names a collision |
| Mock.GeneratedProofVerifies | crates/mock/src/prover.rs:206-236 | what the prover makes, a verifier with the same key accepts |
| EnvelopeCodec.CodecIsFaithful | crates/mock/src/prover.rs:72-90 | the assumption that envelope decoding inverts encoding can be met |
| MockService.MockCompleteness | crates/mock/src/prover.rs:194-236 | for every key, registration history and mock request: proved and verified exactly when preflight passes and the derived key id fits |
| MockService.MockEndings | crates/mock/src/prover.rs:194-236 | any other request ends with its preflight fault or, past preflight, with the abort |
| MockService.MockAnswers | crates/mock/src/prover.rs:219-236 | what is returned carries the request's id, circuit, version, backend, public values and state |
| MockService.LongCircuitAborts | crates/mock/src/prover.rs:148-150 | a well-built request with an accepted circuit id that passes preflight and aborts |
| ProverService.ProviderRegistry.Register | crates/prover-core/src/backend.rs:34-37 | removes the backend's earlier provider and appends the new one |
| ProverService.ProviderRegistry.Provide | crates/prover-core/src/backend.rs:62-76 | unknown backend, unsupported circuit and generation told apart |
| ProverService.RegistryIsSurvivors | crates/prover-core/src/backend.rs:34-37 | after any registrations the registry is exactly those nothing later replaced, in order |
| ProverService.RegistryRefinesMap | crates/prover-core/src/backend.rs:34-45 | at most one provider a backend, and lookup gives the latest |
| ProverService.DispatchRunsTheLatest | crates/prover-core/src/backend.rs:62-76 | a proof comes back exactly when the latest provider of the request's backend supports the circuit version and generates it |
| ProverService.DispatchOutcome | crates/prover-core/src/backend.rs:62-76 | unknown backend, unsupported circuit, the provider's own error, or its proof |
| ProverService.Service.ProveAndVerify | crates/prover-core/src/prover.rs:107-123 | preflight, dispatch and local round trip in that order, each with its error |
| ProverService.ReturnedProofsAreVerified | crates/prover-core/src/prover.rs:112-123 | a returned proof passed preflight, came from dispatch and was accepted by the local verifier |
| ProverService.ServiceOutcome | crates/prover-core/src/prover.rs:107-123 | preflight fault, dispatch error, missing verifier, verifier failure or rejection in that order, else proof and verdict |
| ProverService.PreflightIff | crates/prover-core/src/prover.rs:67-86 | any request passes exactly when both bags are non-empty, every private and public name is found, a state-bound one has a state, and root words fit the state |
| ProverService.PreflightFault | crates/prover-core/src/prover.rs:67-86 | otherwise the structural fault, else all missing private names, else all missing public ones |
| ProverService.ValidateFault | interfaces/src/proof_provider/request.rs:292-328 | which structural fault is reported, for every request |
| ProverService.MissingNamesMeaning | crates/prover-core/src/witness.rs:42-58 | the missing names are those not found, in the order required |
| ProverService.PreflightBindsState | crates/prover-core/src/prover.rs:67-86 | a merge, transfer or withdraw request passes exactly when every pinned name is there and its root words are the two halves of its state root |
| ProverService.HalvesMatchRoot | interfaces/src/proof_provider/request.rs:316-326 | two values equal the root's halves exactly when both are below 2^128 and recombine to the root |
| ProverService.CompareOutputs | crates/prover-core/src/public_inputs.rs:34-60 | the two loops collect the differing, missing and unexpected names in order |
| ProverService.ComparedMeaning | crates/prover-core/src/public_inputs.rs:34-60 | a name differs, is missing or is unexpected exactly by what the two bags answer for it |
| ProverService.ComparedInOrder | crates/prover-core/src/public_inputs.rs:34-60 | each list follows the order of the bag it comes from |
| ProverService.OutputsMatchIff | crates/prover-core/src/public_inputs.rs:63-65 | outputs match exactly when both bags answer every name alike, whatever their order |
| ProverService.ReorderedOutputsMatch | crates/prover-core/src/public_inputs.rs:24-30 | two entries in either order match without being equal bags |
| VerifierService.VerificationService.Register | crates/verifier/src/service.rs:49-56 | appends, keeping several verifiers a backend |
| VerifierService.VerificationService.Verify | crates/verifier/src/service.rs:82-110 | the loop with its flag computes the report or the error |
| VerifierService.VerificationService.VerifyAll | crates/verifier/src/service.rs:114-130 | the combined verdict of that report |
| VerifierService.ReportListsServed | crates/verifier/src/service.rs:82-110 | a report exists exactly when some verifier serves the backend and all of those ran; it lists exactly their answers in registration order |
| VerifierService.FirstFailureReported | crates/verifier/src/service.rs:93-98 | the first verifier that cannot run names the failure |
| VerifierService.VerdictExistsIff | crates/verifier/src/service.rs:82-130 | report and verdict exist exactly when some registered verifier has the request's backend and all of those run; with none both answer unknown backend |
| VerifierService.FirstThatCannotRun | crates/verifier/src/service.rs:93-98 | the first of them that cannot run is named by report and verdict |
| VerifierService.OtherBackendsIgnored | crates/verifier/src/service.rs:88-91 | registering a verifier of another backend anywhere changes no verdict |
| VerifierService.ReportSplits | crates/verifier/src/report.rs:54-75 | accepted and rejected labels together are exactly the report's labels |
| VerifierService.DisagreesIff | crates/verifier/src/report.rs:64-66 | verifiers disagree exactly when one accepted and one rejected |
| VerifierService.VerifyAllMeaning | crates/verifier/src/service.rs:114-130 | accepted exactly on unanimity; otherwise the reason of the first rejection in order, or `InvalidProof` if it gave none |
| VerifierService.VerdictAcceptsIff | crates/verifier/src/service.rs:114-130 | a verdict accepts exactly when every registered verifier of the backend accepts, and else gives a reason |
| VerifierService.ListsFollowReport | crates/verifier/src/report.rs:54-75 | each result is listed on its side with its own label and reason, in order |
| UltraHonk.SupportedKeyFits | crates/ultrahonk/src/provider.rs:211-220 | for every supported circuit the key id fits, so that error cannot happen |
| UltraHonk.SupportsIff | crates/ultrahonk/src/backend.rs:55-76 | the five protocol circuits at version 0.1.0 |
| UltraHonk.ConsistentIff | crates/ultrahonk/src/exec.rs:242-262 | fresh artifacts are consistent when all three carry the scheme and a version and both digests denote one number |
| UltraHonk.BytecodeOutcome | crates/ultrahonk/src/provider.rs:183-207 | an unreadable or absent file is an unavailable artifact, any other load error one of integrity |
| UltraHonk.NameWords | crates/ultrahonk/src/provider.rs:250-278 | the zip loop names the words and never meets a refused or duplicate name |
| UltraHonk.NamedWordsMeaning | crates/ultrahonk/src/provider.rs:253-278 | naming succeeds exactly on the pinned count of readable words; the words the verifier later writes denote the backend's numbers in the backend's order |
| UltraHonk.CalldataIsInputsBytes | crates/ultrahonk/src/exec.rs:88-93 | the calldata body of the named outputs is the backend's own byte form of its words |
| UltraHonk.UltraHonkProvider.Generate | crates/ultrahonk/src/provider.rs:129-315 | every check in order, the response, and the whole new state of the key store, also on failure |
| UltraHonk.GeneratedIff | crates/ultrahonk/src/provider.rs:129-315 | exactly which requests are answered, and every field of the answer |
| UltraHonk.GenerateFault | crates/ultrahonk/src/provider.rs:129-315 | the errors of the others, in the order of the checks |
| UltraHonk.StoreAfterGenerate | crates/ultrahonk/src/provider.rs:280-289 | the store changes at the key's path only, to the key that was written, and only past naming |
| UltraHonk.ResponseNamesItsArtifact | crates/ultrahonk/src/provider.rs:183-220 | the checksum is the digest the strictly loaded manifest declares for `<circuit>.json` and the file on disk has, and the key id parses to exactly this circuit, version and checksum |
| UltraHonk.FailsOnProofWord | crates/ultrahonk/src/provider.rs:289-298 | past naming, a request fails exactly when some proof word is malformed |
| UltraHonk.FailureLeavesKeyIff | crates/ultrahonk/src/provider.rs:278-298 | a failed request changes the key store exactly when it got past naming and its path did not hold that key |
| UltraHonk.NamedByOwnSurfaceIff | crates/ultrahonk/src/provider.rs:250-278 | a response has its circuit's own names exactly when the request's operation is the circuit's |
| UltraHonk.MisnamedIff | crates/ultrahonk/src/provider.rs:250-265 | when the backend reports the circuit's own number of words, a response is misnamed exactly for merge on the transfer circuit or transfer on the merge circuit |
| UltraHonkVerifier.AcceptsIff | crates/ultrahonk/src/verifier.rs:78-213 | acceptance exactly when the id names the request's own context and is stored, the words are whole, the root words recombine to the submitted root and the backend accepts the rebuilt files |
| UltraHonkVerifier.VerifyStages | crates/ultrahonk/src/verifier.rs:78-213 | the verdict of every stage, with its reason or error |
| UltraHonkVerifier.KeyFaultIs | crates/ultrahonk/src/verifier.rs:86-111 | an unreadable id is the wrong key, and else the first of circuit, version and checksum that differs |
| UltraHonkVerifier.StateFaultIs | crates/ultrahonk/src/verifier.rs:144-162 | root words without a state are an unbound proof, with another root a stale one |
| UltraHonkVerifier.RebuiltContent | crates/ultrahonk/src/verifier.rs:216-296 | every word and label of the files the backend is given |
| UltraHonkVerifier.AcceptedContextsAgree | crates/ultrahonk/src/verifier.rs:86-162 | requests accepted under one key id agree on circuit, version and checksum, and with equal root words on the full root, whatever the stores |
| UltraHonkVerifier.StateUncheckedWithoutRootWords | crates/ultrahonk/src/verifier.rs:144-162 | unless both root words are there, the state reference changes no verdict |
| UltraHonkPipeline.RebuiltIsSame | crates/ultrahonk/src/verifier.rs:216-296 | the files rebuilt from an untouched response denote the proof, inputs and key the backend wrote |
| UltraHonkPipeline.ResponseCarriesRoot | interfaces/src/proof_provider/request.rs:316-326 | the outputs of a state-bound proof carry exactly the root its request claimed |
| UltraHonkPipeline.GeneratedProofAccepted | crates/ultrahonk/src/verifier.rs:78-213 | for every request past preflight the generated proof is accepted exactly when it is not empty, as long as its key is still stored |
| UltraHonkPipeline.StateSubstitutionRefused | crates/ultrahonk/src/verifier.rs:144-162 | with a state-bound proof and its outputs untouched, no state is `MissingStateBinding` and any other root is `StateReferenceMismatch` |
| UltraHonkPipeline.ServiceCompleteness | crates/prover-core/src/prover.rs:107-123 | a service over a shared store succeeds exactly when preflight passes, the circuit is supported and a non-empty proof is generated; of its own proofs it rejects the empty ones only |
| UltraHonkHistory.LaterRequestKeepsKey | crates/ultrahonk/src/store.rs:68-94 | no later request, failed or not, removes or changes the key an earlier one was proved under |
| UltraHonkHistory.EveryEarlierProofAccepted | crates/ultrahonk/src/verifier.rs:78-213 | after any sequence of requests over one store, every non-empty proof generated along the way is still accepted |
| UltraHonkBinding.AcceptedAgainIff | crates/ultrahonk/src/verifier.rs:144-213 | an accepted proof with the same output values, any names and any state is accepted exactly when the root words those names pick are the halves of that state's root |
| UltraHonkBinding.StateFixedIff | docs/security.md:44-52 | no state but the one of a given root is accepted exactly when both root names are there and their values, if 128-bit, recombine to that root |
| UltraHonkBinding.UntouchedOutputsFixState | docs/ultrahonk.md:131-140 | with its outputs untouched, an accepted state-bound proof is accepted exactly with its own root |
| UltraHonkBinding.RenamedRootFitsAnyState | crates/ultrahonk/src/verifier.rs:144-162 | with a root name replaced by a free valid one, the outputs are still a bag and every state, or none, is accepted |
| UltraHonkBinding.GeneratedProofFitsAnyState | crates/ultrahonk/src/verifier.rs:144-162 | under the completeness premises that happens to the non-empty response of every state-bound request |
| UltraHonkBinding.SwappedNamesAccepted | crates/ultrahonk/src/verifier.rs:267-296 | an accepted proof is accepted again after two outputs other than the root words change names |
| UltraHonkBinding.OnlyRootCounts | interfaces/src/proof_provider/request.rs:145-158 | two states with one root get one verdict, whatever sequence number and label |
| UltraHonkBinding.AcceptedElsewhereIff | crates/ultrahonk/src/verifier.rs:86-130 | an accepted proof is accepted for another circuit, version and artifact exactly when the store has a key under their id and the backend accepts the same files under it |
| UltraHonkBinding.OneKeyTwoContexts | crates/ultrahonk/src/verifier.rs:116-129 | which is the case when the store gives both ids one key |
| UltraHonkBinding.RespelledIdSameVerdict | crates/ultrahonk/src/vk.rs:35-48 | key ids that parse to the same parts get the same verdict |
| IdealToolchain.IdealMeetsPremises | crates/ultrahonk/src/exec.rs:199-306 | the five premises about the toolchain hold together of some toolchain |
| IdealToolchain.IdealRefusesChangedOutputs | crates/ultrahonk/src/verifier.rs:164-213 | whose verifier accepts a response only with the output values it was generated with |
| IdealToolchain.IdealProvesIff | crates/ultrahonk/src/provider.rs:129-315 | with it, a request on a known circuit gets a proof, a non-empty one, exactly when it is valid, addressed here, in the supported version, carries every input of the circuit and is of an operation with as many public names |
| IdealToolchain.MixUpGoesThrough | crates/ultrahonk/src/provider.rs:250-278 | a well-built merge request on the transfer circuit, and the other way round, that carries the inputs of both, passes preflight and comes back with the names of the wrong circuit |
| IdealToolchain.FailedRequestLeavesKey | crates/ultrahonk/src/provider.rs:278-298 | a toolchain with a malformed proof word, under which every valid request fails and leaves a key in an empty store |
| IdealArtifacts.PinnedLoads | crates/artifacts/src/loader.rs:76-130 | a directory with a manifest and its bytecode loads strictly |
| IdealArtifacts.PinnedIdealProves | crates/ultrahonk/src/provider.rs:183-209 | a toolchain that proves from that directory meets the premise on pinned bytecode and answers like the ideal one |
| IdealArtifacts.PinnedProofExists | crates/ultrahonk/src/provider.rs:129-315 | for every state-bound operation some request past preflight gets a proof from pinned bytecode |
| ConfidentialCircuits.AddBoundedExact | circuits/lib/src/state/transition.nr:96-102 | defined exactly for two 63-bit amounts, and then the integer sum |
| ConfidentialCircuits.SubtractBoundedExact | circuits/lib/src/state/transition.nr:106-113 | defined exactly when the spend is at most a 63-bit balance, and then the integer difference |
| ConfidentialCircuits.InBitsIff | circuits/lib/src/constraints/range.nr:18-27 | a value fits a width of at most 64 bits exactly when it is below that power of two |
| ConfidentialCircuits.NoOverdrawIff | circuits/lib/src/constraints/range.nr:35-40 | the guard holds exactly when the spend is at most a 64-bit balance |
| ConfidentialCircuits.CommitmentCovers | circuits/lib/src/crypto/commitments.nr:17-21 | two notes share a commitment exactly when equal, or by a collision of domain, amount and blinding |
| ConfidentialCircuits.RegisterAccepts | circuits/register/src/main.nr:23-26 | registering has a proof exactly for the secret that the address is the key hash of |
| ConfidentialCircuits.OnlyOwnAccount | circuits/lib/src/types/account.nr:39-44 | no circuit has a proof for an account that is not the key hash of the secret |
| ConfidentialCircuits.DepositAccepts | circuits/deposit/src/main.nr:21-44 | exactly when a deposit has a proof, and what its commitment opens to, with the hashes written out |
| ConfidentialCircuits.MergeAccepts | circuits/merge/src/main.nr:28-58 | exactly when a merge has a proof, and what its commitment opens to, with the hashes written out |
| ConfidentialCircuits.TransferAccepts | circuits/transfer/src/main.nr:33-71 | exactly when a transfer has a proof, and the two openings that add up to the old amount, with the hashes written out |
| ConfidentialCircuits.WithdrawAccepts | circuits/withdraw/src/main.nr:27-54 | exactly when a withdrawal has a proof, and what its change opens to, with the hashes written out |
| ConfidentialCircuits.TruncatingTransfer | circuits/transfer/src/main.nr:57-62 | with a cast that only truncates, exactly when a transfer has a proof, what its two commitments open to, and exactly when they add up to the old amount |
| ConfidentialCircuits.TruncatingTransferMints | circuits/transfer/src/main.nr:57-62 | with such a cast a transfer of 2^64 + 5 out of 1000 has a proof and leaves 995 |
| ConfidentialCircuits.WordsOfRootInjective | circuits/lib/src/crypto/nullifiers.nr:32-37 | the two public words of a root determine all 256 bits of it |
| ConfidentialCircuits.WordsOfRootValue | interfaces/src/proof_provider/request.rs:178-198 | the first word is the high half of the root and the second the low one |
| ConfidentialCircuits.SameStateNullifier | circuits/lib/src/crypto/nullifiers.nr:38-46 | two nullifiers are equal exactly when secret, commitment, token and full root agree, or the preimages collide |
| ConfidentialCircuits.NullifierKindsApart | circuits/lib/src/crypto/nullifiers.nr:25-46 | token-bound and state-bound nullifiers meet only in a collision |
| ConfidentialCircuits.MergeNullifiersCoincide | circuits/merge/src/main.nr:46-51 | a merge's two nullifiers are equal exactly for equal commitments, or by a collision |
| ConfidentialCircuits.SelfMergeDoubles | circuits/merge/src/main.nr:43-58 | merging a commitment with itself has a proof for every 63-bit amount, opens to twice the amount and repeats its nullifier |
| Ledger.StepTracks | circuits/lib/src/state/transition.nr:76-88 | after every accepted step the followed openings open exactly the live commitments |
| Ledger.StepConserves | docs/circuit-model.md:92-100 | one step changes the hidden total by exactly its deposit or withdrawal |
| Ledger.RunTracks | circuits/lib/src/state/transition.nr:76-88 | the same after every accepted run, of any length |
| Ledger.RunConserves | docs/circuit-model.md:92-100 | over every accepted run whose openings do not collide, the final total plus withdrawals is the initial total plus deposits, as integers |
| Ledger.InternalRunsKeepTotal | docs/circuit-model.md:92-100 | merges and transfers alone leave the total unchanged |
| Ledger.RunKeepsBounded | circuits/lib/src/lib.nr:28-33 | no run makes an amount of more than 64 bits, so no sum wraps the field |
| Ledger.StuckStays | circuits/lib/src/state/transition.nr:96-113 | a live note of 2^63 or more is never consumed by any accepted run |
| Nullifiers.PublishedAreHashes | circuits/lib/src/state/transition.nr:44-73 | every accepted step publishes one nullifier for each commitment it consumes, the hash of that spend |
| Nullifiers.SecondSpendNoticedIff | circuits/lib/src/crypto/nullifiers.nr:3-46 | for any two accepted steps that consume one commitment, exactly when their nullifiers agree |
| Nullifiers.SecondSpendUnderRoots | circuits/lib/src/crypto/nullifiers.nr:29-46 | the same for state-bound steps under two 256-bit roots: same secret, token and full root, collisions aside |
| Nullifiers.StepNamesItsOwner | circuits/lib/src/types/account.nr:34-44 | every accepted step names the key hash of its secret |
| Nullifiers.OneAddressOneSecret | docs/circuit-model.md:15-17 | one address goes with two secrets in accepted steps only by a collision of their key hashes |
| Nullifiers.TwoSpends | docs/circuit-model.md:19-22 | for every 63-bit note, two accepted spends of any kinds, secrets, tokens and roots; where these differ only a collision gives one nullifier |
| Nullifiers.TwoSecretsGoUnnoticed | circuits/withdraw/src/main.nr:38-46 | two withdrawals of one commitment under one token and root are both accepted and publish different nullifiers when the secrets differ |
| Nullifiers.AnySecretSpends | docs/circuit-model.md:15-17 | the opening and any account's secret suffice to consume a note by any operation, exactly for amounts below 2^63 |
| Nullifiers.SpendableIff | circuits/lib/src/state/transition.nr:96-113 | for any secret and any kind of operation, some accepted step consumes a note exactly when its amount is below 2^63 |
| Nullifiers.RecipientIsNotBound | circuits/transfer/src/main.nr:64-70 | a run in which a transfer is followed by a withdrawal of the recipient's note under the sender's secret is accepted |
| TokenLedger.StepValue | docs/circuit-model.md:92-100 | one step takes from each token what it consumes there and gives all of it to its own |
| TokenLedger.StepConservesTokensIff | docs/circuit-model.md:20-22 | a step keeps every token's value exactly when it consumes notes of its own token or worth nothing |
| TokenLedger.EveryStepBalancesIff | docs/circuit-model.md:92-100 | all along an accepted run every token's value is kept exactly when every step does that |
| TokenLedger.RunConservesTokens | docs/circuit-model.md:92-100 | over such a run each token's value changes by its deposits less its withdrawals |
| TokenLedger.TokensMix | circuits/deposit/src/main.nr:34-43 | a deposit under one token and a withdrawal of that note under another is an accepted run that keeps neither |

## Left out

- ConfidentialCircuits.AddBoundedExact: rests on `CastConstrains`, the cast as `circuits/lib/src/constraints/range.nr:16-17` documents it; what the Noir compiler emits for the cast is not part of this model, and `TruncatingTransfer` says what would follow from the other reading.
- Ledger.RunConserves: the ledger itself is not in the repository, so its rule (consume live commitments, a merge at two distinct places) is a modelling decision, and so is adding amounts across tokens (`TokenLedger` separates them); amounts deposited and withdrawn are the private ones the proofs use, because the circuits publish neither.
- MockService.MockCompleteness: assumes that JSON decoding inverts encoding; only the version and field-value codecs inside it are proved.
- UltraHonkPipeline.GeneratedProofAccepted: rests on the three named premises about the toolchain and on the store still giving the key; `UltraHonkHistory.EveryEarlierProofAccepted` derives the latter for stores that one provider writes.
- UltraHonk.UltraHonkProvider.Generate: finding the two toolchains in the right versions is one parameter, and solving the witness and proving, with scratch directories and source copying, is another; I/O failures of the store are not modelled.
- ArtifactIntegrity.LoadSucceedsIff: the root is a directory of a finite tree; symbolic links, unreadable files, names that are not UTF-8 and case-insensitive or platform path rules are not modelled.
- KeyStore.SharedPaths: paths are component sequences below the store root; circuit ids `.` and `..` are accepted by the code and what the operating system makes of them is not modelled.
- Calldata.DecodeEncode: machine sizes are 64-bit, so `count * 32` does not overflow.
- Mock.AcceptedAgrees: SHA-256 is an arbitrary 32-byte function; nothing is claimed about forging a digest.
- Error texts: messages are merged into one constructor per kind, and the mock's provider errors keep no reason text.
- Deserialisation of bags and ids that bypasses their constructors: theorems quantify over values the constructors can build.
- `WitnessValidation`, redacted views, proof envelopes, schemas, golden vectors, the CLI, benches and examples: no state or arithmetic beyond what is here.
- The `nargo` and `bb` output scrapers, locating binaries, and file permissions: process and file I/O.
- Privacy by construction (types without `Debug` or `Serialize`): a fact about types, not behaviour.
- `Consumed::of`, `Account` and `Token` of the circuit library: no operation circuit uses them.
