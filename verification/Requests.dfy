/**
 The values that travel between prover and verifier: digests, state references, proof
 requests and responses, verification requests and outcomes.
 */
module Requests {
  import opened Outcomes
  import opened Numerals
  import opened Text
  import opened Hex
  import opened FieldValues
  import opened Bags
  import opened Circuits

  // ---------- 256-bit digests ----------

  predicate IsDigest256(s: string) {
    |s| == 64 && AllLowerHex(s)
  }

  /** Artifact checksums and state roots: 64 lowercase hex characters, zeros kept. */
  type Digest256 = s: string | IsDigest256(s) witness seq(64, i => '0')

  type Hash32 = b: seq<byte> | |b| == 32 witness seq(32, i => 0)

  /** SHA-256 is a parameter: nothing here depends on what it computes. */
  type Hasher = seq<byte> -> Hash32

  function ParseDigest(hex: string): Option<Digest256> {
    var s := Strip0x(hex);
    if ByteLen(s) != 64 || !AllHex(s) then None
    else
      HexIsAscii(s);
      LowerKeepsDigits(s);
      Some(ToLower(s))
  }

  function DigestOfBytes(bytes: Hash32): Digest256 {
    HexEncode(bytes)
  }

  /** `ArtifactChecksum::from_bytes`. */
  function Checksum(sha: Hasher, bytes: seq<byte>): Digest256 {
    DigestOfBytes(sha(bytes))
  }

  function DigestToBytes(d: Digest256): Hash32 {
    DecodePairs(d)
  }

  method RootToBytes(root: Digest256) returns (out: array<byte>)
    ensures fresh(out) && out[..] == DigestToBytes(root)
  {
    out := new byte[32](i => 0);
    var decoded := DigestToBytes(root);
    for i := 0 to |decoded|
      invariant out[..i] == decoded[..i]
    {
      out[i] := decoded[i];
    }
  }

  lemma DigestBytesBijection(d: Digest256, bytes: Hash32)
    ensures DigestToBytes(DigestOfBytes(bytes)) == bytes
    ensures DigestOfBytes(DigestToBytes(d)) == d
  {
    DecodeEncode(bytes);
    DecodePairsValue(d);
    EncodeValue(DecodePairs(d));
    HexSameWidthUnique(DigestOfBytes(DigestToBytes(d)), d);
  }

  /** A digest parses to itself, and two digests parse alike exactly when their numbers agree. */
  lemma ParseDigestMeaning(d: Digest256, a: string, b: string)
    ensures ParseDigest(d) == Some(d)
    ensures ParseDigest(a).Some? && ParseDigest(b).Some? ==>
              (ParseDigest(a) == ParseDigest(b) <==> HexValue(Strip0x(a)) == HexValue(Strip0x(b)))
  {
    NoHexPrefix(d);
    HexIsAscii(d);
    LowerKeepsDigits(d);
    if ParseDigest(a).Some? && ParseDigest(b).Some? {
      var x, y := Strip0x(a), Strip0x(b);
      HexIsAscii(x);
      HexIsAscii(y);
      LowerKeepsDigits(x);
      LowerKeepsDigits(y);
      if HexValue(x) == HexValue(y) {
        HexSameWidthUnique(ToLower(x), ToLower(y));
      }
    }
  }

  // ---------- State roots as two halves ----------

  const TWO_128: nat := 0x1_0000_0000_0000_0000_0000_0000_0000_0000

  datatype StateReference = StateReference(root: Digest256, sequence: nat, humanLabel: Option<string>)

  /** The most and least significant 128 bits of a root, as `(hi, lo)`. */
  function RootHalves(root: Digest256): (FieldValue, FieldValue) {
    HalvesAccepted(root);
    (FromHex(root[..32]).value, FromHex(root[32..]).value)
  }

  lemma HalvesAccepted(root: Digest256)
    ensures FromHex(root[..32]).Ok? && Value(FromHex(root[..32]).value) == HexValue(root[..32])
    ensures FromHex(root[32..]).Ok? && Value(FromHex(root[32..]).value) == HexValue(root[32..])
  {
    HalfAccepted(root[..32]);
    HalfAccepted(root[32..]);
  }

  lemma HalfAccepted(half: string)
    requires |half| == 32 && AllLowerHex(half)
    ensures FromHex(half).Ok? && Value(FromHex(half).value) == HexValue(half)
  {
    NoHexPrefix(half);
    HexIsAscii(half);
    FromHexValue(half);
  }

  lemma SixteenTo32()
    ensures Pow(16, 32) == TWO_128
  {
    assert Pow(16, 8) == 0x1_0000_0000;
    PowAdd(16, 8, 8);
    PowAdd(16, 16, 16);
  }

  /** The halves are 128-bit numbers that together are exactly the root. */
  lemma RootHalvesSplit(root: Digest256)
    ensures var (hi, lo) := RootHalves(root);
            && Value(hi) < TWO_128 && Value(lo) < TWO_128
            && Value(hi) * TWO_128 + Value(lo) == HexValue(root)
  {
    HalvesAccepted(root);
    SixteenTo32();
    HexBound(root[..32]);
    HexBound(root[32..]);
    HexAppend(root[..32], root[32..]);
    assert root[..32] + root[32..] == root;
  }

  lemma RootHalvesInjective(a: Digest256, b: Digest256)
    ensures RootHalves(a) == RootHalves(b) <==> a == b
  {
    if RootHalves(a) == RootHalves(b) {
      RootHalvesSplit(a);
      RootHalvesSplit(b);
      HexSameWidthUnique(a, b);
    }
  }

  // ---------- Proof requests ----------

  const MOCK_BACKEND := "mock"
  const ULTRAHONK_BACKEND := "ultrahonk"

  datatype ProofRequest = ProofRequest(
    requestId: string,
    operation: Operation,
    circuit: CircuitId,
    circuitVersion: Version,
    artifactVersion: Version,
    backend: string,
    secrets: Entries,
    publicInputs: Entries,
    state: Option<StateReference>)

  datatype RequestError =
    | MissingWitness(operation: Operation)
    | MissingPublicInputs(operation: Operation)
    | MissingStateReference(operation: Operation)
    | StateRootMismatch

  /** Bags in a request are built through their own operations. */
  predicate WellBuilt(request: ProofRequest) {
    ValidEntries(request.secrets) && ValidEntries(request.publicInputs)
  }

  /** The first structural fault of a request, if any. */
  function Validate(request: ProofRequest): Option<RequestError> {
    var hi, lo := Find(request.publicInputs, "root_hi"), Find(request.publicInputs, "root_lo");
    if request.secrets == [] then Some(MissingWitness(request.operation))
    else if request.publicInputs == [] then Some(MissingPublicInputs(request.operation))
    else if StateBound(request.operation) && request.state.None? then
      Some(MissingStateReference(request.operation))
    else if request.state.Some? && hi.Some? && lo.Some? &&
            RootHalves(request.state.value.root) != (hi.value, lo.value) then Some(StateRootMismatch)
    else None
  }

  // ---------- Responses and verification ----------

  datatype ProofBlob = ProofBlob(format: string, bytes: seq<byte>)

  datatype ProofResponse = ProofResponse(
    requestId: string,
    circuit: CircuitId,
    circuitVersion: Version,
    backend: string,
    proof: ProofBlob,
    publicOutputs: Entries,
    keyId: string,
    checksum: Digest256,
    state: Option<StateReference>)

  datatype VerificationRequest = VerificationRequest(
    requestId: string,
    proof: ProofBlob,
    circuit: CircuitId,
    circuitVersion: Version,
    backend: string,
    keyId: string,
    checksum: Digest256,
    publicOutputs: Entries,
    state: Option<StateReference>)

  function FromResponse(r: ProofResponse): VerificationRequest {
    VerificationRequest(r.requestId, r.proof, r.circuit, r.circuitVersion, r.backend, r.keyId,
                        r.checksum, r.publicOutputs, r.state)
  }

  datatype VerificationFailure =
    | InvalidProof
    | PublicOutputMismatch
    | StateReferenceMismatch
    | WrongVerificationKey
    | CircuitMismatch
    | VersionMismatch
    | ArtifactChecksumMismatch
    | BackendMismatch
    | MissingStateBinding

  /** A rejection may come without a reason: verifiers fill both fields themselves. */
  datatype VerificationOutcome = VerificationOutcome(verified: bool, failure: Option<VerificationFailure>)

  const VERIFIED := VerificationOutcome(true, None)

  function Rejected(failure: VerificationFailure): VerificationOutcome {
    VerificationOutcome(false, Some(failure))
  }

  /** `Aborted` is a failed `expect`: the call never returns to its caller. */
  datatype ProviderError =
    | InvalidRequest(reason: RequestError)
    | ProofGeneration
    | UnsupportedByProvider
    | ArtifactUnavailable
    | ArtifactNotIntegral
    | BackendUnavailable
    | InternalError
    | Aborted

  datatype VerifierError = VerificationUnavailable | VerifierInternal

  // ---------- Digests and verdicts ----------

  /** A digest is accepted exactly when it is 64 hex digits behind an optional `0x`, and keeps its number. */
  lemma ParseDigestIff(hex: string)
    ensures ParseDigest(hex).Some? <==> |Strip0x(hex)| == 64 && AllHex(Strip0x(hex))
    ensures ParseDigest(hex).Some? ==> HexValue(ParseDigest(hex).value) == HexValue(Strip0x(hex))
  {
    if AllHex(Strip0x(hex)) {
      HexIsAscii(Strip0x(hex));
      LowerDigits(Strip0x(hex));
    }
  }

  /** The bytes of a digest are its number, most significant byte first, both ways. */
  lemma DigestBytesValue(d: Digest256, bytes: Hash32)
    ensures BytesValue(DigestToBytes(d)) == HexValue(d)
    ensures HexValue(DigestOfBytes(bytes)) == BytesValue(bytes)
  {
    DecodePairsValue(d);
    EncodeValue(bytes);
  }

  /** The high half is the first 32 digits of the root and the low half the last 32. */
  lemma RootHalvesDigits(root: Digest256)
    ensures Value(RootHalves(root).0) == HexValue(root[..32]) && Value(RootHalves(root).1) == HexValue(root[32..])
  {
    HalvesAccepted(root);
  }

  /** Nothing of a response is lost on the way into a verification request. */
  lemma FromResponseInjective(a: ProofResponse, b: ProofResponse)
    ensures FromResponse(a) == FromResponse(b) <==> a == b
  {
  }

  /** A rejection never counts as verified and keeps its reason. */
  lemma RejectedIsNoVerdict(failure: VerificationFailure)
    ensures !Rejected(failure).verified && Rejected(failure).failure == Some(failure)
    ensures VERIFIED.verified && VERIFIED.failure == None
  {
  }
}
