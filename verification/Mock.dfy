/**
 The test-only backend. A mock proof is an envelope that names its whole context, followed by
 a keyed digest; verification re-parses the envelope and compares it field by field.
 */
module Mock {
  import opened Outcomes
  import opened Text
  import opened Hex
  import opened FieldValues
  import opened Bags
  import opened Circuits
  import opened Requests
  import opened KeyIds

  const MOCK_FORMAT := "mock-envelope-v1"

  /** The bytes of `crucible-mock-envelope-v1`. */
  const DOMAIN: seq<byte> := [
    0x63, 0x72, 0x75, 0x63, 0x69, 0x62, 0x6c, 0x65, 0x2d, 0x6d, 0x6f, 0x63, 0x6b, 0x2d, 0x65,
    0x6e, 0x76, 0x65, 0x6c, 0x6f, 0x70, 0x65, 0x2d, 0x76, 0x31
  ]

  // ---------- The envelope and its wire form ----------

  /** Ids and roots come off the wire unvalidated, so here they are plain text. */
  datatype WireState = WireState(root: string, sequence: nat, humanLabel: Option<string>)

  datatype MockEnvelope = MockEnvelope(
    kind: string,
    circuit: string,
    circuitVersion: Version,
    backend: string,
    keyId: string,
    checksum: string,
    outputs: Entries,
    state: Option<WireState>)

  /** The structured value that JSON carries: versions and field values are text. */
  datatype Wire = Wire(
    kind: string,
    circuit: string,
    circuitVersion: string,
    backend: string,
    keyId: string,
    checksum: string,
    outputs: seq<(string, string)>,
    state: Option<WireState>)

  /** JSON itself is a parameter; what is assumed of it is that decoding inverts encoding. */
  datatype Json = Json(encode: Wire -> seq<byte>, decode: seq<byte> -> Option<Wire>)

  ghost predicate Faithful(json: Json) {
    forall w :: json.decode(json.encode(w)) == Some(w)
  }

  function WireOutputs(es: Entries): (out: seq<(string, string)>)
    ensures |out| == |es|
  {
    if es == [] then [] else [(es[0].name, es[0].value)] + WireOutputs(es[1..])
  }

  function ParseOutputs(out: seq<(string, string)>): Option<Entries> {
    if out == [] then Some([])
    else
      match FromHex(out[0].1)
      case Err(_) => None
      case Ok(value) =>
        var rest :- ParseOutputs(out[1..]);
        Some([Entry(out[0].0, value)] + rest)
  }

  function ToWire(e: MockEnvelope): Wire {
    Wire(e.kind, e.circuit, DisplayVersion(e.circuitVersion), e.backend, e.keyId, e.checksum,
         WireOutputs(e.outputs), e.state)
  }

  function FromWire(w: Wire): Option<MockEnvelope> {
    var version :- ParseVersion(w.circuitVersion);
    var outputs :- ParseOutputs(w.outputs);
    Some(MockEnvelope(w.kind, w.circuit, version, w.backend, w.keyId, w.checksum, outputs, w.state))
  }

  lemma {:induction false} OutputsRoundTrip(es: Entries)
    ensures ParseOutputs(WireOutputs(es)) == Some(es)
  {
    if es != [] {
      OutputsRoundTrip(es[1..]);
      Idempotent(es[0].value);
      assert WireOutputs(es)[1..] == WireOutputs(es[1..]);
      assert es == [Entry(es[0].name, es[0].value)] + es[1..];
    }
  }

  /** The hand-written leaf codecs lose nothing. */
  lemma WireRoundTrip(e: MockEnvelope)
    ensures FromWire(ToWire(e)) == Some(e)
  {
    VersionRoundTrip(e.circuitVersion);
    OutputsRoundTrip(e.outputs);
  }

  function EnvelopeBytes(json: Json, e: MockEnvelope): seq<byte> {
    json.encode(ToWire(e))
  }

  function ParseEnvelope(json: Json, payload: seq<byte>): Option<MockEnvelope> {
    var wire :- json.decode(payload);
    var envelope :- FromWire(wire);
    if envelope.kind != MOCK_FORMAT then None else Some(envelope)
  }

  // ---------- Proving ----------

  function KeyedPreimage(key: string, payload: seq<byte>): seq<byte> {
    DOMAIN + payload + Utf8(key) + [0]
  }

  function KeyedDigest(sha: Hasher, key: string, payload: seq<byte>): Hash32 {
    sha(KeyedPreimage(key, payload))
  }

  function KeyIdFor(circuit: CircuitId, version: Version): string {
    "mock-vk/" + circuit + "/" + DisplayVersion(version)
  }

  function ChecksumFor(sha: Hasher, circuit: CircuitId, version: Version): Digest256 {
    Checksum(sha, Utf8("mock-artifact/" + circuit + "/" + DisplayVersion(version)))
  }

  function WireOfState(s: StateReference): WireState {
    WireState(s.root, s.sequence, s.humanLabel)
  }

  function OptionalWire(s: Option<StateReference>): Option<WireState> {
    if s.Some? then Some(WireOfState(s.value)) else None
  }

  function EnvelopeFor(request: ProofRequest, keyId: string, checksum: Digest256): MockEnvelope {
    MockEnvelope(MOCK_FORMAT, request.circuit, request.circuitVersion, request.backend, keyId, checksum,
                 request.publicInputs, OptionalWire(request.state))
  }

  function ProofBytes(sha: Hasher, json: Json, key: string, envelope: MockEnvelope): seq<byte> {
    var payload := EnvelopeBytes(json, envelope);
    payload + KeyedDigest(sha, key, payload)
  }

  method BuildProofBytes(sha: Hasher, json: Json, key: string, request: ProofRequest,
                         keyId: string, checksum: Digest256) returns (bytes: seq<byte>)
    ensures bytes == ProofBytes(sha, json, key, EnvelopeFor(request, keyId, checksum))
  {
    var payload := EnvelopeBytes(json, EnvelopeFor(request, keyId, checksum));
    var hashed := DOMAIN;
    hashed := hashed + payload;
    hashed := hashed + Utf8(key);
    hashed := hashed + [0];
    bytes := payload;
    bytes := bytes + sha(hashed);
  }

  function MockGenerate(sha: Hasher, json: Json, key: string, request: ProofRequest)
    : Result<ProofResponse, ProviderError>
  {
    var invalid := Validate(request);
    var keyId := KeyIdFor(request.circuit, request.circuitVersion);
    var checksum := ChecksumFor(sha, request.circuit, request.circuitVersion);
    if invalid.Some? then Err(InvalidRequest(invalid.value))
    else if request.backend != MOCK_BACKEND then Err(ProofGeneration)
    else if !IsKeyId(keyId) then Err(Aborted)
    else
      var bytes := ProofBytes(sha, json, key, EnvelopeFor(request, keyId, checksum));
      Ok(ProofResponse(request.requestId, request.circuit, request.circuitVersion, MOCK_BACKEND,
                       ProofBlob(MOCK_FORMAT, bytes), request.publicInputs, keyId, checksum, request.state))
  }

  /** The derived key id is short enough exactly for circuit and version texts up to 119 together. */
  lemma KeyIdFits(circuit: CircuitId, version: Version)
    ensures IsKeyId(KeyIdFor(circuit, version)) <==> |circuit| + |DisplayVersion(version)| <= 119
  {
    var id := KeyIdFor(circuit, version);
    DisplayVersionChars(version);
    assert forall i :: 0 <= i < |circuit| ==> IsCircuitIdChar(circuit[i]);
    assert forall i :: 0 <= i < |id| ==> IsAscii(id[i]);
    AsciiByteLen(id);
  }

  // ---------- Verifying ----------

  function MockVerify(sha: Hasher, json: Json, key: string, request: VerificationRequest): VerificationOutcome {
    if request.proof.format != MOCK_FORMAT || request.backend != MOCK_BACKEND then Rejected(BackendMismatch)
    else if |request.proof.bytes| < 32 then Rejected(InvalidProof)
    else
      var split := |request.proof.bytes| - 32;
      var payload, digest := request.proof.bytes[..split], request.proof.bytes[split..];
      if digest != KeyedDigest(sha, key, payload) then Rejected(InvalidProof)
      else
        match ParseEnvelope(json, payload)
        case None => Rejected(InvalidProof)
        case Some(envelope) => Compare(envelope, request)
  }

  function Compare(envelope: MockEnvelope, request: VerificationRequest): VerificationOutcome {
    if envelope.backend != request.backend then Rejected(BackendMismatch)
    else if envelope.circuit != request.circuit then Rejected(CircuitMismatch)
    else if envelope.circuitVersion != request.circuitVersion then Rejected(VersionMismatch)
    else if envelope.keyId != request.keyId then Rejected(WrongVerificationKey)
    else if envelope.checksum != request.checksum then Rejected(ArtifactChecksumMismatch)
    else if envelope.outputs != request.publicOutputs then Rejected(PublicOutputMismatch)
    else
      match (envelope.state, request.state)
      case (None, None) => VERIFIED
      case (Some(embedded), Some(submitted)) =>
        if embedded == WireOfState(submitted) then VERIFIED else Rejected(StateReferenceMismatch)
      case _ => Rejected(MissingStateBinding)
  }

  /** The envelope of a proof whose digest holds under `key`, if it has one. */
  function OpenedEnvelope(sha: Hasher, json: Json, key: string, proof: ProofBlob): Option<MockEnvelope> {
    if proof.format != MOCK_FORMAT || |proof.bytes| < 32 then None
    else
      var split := |proof.bytes| - 32;
      if proof.bytes[split..] != KeyedDigest(sha, key, proof.bytes[..split]) then None
      else ParseEnvelope(json, proof.bytes[..split])
  }

  /** The context fields in the order they are compared, each with the reason it gives. */
  const CHECK_ORDER := [BackendMismatch, CircuitMismatch, VersionMismatch, WrongVerificationKey,
                        ArtifactChecksumMismatch, PublicOutputMismatch, MissingStateBinding,
                        StateReferenceMismatch]

  predicate Disagrees(e: MockEnvelope, r: VerificationRequest, reason: VerificationFailure) {
    match reason
    case BackendMismatch => e.backend != r.backend
    case CircuitMismatch => e.circuit != r.circuit
    case VersionMismatch => e.circuitVersion != r.circuitVersion
    case WrongVerificationKey => e.keyId != r.keyId
    case ArtifactChecksumMismatch => e.checksum != r.checksum
    case PublicOutputMismatch => e.outputs != r.publicOutputs
    case MissingStateBinding => e.state.Some? != r.state.Some?
    case StateReferenceMismatch => e.state != OptionalWire(r.state)
    case InvalidProof => false
  }

  /**
   Once the digest holds and the envelope parses, the proof is accepted when every field
   agrees, and otherwise the reason is the first disagreement in the fixed order.
   */
  lemma ReasonIsFirstDisagreement(sha: Hasher, json: Json, key: string, r: VerificationRequest, i: nat)
    requires r.backend == MOCK_BACKEND && OpenedEnvelope(sha, json, key, r.proof).Some?
    requires i < |CHECK_ORDER|
    ensures var e := OpenedEnvelope(sha, json, key, r.proof).value;
            && (MockVerify(sha, json, key, r) == VERIFIED <==>
                forall j :: 0 <= j < |CHECK_ORDER| ==> !Disagrees(e, r, CHECK_ORDER[j]))
            && (MockVerify(sha, json, key, r) == Rejected(CHECK_ORDER[i]) <==>
                Disagrees(e, r, CHECK_ORDER[i])
                && forall j :: 0 <= j < i ==> !Disagrees(e, r, CHECK_ORDER[j]))
  {
    var e := OpenedEnvelope(sha, json, key, r.proof).value;
    assert MockVerify(sha, json, key, r) == Compare(e, r);
    ComparisonOrder(e, r, i);
  }

  lemma ComparisonOrder(e: MockEnvelope, r: VerificationRequest, i: nat)
    requires i < |CHECK_ORDER|
    ensures Compare(e, r) == VERIFIED <==>
            forall j :: 0 <= j < |CHECK_ORDER| ==> !Disagrees(e, r, CHECK_ORDER[j])
    ensures Compare(e, r) == Rejected(CHECK_ORDER[i]) <==>
            && Disagrees(e, r, CHECK_ORDER[i])
            && forall j :: 0 <= j < i ==> !Disagrees(e, r, CHECK_ORDER[j])
  {
    assert CHECK_ORDER[0] == BackendMismatch && CHECK_ORDER[1] == CircuitMismatch;
    assert CHECK_ORDER[2] == VersionMismatch && CHECK_ORDER[3] == WrongVerificationKey;
    assert CHECK_ORDER[4] == ArtifactChecksumMismatch && CHECK_ORDER[5] == PublicOutputMismatch;
    assert CHECK_ORDER[6] == MissingStateBinding && CHECK_ORDER[7] == StateReferenceMismatch;
  }

  predicate Agrees(e: MockEnvelope, r: VerificationRequest) {
    && e.backend == r.backend && e.circuit == r.circuit && e.circuitVersion == r.circuitVersion
    && e.keyId == r.keyId && e.checksum == r.checksum && e.outputs == r.publicOutputs
    && e.state == OptionalWire(r.state)
  }

  lemma AgreementVerifies(e: MockEnvelope, r: VerificationRequest)
    ensures Compare(e, r).verified <==> Agrees(e, r)
  {
  }

  /** Acceptance means the proof opens and its envelope agrees on every field. */
  lemma AcceptedAgrees(sha: Hasher, json: Json, key: string, r: VerificationRequest)
    ensures MockVerify(sha, json, key, r).verified <==>
            && r.backend == MOCK_BACKEND
            && OpenedEnvelope(sha, json, key, r.proof).Some?
            && Agrees(OpenedEnvelope(sha, json, key, r.proof).value, r)
  {
    hide Compare, Agrees, ParseEnvelope, KeyedDigest;
    if OpenedEnvelope(sha, json, key, r.proof).Some? {
      AgreementVerifies(OpenedEnvelope(sha, json, key, r.proof).value, r);
    }
  }

  /**
   Binding: whatever two requests are accepted with the same proof bytes, even by verifiers
   holding different keys, they are the same request apart from the id used for tracing.
   */
  lemma ProofBindsItsContext(sha: Hasher, json: Json, key: string, key': string,
                             r: VerificationRequest, r': VerificationRequest)
    requires r.proof.bytes == r'.proof.bytes
    requires MockVerify(sha, json, key, r).verified && MockVerify(sha, json, key', r').verified
    ensures r == r'.(requestId := r.requestId)
  {
    AcceptedAgrees(sha, json, key, r);
    AcceptedAgrees(sha, json, key', r');
    assert OptionalWire(r.state) == OptionalWire(r'.state);
    assert r.state == r'.state;
  }

  /**
   A proof made under one key is accepted under another only by a collision of the hash: the
   two keyed preimages are different byte strings with the same digest.
   */
  lemma OtherKeyNeedsCollision(sha: Hasher, json: Json, key: string, key': string,
                               envelope: MockEnvelope, r: VerificationRequest)
    requires r.proof.bytes == ProofBytes(sha, json, key, envelope)
    requires MockVerify(sha, json, key', r).verified
    ensures var payload := EnvelopeBytes(json, envelope);
            || Utf8(key) == Utf8(key')
            || (KeyedPreimage(key, payload) != KeyedPreimage(key', payload)
                && sha(KeyedPreimage(key, payload)) == sha(KeyedPreimage(key', payload)))
  {
    var payload, bytes := EnvelopeBytes(json, envelope), r.proof.bytes;
    var split := |bytes| - 32;
    assert bytes[..split] == payload && bytes[split..] == KeyedDigest(sha, key, payload);
    AcceptedAgrees(sha, json, key', r);
    var start := DOMAIN + payload;
    if KeyedPreimage(key, payload) == KeyedPreimage(key', payload) {
      KeyInPreimage(start, Utf8(key), Utf8(key'));
    }
  }

  /** Key and payload run together before the final zero: exactly their concatenation counts. */
  lemma SamePreimageIff(key: string, payload: seq<byte>, key': string, payload': seq<byte>)
    ensures KeyedPreimage(key, payload) == KeyedPreimage(key', payload') <==>
            payload + Utf8(key) == payload' + Utf8(key')
  {
    var x, y := payload + Utf8(key), payload' + Utf8(key');
    assert KeyedPreimage(key, payload) == DOMAIN + x + [0];
    assert KeyedPreimage(key', payload') == DOMAIN + y + [0];
    if KeyedPreimage(key, payload) == KeyedPreimage(key', payload') {
      KeyInPreimage(DOMAIN, x, y);
    }
  }

  /** So one digest serves two keys without a collision, when the front of one key moves to the payload. */
  lemma DigestServesTwoKeys(sha: Hasher, front: string, key: string, payload: seq<byte>)
    ensures KeyedDigest(sha, front + key, payload) == KeyedDigest(sha, key, payload + Utf8(front))
    ensures DigestHolds(sha, key, payload + Utf8(front) + KeyedDigest(sha, front + key, payload))
  {
    hide KeyedPreimage, Utf8;
    Utf8Append(front, key);
    Associate(payload, Utf8(front), Utf8(key));
    SamePreimageIff(front + key, payload, key, payload + Utf8(front));
    DigestAppended(sha, key, payload + Utf8(front));
  }

  lemma DigestAppended(sha: Hasher, key: string, payload: seq<byte>)
    ensures DigestHolds(sha, key, payload + KeyedDigest(sha, key, payload))
  {
    hide KeyedPreimage;
    var digest := KeyedDigest(sha, key, payload);
    assert (payload + digest)[..|payload|] == payload && (payload + digest)[|payload|..] == digest;
  }

  /** The last 32 bytes are the keyed digest of the rest. */
  predicate DigestHolds(sha: Hasher, key: string, bytes: seq<byte>) {
    && |bytes| >= 32
    && var split := |bytes| - 32;
       bytes[split..] == KeyedDigest(sha, key, bytes[..split])
  }

  lemma AcceptedDigestHolds(sha: Hasher, json: Json, key: string, r: VerificationRequest)
    ensures MockVerify(sha, json, key, r).verified ==> DigestHolds(sha, key, r.proof.bytes)
  {
  }

  /**
   Tampering with one part: changed digest bytes never pass, and a changed payload of the same
   length passes under the old digest exactly when the two different preimages collide.
   */
  lemma TamperedPartDetected(sha: Hasher, key: string, payload: seq<byte>, other: seq<byte>, digest: Hash32)
    requires |other| == |payload| && other != payload
    ensures DigestHolds(sha, key, payload + digest) <==> digest == KeyedDigest(sha, key, payload)
    ensures KeyedPreimage(key, other) != KeyedPreimage(key, payload)
    ensures DigestHolds(sha, key, other + KeyedDigest(sha, key, payload)) <==>
            sha(KeyedPreimage(key, other)) == sha(KeyedPreimage(key, payload))
  {
    assert (payload + digest)[..|payload|] == payload && (payload + digest)[|payload|..] == digest;
    var kept := KeyedDigest(sha, key, payload);
    assert (other + kept)[..|other|] == other && (other + kept)[|other|..] == kept;
    assert (other + Utf8(key))[..|other|] == other && (payload + Utf8(key))[..|payload|] == payload;
    SamePreimageIff(key, other, key, payload);
  }

  /** Exactly when one flipped byte leaves the digest right: in the payload, and with a collision. */
  lemma FlippedByteHolds(sha: Hasher, key: string, payload: seq<byte>, i: nat, b: byte)
    requires var bytes := payload + KeyedDigest(sha, key, payload); i < |bytes| && b != bytes[i]
    ensures var bytes := payload + KeyedDigest(sha, key, payload);
            DigestHolds(sha, key, bytes[i := b]) <==>
            && i < |payload|
            && KeyedPreimage(key, payload[i := b]) != KeyedPreimage(key, payload)
            && sha(KeyedPreimage(key, payload[i := b])) == sha(KeyedPreimage(key, payload))
  {
    hide KeyedPreimage;
    var digest := KeyedDigest(sha, key, payload);
    var bytes := payload + digest;
    if i < |payload| {
      var other := payload[i := b];
      assert other[i] != payload[i];
      assert bytes[i := b] == other + digest;
      TamperedPartDetected(sha, key, payload, other, digest);
    } else {
      var k := i - |payload|;
      var flipped := digest[k := b];
      assert bytes[i := b] == payload + flipped && flipped[k] != digest[k];
      assert (payload + flipped)[..|payload|] == payload && (payload + flipped)[|payload|..] == flipped;
    }
  }

  /** So flipping any one byte of a proof is detected, short of a collision that names both preimages. */
  lemma FlippedByteDetected(sha: Hasher, json: Json, key: string, envelope: MockEnvelope, i: nat, b: byte,
                            r: VerificationRequest)
    requires var bytes := ProofBytes(sha, json, key, envelope);
             i < |bytes| && b != bytes[i] && r.proof.bytes == bytes[i := b]
    requires MockVerify(sha, json, key, r).verified
    ensures var payload := EnvelopeBytes(json, envelope);
            && i < |payload|
            && KeyedPreimage(key, payload[i := b]) != KeyedPreimage(key, payload)
            && sha(KeyedPreimage(key, payload[i := b])) == sha(KeyedPreimage(key, payload))
  {
    hide MockVerify, KeyedPreimage, DigestHolds;
    AcceptedDigestHolds(sha, json, key, r);
    FlippedByteHolds(sha, key, EnvelopeBytes(json, envelope), i, b);
  }

  lemma KeyInPreimage(start: seq<byte>, a: seq<byte>, b: seq<byte>)
    requires start + a + [0] == start + b + [0]
    ensures a == b
  {
    var x, y := start + a + [0], start + b + [0];
    assert |a| == |b|;
    assert x[|start|..|start| + |a|] == a && y[|start|..|start| + |b|] == b;
  }

  /** What the prover makes for a valid request, a verifier with the same key accepts. */
  lemma GeneratedProofVerifies(sha: Hasher, json: Json, key: string, request: ProofRequest)
    requires Faithful(json) && MockGenerate(sha, json, key, request).Ok?
    ensures MockVerify(sha, json, key, FromResponse(MockGenerate(sha, json, key, request).value)) == VERIFIED
  {
    var response := MockGenerate(sha, json, key, request).value;
    var envelope := EnvelopeFor(request, response.keyId, response.checksum);
    var payload, bytes := EnvelopeBytes(json, envelope), response.proof.bytes;
    var split := |bytes| - 32;
    assert bytes[..split] == payload && bytes[split..] == KeyedDigest(sha, key, payload);
    WireRoundTrip(envelope);
    assert json.decode(json.encode(ToWire(envelope))) == Some(ToWire(envelope));
    assert ParseEnvelope(json, payload) == Some(envelope);
  }

  // ---------- What ids, preimages and responses hold ----------

  /** The domain is this text, and the preimage is domain, payload, key and a zero byte. */
  lemma PreimageLayout(key: string, payload: seq<byte>)
    ensures |DOMAIN| == 25 && forall i :: 0 <= i < 25 ==> DOMAIN[i] == "crucible-mock-envelope-v1"[i] as int
    ensures var p, n := KeyedPreimage(key, payload), |payload|;
            && |p| == 26 + n + |Utf8(key)| && p[..25] == DOMAIN && p[25..25 + n] == payload
            && p[25 + n..|p| - 1] == Utf8(key) && p[|p| - 1] == 0
  {
  }

  lemma MockPartsHaveNoSlash(circuit: CircuitId, version: Version)
    ensures Separable(["mock-vk", circuit, DisplayVersion(version)], '/')
  {
    DisplayVersionChars(version);
    hide DisplayVersion;
    assert forall i :: 0 <= i < |circuit| ==> IsCircuitIdChar(circuit[i]);
    assert !Contains("mock-vk", '/') && !Contains(circuit, '/') && !Contains(DisplayVersion(version), '/');
  }

  lemma DerivedTexts(sha: Hasher, circuit: CircuitId, version: Version)
    ensures KeyIdFor(circuit, version) == "mock-vk" + "/" + circuit + "/" + DisplayVersion(version)
    ensures ChecksumFor(sha, circuit, version)
         == HexEncode(sha(Utf8("mock-artifact" + "/" + circuit + "/" + DisplayVersion(version))))
  {
    hide DisplayVersion, Utf8, HexEncode;
    assert "mock-vk/" == "mock-vk" + "/" && "mock-artifact/" == "mock-artifact" + "/";
  }

  /** The key id is the three parts `mock-vk`, circuit and version; the checksum hashes a like text. */
  lemma DerivedIds(sha: Hasher, circuit: CircuitId, version: Version)
    ensures Split(KeyIdFor(circuit, version), '/') == ["mock-vk", circuit, DisplayVersion(version)]
    ensures ChecksumFor(sha, circuit, version)
         == HexEncode(sha(Utf8(Join(["mock-artifact", circuit, DisplayVersion(version)], '/'))))
  {
    hide DisplayVersion, Utf8, HexEncode, Split, Join, KeyIdFor, ChecksumFor, Separable;
    MockPartsHaveNoSlash(circuit, version);
    DerivedTexts(sha, circuit, version);
    JoinThree("mock-vk", circuit, DisplayVersion(version), '/');
    JoinThree("mock-artifact", circuit, DisplayVersion(version), '/');
    SplitJoin(["mock-vk", circuit, DisplayVersion(version)], '/');
  }

  /** Two circuits or versions never share a derived key id. */
  lemma KeyIdForInjective(a: CircuitId, v: Version, b: CircuitId, w: Version)
    ensures KeyIdFor(a, v) == KeyIdFor(b, w) <==> a == b && v == w
  {
    var sha: Hasher := bytes => seq(32, i => 0);
    DerivedIds(sha, a, v);
    DerivedIds(sha, b, w);
    if KeyIdFor(a, v) == KeyIdFor(b, w) {
      assert ["mock-vk", a, DisplayVersion(v)][1] == ["mock-vk", b, DisplayVersion(w)][1];
      assert ["mock-vk", a, DisplayVersion(v)][2] == ["mock-vk", b, DisplayVersion(w)][2];
      DisplayVersionInjective(v, w);
    }
  }

  /** The prover refuses an invalid request, then another backend, and then aborts on an over-long id. */
  lemma GenerateOutcome(sha: Hasher, json: Json, key: string, request: ProofRequest)
    ensures var r := MockGenerate(sha, json, key, request);
            && (Validate(request).Some? ==> r == Err(InvalidRequest(Validate(request).value)))
            && (Validate(request).None? && request.backend != "mock" ==> r == Err(ProofGeneration))
            && (Validate(request).None? && request.backend == "mock" ==>
                  (r.Ok? <==> |request.circuit| + |DisplayVersion(request.circuitVersion)| <= 119)
                  && (r.Err? ==> r.error == Aborted))
  {
    hide Validate, KeyIdFor, ChecksumFor, ProofBytes, EnvelopeFor, DisplayVersion, IsKeyId;
    KeyIdFits(request.circuit, request.circuitVersion);
  }

  /** What a response carries, and that its proof opens to an envelope naming the same things. */
  lemma GeneratedContent(sha: Hasher, json: Json, key: string, request: ProofRequest)
    requires Faithful(json) && MockGenerate(sha, json, key, request).Ok?
    ensures var r := MockGenerate(sha, json, key, request).value;
            && r.requestId == request.requestId && r.circuit == request.circuit
            && r.circuitVersion == request.circuitVersion && r.backend == "mock"
            && r.proof.format == "mock-envelope-v1" && r.publicOutputs == request.publicInputs
            && r.state == request.state
            && r.keyId == KeyIdFor(request.circuit, request.circuitVersion)
            && r.checksum == ChecksumFor(sha, request.circuit, request.circuitVersion)
            && OpenedEnvelope(sha, json, key, r.proof)
            == Some(MockEnvelope("mock-envelope-v1", r.circuit, r.circuitVersion, "mock", r.keyId, r.checksum,
                                 r.publicOutputs, OptionalWire(r.state)))
  {
    hide Validate, KeyIdFor, ChecksumFor, IsKeyId, KeyedDigest, FromWire, ToWire;
    var r := MockGenerate(sha, json, key, request).value;
    var envelope := EnvelopeFor(request, r.keyId, r.checksum);
    var payload, bytes := EnvelopeBytes(json, envelope), r.proof.bytes;
    var split := |bytes| - 32;
    assert bytes[..split] == payload && bytes[split..] == KeyedDigest(sha, key, payload);
    WireRoundTrip(envelope);
    assert json.decode(json.encode(ToWire(envelope))) == Some(ToWire(envelope));
    assert ParseEnvelope(json, payload) == Some(envelope);
  }

  // ---------- What verification refuses before it compares ----------

  lemma {:induction false} ParseOutputsIff(out: seq<(string, string)>)
    ensures ParseOutputs(out).Some? <==> forall i :: 0 <= i < |out| ==> Accepted(out[i].1)
    ensures ParseOutputs(out).Some? ==>
              var es := ParseOutputs(out).value;
              && |es| == |out|
              && forall i :: 0 <= i < |out| ==> es[i].name == out[i].0 && FromHex(out[i].1) == Ok(es[i].value)
  {
    if out != [] {
      CanonicalisationIsNumeric(out[0].1, out[0].1);
      ParseOutputsIff(out[1..]);
      hide FromHex, Accepted;
      assert out == [out[0]] + out[1..];
    }
  }

  /** An envelope parses exactly when its version and every value do and it is of this format. */
  lemma ParseEnvelopeIff(json: Json, payload: seq<byte>)
    ensures ParseEnvelope(json, payload).Some? <==>
            && json.decode(payload).Some?
            && var w := json.decode(payload).value;
               && w.kind == "mock-envelope-v1" && ParseVersion(w.circuitVersion).Some?
               && forall i :: 0 <= i < |w.outputs| ==> Accepted(w.outputs[i].1)
    ensures ParseEnvelope(json, payload).Some? ==>
              var e, w := ParseEnvelope(json, payload).value, json.decode(payload).value;
              && e.kind == w.kind && e.circuit == w.circuit && Some(e.circuitVersion) == ParseVersion(w.circuitVersion)
              && e.backend == w.backend && e.keyId == w.keyId && e.checksum == w.checksum && e.state == w.state
              && Some(e.outputs) == ParseOutputs(w.outputs)
  {
    hide ParseVersion, ParseOutputs, Accepted;
    if json.decode(payload).Some? {
      ParseOutputsIff(json.decode(payload).value.outputs);
    }
  }

  /** First format and backend, then the length, the digest and the envelope, all before any comparison. */
  lemma EarlyRejections(sha: Hasher, json: Json, key: string, r: VerificationRequest)
    ensures var bytes := r.proof.bytes;
            var routed := r.proof.format == "mock-envelope-v1" && r.backend == "mock";
            && (!routed ==> MockVerify(sha, json, key, r) == Rejected(BackendMismatch))
            && (routed && !DigestHolds(sha, key, bytes) ==> MockVerify(sha, json, key, r) == Rejected(InvalidProof))
            && (routed && DigestHolds(sha, key, bytes) && ParseEnvelope(json, bytes[..|bytes| - 32]).None? ==>
                  MockVerify(sha, json, key, r) == Rejected(InvalidProof))
            && (routed && DigestHolds(sha, key, bytes) && ParseEnvelope(json, bytes[..|bytes| - 32]).Some? ==>
                  OpenedEnvelope(sha, json, key, r.proof) == ParseEnvelope(json, bytes[..|bytes| - 32]))
  {
    hide ParseEnvelope, KeyedDigest, Compare;
  }
}
