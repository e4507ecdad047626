/** The proving service set up with a mock prover and a mock verifier that share a key. */
module MockService {
  import opened Outcomes
  import opened Bags
  import opened Circuits
  import opened Requests
  import opened KeyIds
  import opened Mock
  import opened ProverService

  function MockProvider(sha: Hasher, json: Json, key: string): Provider {
    Provider(MOCK_BACKEND, (circuit, version) => true, request => MockGenerate(sha, json, key, request))
  }

  function MockLocalVerifier(sha: Hasher, json: Json, key: string): LocalVerifier {
    LocalVerifier(MOCK_BACKEND, request => Ok(MockVerify(sha, json, key, request)))
  }

  /** A service whose registrations end up with the mock prover serving the mock backend. */
  ghost function ProveAndVerifyWithMock(regs: seq<Provider>, sha: Hasher, json: Json, key: string,
                                        request: ProofRequest)
    : Result<(ProofResponse, VerificationOutcome), CoreError>
    requires Latest(regs, MOCK_BACKEND) == Some(MockProvider(sha, json, key))
  {
    ProveAndVerifyCore(Registered(regs), Some(MockLocalVerifier(sha, json, key)), request)
  }

  /** The response speaks of the same circuit, values and state as the request it answers. */
  predicate Answers(response: ProofResponse, request: ProofRequest) {
    && response.requestId == request.requestId
    && response.circuit == request.circuit && response.circuitVersion == request.circuitVersion
    && response.backend == request.backend
    && response.publicOutputs == request.publicInputs && response.state == request.state
  }

  /**
   For every key and every history of registrations, a mock request is proved and verified
   exactly when it passes preflight and its derived key id fits 128 bytes.
   */
  lemma MockCompleteness(regs: seq<Provider>, sha: Hasher, json: Json, key: string, request: ProofRequest)
    requires Faithful(json) && request.backend == MOCK_BACKEND
    requires Latest(regs, MOCK_BACKEND) == Some(MockProvider(sha, json, key))
    ensures var r := ProveAndVerifyWithMock(regs, sha, json, key, request);
            && (r.Ok? <==> Preflight(request).None? && IsKeyId(KeyIdFor(request.circuit, request.circuitVersion)))
            && (r.Ok? ==> r.value.1 == VERIFIED)
  {
    hide MockGenerate, MockVerify, Latest, Registered, Preflight, Dispatch, IsKeyId, KeyIdFor;
    DispatchIsGenerate(regs, sha, json, key, request);
    if Preflight(request).None? {
      GenerateAfterPreflight(sha, json, key, request);
      if MockGenerate(sha, json, key, request).Ok? {
        GeneratedProofVerifies(sha, json, key, request);
      }
    }
  }

  /** Any other request ends with its preflight fault or, past preflight, with the abort. */
  lemma MockEndings(regs: seq<Provider>, sha: Hasher, json: Json, key: string, request: ProofRequest)
    requires Faithful(json) && request.backend == MOCK_BACKEND
    requires Latest(regs, MOCK_BACKEND) == Some(MockProvider(sha, json, key))
    ensures var r := ProveAndVerifyWithMock(regs, sha, json, key, request);
            r.Err? ==> r.error == if Preflight(request).Some? then Preflight(request).value else Generation(Aborted)
  {
    hide MockGenerate, MockVerify, Latest, Registered, Preflight, Dispatch, IsKeyId, KeyIdFor;
    DispatchIsGenerate(regs, sha, json, key, request);
    if Preflight(request).None? {
      GenerateAfterPreflight(sha, json, key, request);
      if MockGenerate(sha, json, key, request).Ok? {
        GeneratedProofVerifies(sha, json, key, request);
      }
    }
  }

  /** The response that comes back answers the request it was made for. */
  lemma MockAnswers(regs: seq<Provider>, sha: Hasher, json: Json, key: string, request: ProofRequest)
    requires request.backend == MOCK_BACKEND
    requires Latest(regs, MOCK_BACKEND) == Some(MockProvider(sha, json, key))
    ensures var r := ProveAndVerifyWithMock(regs, sha, json, key, request);
            r.Ok? ==> Answers(r.value.0, request)
  {
    hide MockGenerate, MockVerify, Latest, Registered, Preflight, Dispatch;
    DispatchIsGenerate(regs, sha, json, key, request);
    if Preflight(request).None? {
      GenerateAfterPreflight(sha, json, key, request);
    }
  }

  lemma DispatchIsGenerate(regs: seq<Provider>, sha: Hasher, json: Json, key: string, request: ProofRequest)
    requires request.backend == MOCK_BACKEND
    requires Latest(regs, MOCK_BACKEND) == Some(MockProvider(sha, json, key))
    ensures Dispatch(Registered(regs), request) ==
            match MockGenerate(sha, json, key, request)
            case Ok(response) => Ok(response)
            case Err(error) => Err(Generation(error))
  {
    hide MockGenerate, Latest, Registered;
    RegistryRefinesMap(regs, MOCK_BACKEND);
  }

  lemma GenerateAfterPreflight(sha: Hasher, json: Json, key: string, request: ProofRequest)
    requires request.backend == MOCK_BACKEND && Preflight(request).None?
    ensures var r := MockGenerate(sha, json, key, request);
            && (r.Ok? <==> IsKeyId(KeyIdFor(request.circuit, request.circuitVersion)))
            && (r.Ok? ==> Answers(r.value, request))
            && (r.Err? ==> r.error == Aborted)
  {
    hide Validate, DisplayVersion, ProofBytes, KeyIdFor, IsKeyId, ChecksumFor, EnvelopeFor;
  }

  /** A register request needs one private and one public value. */
  function SmallestRequest(circuit: CircuitId, version: Version): ProofRequest {
    ProofRequest("r", Register, circuit, version, version, MOCK_BACKEND,
                 [Entry("account_sk", "1")], [Entry("account_address", "1")], None)
  }

  lemma SmallestIsWellBuilt(circuit: CircuitId, version: Version)
    ensures WellBuilt(SmallestRequest(circuit, version))
  {
    hide ValidName;
    PlainName("account_sk");
    PlainName("account_address");
  }

  lemma SmallestPassesPreflight(circuit: CircuitId, version: Version)
    ensures Preflight(SmallestRequest(circuit, version)).None?
  {
    hide RootHalves, ValidEntries;
    var request := SmallestRequest(circuit, version);
    FoundAlone("account_sk");
    FoundAlone("account_address");
    NoneMissing(PrivateNames(Register), request.secrets);
    NoneMissing(PublicParams(Register), request.publicInputs);
  }

  lemma FoundAlone(name: string)
    ensures Find([Entry(name, "1")], name) == Some("1")
  {
  }

  /** So a circuit id that is accepted on its own can still abort the prover. */
  lemma LongCircuitAborts(regs: seq<Provider>, sha: Hasher, json: Json, key: string) returns (request: ProofRequest)
    requires Faithful(json)
    requires Latest(regs, MOCK_BACKEND) == Some(MockProvider(sha, json, key))
    ensures WellBuilt(request) && NewCircuitId(request.circuit) == Ok(request.circuit)
    ensures Preflight(request).None?
    ensures ProveAndVerifyWithMock(regs, sha, json, key, request) == Err(Generation(Aborted))
  {
    hide MockGenerate, MockVerify, Latest, Registered, Dispatch, DisplayVersion, ProveAndVerifyWithMock;
    hide Preflight, ValidEntries, Faithful, KeyIdFor, IsKeyId;
    var circuit: CircuitId := seq(128, i => 'a');
    CircuitIdAccepted(circuit);
    DisplayVersionChars(Version(0, 1, 0));
    request := SmallestRequest(circuit, Version(0, 1, 0));
    SmallestIsWellBuilt(circuit, Version(0, 1, 0));
    SmallestPassesPreflight(circuit, Version(0, 1, 0));
    KeyIdFits(circuit, Version(0, 1, 0));
    MockCompleteness(regs, sha, json, key, request);
    MockEndings(regs, sha, json, key, request);
  }
}
