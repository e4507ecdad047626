/**
 From a request to its own verified proof: what the provider makes, the verifier accepts, and
 as long as the outputs stay as they are, with no other state root. The toolchain enters by
 named premises only.
 */
module UltraHonkPipeline {
  import opened Outcomes
  import opened FieldValues
  import opened Bags
  import opened Circuits
  import opened Words
  import opened Requests
  import opened KeyIds
  import opened KeyStore
  import opened ProverService
  import opened UltraHonk
  import opened UltraHonkVerifier

  // ---------- Premises about the toolchain ----------

  /** Two bundles that denote the same proof, public inputs and key. */
  predicate SameBundle(a: Bundle, b: Bundle) {
    && SameWords(a.proof.words, b.proof.words)
    && SameWords(a.publicInputs.words, b.publicInputs.words)
    && DigestBytes(a.proof.vkHash) == DigestBytes(b.proof.vkHash)
    && a.vk == b.vk
  }

  /** Verifying depends on the numbers in a bundle, not on how they are spelled or labelled. */
  ghost predicate ReadsNumbers(env: Environment) {
    forall a, b :: SameBundle(a, b) ==> env.verify(a) == env.verify(b)
  }

  /** Verifying accepts whatever proving wrote. */
  ghost predicate AcceptsOwnProofs(env: Environment) {
    forall bytecode, request ::
      env.prove(bytecode, request).Ok? ==> env.verify(env.prove(bytecode, request).value) == Ok(true)
  }

  /** The two words in the root positions denote the root halves among the public inputs. */
  predicate EchoesRootOf(words: seq<string>, op: Operation, publicInputs: Entries) {
    var hi, lo := Find(publicInputs, "root_hi"), Find(publicInputs, "root_lo");
    StateBound(op) && hi.Some? && lo.Some? && |words| == |PublicNames(op)| ==>
      && SameWord(words[RootPosition(op)], PaddedWord(hi.value))
      && SameWord(words[RootPosition(op) + 1], PaddedWord(lo.value))
  }

  ghost predicate EchoesRoot(env: Environment) {
    forall bytecode, request :: env.prove(bytecode, request).Ok? ==>
      EchoesRootOf(env.prove(bytecode, request).value.publicInputs.words, request.operation, request.publicInputs)
  }

  function RootPosition(op: Operation): nat
    requires StateBound(op)
  {
    |PublicParams(op)| - 2
  }

  lemma RootPositionNames(op: Operation)
    requires StateBound(op)
    ensures RootPosition(op) + 1 < |PublicNames(op)|
    ensures PublicNames(op)[RootPosition(op)] == "root_hi" && PublicNames(op)[RootPosition(op) + 1] == "root_lo"
  {
  }

  // ---------- The rebuilt bundle ----------

  /** The request leads the verifier back to the bundle the backend wrote. */
  predicate LeadsBackTo(r: VerificationRequest, b: Bundle) {
    && |r.proof.bytes| == 32 * |b.proof.words|
    && (|r.proof.bytes| % 32 == 0 ==> SameBundle(Rebuilt(r, b.vk), b))
  }

  /** What the verifier rebuilds from an untouched response is the bundle the backend wrote. */
  lemma RebuiltIsSame(env: Environment, request: ProofRequest)
    requires Generated(env, request).Ok?
    ensures LeadsBackTo(FromResponse(Generated(env, request).value), ProveAndName(env, request).value.bundle)
  {
    hide Validate, Supports, IsKeyId, Consistent, NamedWords, Respond, LeadsBackTo;
    var p := ProveAndName(env, request).value;
    NamedWordsMeaning(request.operation, p.bundle.publicInputs.words);
    RespondedLeadsBack(request, p);
  }

  lemma RespondedLeadsBack(request: ProofRequest, p: Proved)
    requires Respond(request, p).Ok? && Consistent(p.bundle)
    requires SameWords(PaddedWords(p.outputs), p.bundle.publicInputs.words)
    ensures LeadsBackTo(FromResponse(Respond(request, p).value), p.bundle)
  {
    hide SameWords, Resplit, ConcatWords, PaddedWords, DigestBytes;
    var words := p.bundle.proof.words;
    ProofWordsSurvive(words);
    assert 32 * |words| / 32 == |words|;
  }

  lemma KeyIsStored(env: Environment, files: KeyFiles, request: ProofRequest)
    requires Generated(env, request).Ok?
    ensures KeyStore.Lookup(env.sha, FilesAfterGenerate(env, files, request), Generated(env, request).value.keyId)
         == Ok(ProveAndName(env, request).value.bundle.vk)
  {
    hide Validate, Supports, IsKeyId, NamedWords, PathFor, ConcatWords;
    ConsistentScheme(ProveAndName(env, request).value.bundle);
  }

  // ---------- The state of a response ----------

  lemma FindAt(es: Entries, i: nat)
    requires Distinct(es) && i < |es|
    ensures Find(es, es[i].name) == Some(es[i].value)
  {
  }

  lemma EchoedValue(word: string, named: FieldValue, given: FieldValue)
    requires FieldFromWord(word) == Ok(named) && SameWord(word, PaddedWord(given))
    ensures named == given
  {
    FieldFromWordMeaning(word);
    PaddedWordReads(given);
    ValueInjective(named, given);
  }

  lemma NamedRoot(op: Operation, words: seq<string>, publicInputs: Entries)
    requires StateBound(op) && NamedWords(op, words).Ok? && EchoesRootOf(words, op, publicInputs)
    requires Find(publicInputs, "root_hi").Some? && Find(publicInputs, "root_lo").Some?
    ensures Find(NamedWords(op, words).value, "root_hi") == Find(publicInputs, "root_hi")
    ensures Find(NamedWords(op, words).value, "root_lo") == Find(publicInputs, "root_lo")
  {
    hide FieldFromWord, PublicNames, SameWord, PaddedWord, Find, RootPosition;
    var es, k := NamedWords(op, words).value, RootPosition(op);
    RootPositionNames(op);
    NamedWordsMeaning(op, words);
    PairsMeaning(PublicNames(op), words);
    FindAt(es, k);
    FindAt(es, k + 1);
    EchoedValue(words[k], es[k].value, Find(publicInputs, "root_hi").value);
    EchoedValue(words[k + 1], es[k + 1].value, Find(publicInputs, "root_lo").value);
  }

  /** The outputs of a state-bound proof carry exactly the root of the request they answer. */
  lemma ResponseCarriesRoot(env: Environment, request: ProofRequest)
    requires EchoesRoot(env) && StateBound(request.operation)
    requires Preflight(request).None? && Generated(env, request).Ok?
    ensures var r := Generated(env, request).value;
            && Find(r.publicOutputs, "root_hi").Some? && Find(r.publicOutputs, "root_lo").Some?
            && request.state.Some? && r.state == request.state
            && RootHalves(request.state.value.root)
            == (Find(r.publicOutputs, "root_hi").value, Find(r.publicOutputs, "root_lo").value)
  {
    hide Validate, Supports, IsKeyId, Consistent, NamedWords, Preflight, ConcatWords, Find, EchoesRootOf;
    PreflightBindsState(request);
    var hi, lo := Find(request.publicInputs, "root_hi").value, Find(request.publicInputs, "root_lo").value;
    HalvesMatchRoot(request.state.value.root, hi, lo);
    var bytecode, p := env.bytecode(request.circuit).value, ProveAndName(env, request).value;
    assert env.prove(bytecode, request) == Ok(p.bundle);
    NamedRoot(request.operation, p.bundle.publicInputs.words, request.publicInputs);
  }

  lemma ResponseBoundToState(env: Environment, request: ProofRequest)
    requires EchoesRoot(env) && Preflight(request).None? && Generated(env, request).Ok?
    ensures BoundToState(Generated(env, request).value.publicOutputs, request.state)
  {
    var r := FromResponse(Generated(env, request).value);
    NoFaultIffBound(r);
    if StateBound(request.operation) {
      ResponseCarriesRoot(env, request);
    } else {
      NoRootWords(env, request);
    }
  }

  lemma NoRootWords(env: Environment, request: ProofRequest)
    requires !StateBound(request.operation) && Generated(env, request).Ok?
    ensures Find(Generated(env, request).value.publicOutputs, "root_hi").None?
  {
    hide Validate, Supports, IsKeyId, Consistent, NamedWords, ConcatWords;
    NoRootNamed(request.operation, ProveAndName(env, request).value.bundle.publicInputs.words);
  }

  lemma NoRootNamed(op: Operation, words: seq<string>)
    requires !StateBound(op) && NamedWords(op, words).Ok?
    ensures Find(NamedWords(op, words).value, "root_hi").None?
  {
    hide NamedWords, PublicNames, SameWords, ValidEntries;
    var es := NamedWords(op, words).value;
    NamedWordsMeaning(op, words);
    RootIsNoPublicName(op);
    forall i | 0 <= i < |es| ensures es[i].name != "root_hi" {
      assert Names(es)[i] == es[i].name;
    }
  }

  lemma RootIsNoPublicName(op: Operation)
    requires !StateBound(op)
    ensures forall i :: 0 <= i < |PublicNames(op)| ==> PublicNames(op)[i] != "root_hi"
  {
  }

  // ---------- End to end ----------

  /** Later puts under other keys do not matter: only what the response's own id reads back. */
  ghost predicate KeepsKey(env: Environment, files: KeyFiles, later: KeyFiles, request: ProofRequest)
    requires Generated(env, request).Ok?
  {
    var keyId := Generated(env, request).value.keyId;
    KeyStore.Lookup(env.sha, later, keyId)
    == KeyStore.Lookup(env.sha, FilesAfterGenerate(env, files, request), keyId)
  }

  /**
   Completeness: for every request past preflight, the proof the provider generates is
   accepted exactly when it is not empty, as long as the key it stored is still there.
   */
  lemma GeneratedProofAccepted(env: Environment, files: KeyFiles, later: KeyFiles, request: ProofRequest)
    requires ReadsNumbers(env) && AcceptsOwnProofs(env) && EchoesRoot(env)
    requires Preflight(request).None? && Generated(env, request).Ok? && KeepsKey(env, files, later, request)
    ensures var r := Generated(env, request).value;
            Verify(env, later, FromResponse(r)) == Ok(if r.proof.bytes != [] then VERIFIED else Rejected(InvalidProof))
  {
    hide Preflight, EchoesRoot, BoundToState, KeyStore.Lookup, Rebuilt, Parse, SameBundle, StateFault;
    hide Validate, Supports, IsKeyId, Consistent, NamedWords, ConcatWords;
    var r, p := Generated(env, request).value, ProveAndName(env, request).value;
    RebuiltIsSame(env, request);
    assert |r.proof.bytes| % 32 == 0;
    KeyIsStored(env, files, request);
    ResponseBoundToState(env, request);
    NoFaultIffBound(FromResponse(r));
    IdRoundTrip(p.key);
    assert env.prove(env.bytecode(request.circuit).value, request) == Ok(p.bundle);
  }

  /**
   With its outputs untouched, the proof of a state-bound request is refused for every other
   root and without a state; `UltraHonkBinding` says what happens when output names change.
   */
  lemma StateSubstitutionRefused(env: Environment, files: KeyFiles, later: KeyFiles, request: ProofRequest,
                                 other: Option<StateReference>)
    requires EchoesRoot(env) && StateBound(request.operation)
    requires Preflight(request).None? && Generated(env, request).Ok? && KeepsKey(env, files, later, request)
    requires Generated(env, request).value.proof.bytes != []
    requires other.Some? ==> request.state.Some? ==> other.value.root != request.state.value.root
    ensures Verify(env, later, FromResponse(Generated(env, request).value).(state := other))
         == Ok(Rejected(if other.None? then MissingStateBinding else StateReferenceMismatch))
  {
    hide Preflight, EchoesRoot, KeyStore.Lookup, Rebuilt, Parse, SameBundle, RootHalves, Find;
    hide Validate, Supports, IsKeyId, Consistent, NamedWords, ConcatWords;
    var p := ProveAndName(env, request).value;
    RebuiltIsSame(env, request);
    KeyIsStored(env, files, request);
    ResponseCarriesRoot(env, request);
    IdRoundTrip(p.key);
    if other.Some? {
      RootHalvesInjective(other.value.root, request.state.value.root);
    }
  }

  // ---------- Through the service ----------

  function UltraHonkAsProvider(env: Environment): Provider {
    Provider(ULTRAHONK_BACKEND, (circuit: CircuitId, version: Version) => Supports(circuit, version),
             request => Generated(env, request))
  }

  function UltraHonkAsVerifier(env: Environment, files: KeyFiles): LocalVerifier {
    LocalVerifier(ULTRAHONK_BACKEND, request => Verify(env, files, request))
  }

  /**
   A service whose UltraHonk provider and verifier share a store never answers that its own
   non-empty proof was rejected: it succeeds exactly when the request passes preflight, the
   circuit is supported and the provider generates a non-empty proof.
   */
  lemma ServiceCompleteness(env: Environment, regs: seq<Provider>, files: KeyFiles, request: ProofRequest)
    requires ReadsNumbers(env) && AcceptsOwnProofs(env) && EchoesRoot(env)
    requires request.backend == ULTRAHONK_BACKEND
    requires Latest(regs, ULTRAHONK_BACKEND) == Some(UltraHonkAsProvider(env))
    ensures var after := FilesAfterGenerate(env, files, request);
            var r := ProveAndVerifyCore(Registered(regs), Some(UltraHonkAsVerifier(env, after)), request);
            && (r.Ok? <==> && Preflight(request).None?
                           && Supports(request.circuit, request.circuitVersion)
                           && Generated(env, request).Ok? && Generated(env, request).value.proof.bytes != [])
            && (r.Ok? ==> r.value == (Generated(env, request).value, VERIFIED))
  {
    hide Generated, FilesAfterGenerate, Verify, Supports, Preflight, Dispatch;
    hide Latest, Registered, ReadsNumbers, AcceptsOwnProofs, EchoesRoot;
    DispatchIsGenerated(env, regs, request);
    if Preflight(request).None? && Generated(env, request).Ok? {
      GeneratedProofAccepted(env, files, FilesAfterGenerate(env, files, request), request);
    }
  }

  lemma DispatchIsGenerated(env: Environment, regs: seq<Provider>, request: ProofRequest)
    requires request.backend == ULTRAHONK_BACKEND
    requires Latest(regs, ULTRAHONK_BACKEND) == Some(UltraHonkAsProvider(env))
    ensures var r := Dispatch(Registered(regs), request);
            && (r.Ok? <==> Supports(request.circuit, request.circuitVersion) && Generated(env, request).Ok?)
            && (r.Ok? ==> r.value == Generated(env, request).value)
  {
    hide Generated, Supports, Latest, Registered;
    RegistryRefinesMap(regs, ULTRAHONK_BACKEND);
  }
}
