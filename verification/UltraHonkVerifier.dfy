/**
 The UltraHonk verifier: a fixed chain of checks before the backend decides, the context that
 acceptance binds, and the full way from a request to its own verified proof.
 */
module UltraHonkVerifier {
  import opened Outcomes
  import opened Text
  import opened Hex
  import opened FieldValues
  import opened Bags
  import opened Words
  import opened Requests
  import opened KeyIds
  import opened KeyStore
  import opened ProverService
  import opened UltraHonk

  type KeyFiles = map<KeyStore.Path, VkDocument>

  /** The files the backend is given: proof bytes split into words again, values padded again. */
  function Rebuilt(r: VerificationRequest, vk: VkDocument): Bundle
    requires |r.proof.bytes| % 32 == 0
  {
    var words := Resplit(r.proof.bytes, |r.proof.bytes| / 32);
    Bundle(ProofDocument(words, vk.hash, vk.bbVersion, vk.scheme),
           PublicInputsDocument(PaddedWords(r.publicOutputs), TESTED_BB_VERSION, SCHEME_ULTRA_HONK),
           vk)
  }

  /** Why the submitted state does not go with the submitted root words, if it does not. */
  function StateFault(r: VerificationRequest): Option<VerificationFailure> {
    var hi, lo := Find(r.publicOutputs, "root_hi"), Find(r.publicOutputs, "root_lo");
    if hi.None? || lo.None? then None
    else if r.state.None? then Some(MissingStateBinding)
    else if RootHalves(r.state.value.root) != (hi.value, lo.value) then Some(StateReferenceMismatch)
    else None
  }

  /** Why the key id does not go with the rest of the request, if it does not. */
  function KeyFault(r: VerificationRequest): Option<VerificationFailure> {
    match Parse(r.keyId)
    case None => Some(WrongVerificationKey)
    case Some(k) =>
      if k.circuit != r.circuit then Some(CircuitMismatch)
      else if k.version != r.circuitVersion then Some(VersionMismatch)
      else if k.hash != r.checksum then Some(ArtifactChecksumMismatch)
      else None
  }

  function Verify(env: Environment, files: KeyFiles, r: VerificationRequest)
    : Result<VerificationOutcome, VerifierError>
  {
    if r.proof.format != PROOF_FORMAT_TAG || r.backend != ULTRAHONK_BACKEND then Ok(Rejected(BackendMismatch))
    else if KeyFault(r).Some? then Ok(Rejected(KeyFault(r).value))
    else
      match KeyStore.Lookup(env.sha, files, r.keyId)
      case Err(MissingFile(_)) => Ok(Rejected(WrongVerificationKey))
      case Err(_) => Err(VerifierInternal)
      case Ok(vk) =>
        if r.proof.bytes == [] || |r.proof.bytes| % 32 != 0 then Ok(Rejected(InvalidProof))
        else if StateFault(r).Some? then Ok(Rejected(StateFault(r).value))
        else
          var verdict :- env.verify(Rebuilt(r, vk));
          Ok(if verdict then VERIFIED else Rejected(InvalidProof))
  }

  predicate Accepts(env: Environment, files: KeyFiles, r: VerificationRequest) {
    Verify(env, files, r) == Ok(VERIFIED)
  }

  // ---------- What acceptance means ----------

  /** The submitted root words, when both are there, are the two halves of the submitted root. */
  predicate BoundToState(outputs: Entries, state: Option<StateReference>) {
    var hi, lo := Find(outputs, "root_hi"), Find(outputs, "root_lo");
    hi.Some? && lo.Some? ==>
      && state.Some? && Value(hi.value) < TWO_128 && Value(lo.value) < TWO_128
      && Value(hi.value) * TWO_128 + Value(lo.value) == HexValue(state.value.root)
  }

  lemma NoFaultIffBound(r: VerificationRequest)
    ensures StateFault(r).None? <==> BoundToState(r.publicOutputs, r.state)
  {
    var hi, lo := Find(r.publicOutputs, "root_hi"), Find(r.publicOutputs, "root_lo");
    if hi.Some? && lo.Some? && r.state.Some? {
      HalvesMatchRoot(r.state.value.root, hi.value, lo.value);
    }
  }

  /**
   A proof is accepted exactly when it is an UltraHonk proof of whole words, its key id names
   its own circuit, version and checksum and is stored, its root words are the halves of its
   state root, and the backend accepts the rebuilt files under the stored key.
   */
  lemma AcceptsIff(env: Environment, files: KeyFiles, r: VerificationRequest)
    ensures Accepts(env, files, r) <==>
            && r.proof.format == PROOF_FORMAT_TAG && r.backend == ULTRAHONK_BACKEND
            && Parse(r.keyId) == Some(KeyParts(r.circuit, r.circuitVersion, r.checksum))
            && KeyStore.Lookup(env.sha, files, r.keyId).Ok?
            && r.proof.bytes != [] && |r.proof.bytes| % 32 == 0
            && BoundToState(r.publicOutputs, r.state)
            && env.verify(Rebuilt(r, KeyStore.Lookup(env.sha, files, r.keyId).value)) == Ok(true)
  {
    hide StateFault, BoundToState, Rebuilt, Parse, KeyStore.Lookup;
    NoFaultIffBound(r);
  }

  /**
   Binding: two requests accepted under one key id, even against different stores, agree on
   circuit, version and checksum; and when they carry the same root words, on the full root.
   */
  lemma AcceptedContextsAgree(env: Environment, files: KeyFiles, files': KeyFiles,
                              r: VerificationRequest, r': VerificationRequest)
    requires Accepts(env, files, r) && Accepts(env, files', r')
    ensures r.keyId == r'.keyId ==>
              r.circuit == r'.circuit && r.circuitVersion == r'.circuitVersion && r.checksum == r'.checksum
    ensures var (hi, lo) := (Find(r.publicOutputs, "root_hi"), Find(r.publicOutputs, "root_lo"));
            hi.Some? && lo.Some?
            && Find(r'.publicOutputs, "root_hi") == hi && Find(r'.publicOutputs, "root_lo") == lo ==>
              r.state.Some? && r'.state.Some? && r.state.value.root == r'.state.value.root
  {
    hide Parse, KeyStore.Lookup, Rebuilt, Find, Verify, RootHalves;
    AcceptsIff(env, files, r);
    AcceptsIff(env, files', r');
    var hi, lo := Find(r.publicOutputs, "root_hi"), Find(r.publicOutputs, "root_lo");
    if hi.Some? && lo.Some?
       && Find(r'.publicOutputs, "root_hi") == hi && Find(r'.publicOutputs, "root_lo") == lo {
      HexSameWidthUnique(r.state.value.root, r'.state.value.root);
    }
  }

  /** Without both root words the state reference plays no part in the verdict. */
  lemma StateUncheckedWithoutRootWords(env: Environment, files: KeyFiles, r: VerificationRequest,
                                       state: Option<StateReference>)
    requires Find(r.publicOutputs, "root_hi").None? || Find(r.publicOutputs, "root_lo").None?
    ensures Verify(env, files, r.(state := state)) == Verify(env, files, r)
  {
    var r' := r.(state := state);
    assert StateFault(r').None? && StateFault(r).None?;
    assert KeyFault(r') == KeyFault(r);
    hide StateFault, KeyFault, KeyStore.Lookup;
    assert r.proof.bytes != [] && |r.proof.bytes| % 32 == 0 ==> forall vk :: Rebuilt(r', vk) == Rebuilt(r, vk);
  }

  // ---------- Which reason a rejection gives ----------

  /** An unreadable id is the wrong key; else the first of circuit, version and checksum that differs. */
  lemma KeyFaultIs(r: VerificationRequest)
    ensures match Parse(r.keyId)
            case None => KeyFault(r) == Some(WrongVerificationKey)
            case Some(k) =>
              && (KeyFault(r) == Some(CircuitMismatch) <==> k.circuit != r.circuit)
              && (KeyFault(r) == Some(VersionMismatch) <==> k.circuit == r.circuit && k.version != r.circuitVersion)
              && (KeyFault(r) == Some(ArtifactChecksumMismatch) <==>
                    k.circuit == r.circuit && k.version == r.circuitVersion && k.hash != r.checksum)
              && (KeyFault(r).None? <==> k == KeyParts(r.circuit, r.circuitVersion, r.checksum))
  {
    hide Parse;
  }

  /** Root words without a state are an unbound proof, and with another root a stale one. */
  lemma StateFaultIs(r: VerificationRequest)
    ensures StateFault(r) == Some(MissingStateBinding) <==>
            && Find(r.publicOutputs, "root_hi").Some? && Find(r.publicOutputs, "root_lo").Some? && r.state.None?
    ensures StateFault(r) == Some(StateReferenceMismatch) <==>
            r.state.Some? && !BoundToState(r.publicOutputs, r.state)
    ensures StateFault(r).None? <==> BoundToState(r.publicOutputs, r.state)
  {
    NoFaultIffBound(r);
    hide RootHalves, Find;
  }

  /**
   The verdict stage by stage: routing, the key id, the stored key, whole proof words, the state,
   and at last the backend, whose refusal is an invalid proof and whose failure is passed on.
   */
  lemma VerifyStages(env: Environment, files: KeyFiles, r: VerificationRequest)
    ensures var v := Verify(env, files, r);
            var routed := r.proof.format == "ultrahonk-v1" && r.backend == "ultrahonk";
            var stored := KeyStore.Lookup(env.sha, files, r.keyId);
            && (!routed ==> v == Ok(Rejected(BackendMismatch)))
            && (routed && KeyFault(r).Some? ==> v == Ok(Rejected(KeyFault(r).value)))
            && (routed && KeyFault(r).None? ==>
                  && (stored.Err? ==>
                        v == if stored.error.MissingFile? then Ok(Rejected(WrongVerificationKey))
                             else Err(VerifierInternal))
                  && (stored.Ok? ==>
                        && (r.proof.bytes == [] || |r.proof.bytes| % 32 != 0 ==> v == Ok(Rejected(InvalidProof)))
                        && (r.proof.bytes != [] && |r.proof.bytes| % 32 == 0 ==>
                              && (StateFault(r).Some? ==> v == Ok(Rejected(StateFault(r).value)))
                              && (StateFault(r).None? ==>
                                    match env.verify(Rebuilt(r, stored.value))
                                    case Err(error) => v == Err(error)
                                    case Ok(true) => v == Ok(VERIFIED)
                                    case Ok(false) => v == Ok(Rejected(InvalidProof))))))
  {
    hide KeyFault, StateFault, KeyStore.Lookup, Rebuilt;
  }

  /** The files the backend is given, word by word and label by label. */
  lemma RebuiltContent(r: VerificationRequest, vk: VkDocument, i: nat)
    requires |r.proof.bytes| % 32 == 0
    ensures var b := Rebuilt(r, vk);
            && 32 * |b.proof.words| == |r.proof.bytes| && |b.publicInputs.words| == |r.publicOutputs|
            && (i < |b.proof.words| ==> b.proof.words[i] == "0x" + HexEncode(r.proof.bytes[32 * i..32 * i + 32]))
            && (i < |r.publicOutputs| ==> b.publicInputs.words[i] == "0x" + PadZeros(r.publicOutputs[i].value, 64))
            && b.vk == vk && b.proof.vkHash == vk.hash && b.proof.bbVersion == vk.bbVersion
            && b.proof.scheme == vk.scheme && b.publicInputs.scheme == "ultra_honk"
            && b.publicInputs.bbVersion == "6.0.0-nightly.20260903"
  {
    hide HexEncode, PadZeros;
    var count := |r.proof.bytes| / 32;
    assert |r.proof.bytes| == 32 * count;
    if i < count {
      ResplitAt(r.proof.bytes, count, i);
    }
  }
}
