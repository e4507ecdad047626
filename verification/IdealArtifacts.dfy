/** A pinned artifact directory that loads, so that proving from pinned bytecode is possible at all. */
module IdealArtifacts {
  import opened Outcomes
  import opened Text
  import opened Hex
  import opened Circuits
  import opened Requests
  import opened KeyIds
  import opened KeyStore
  import opened FileTree
  import opened Artifacts
  import opened ArtifactIntegrity
  import opened ProverService
  import opened UltraHonk
  import opened IdealToolchain

  function BytecodeName(circuit: CircuitId): string {
    circuit + ".json"
  }

  /** The manifest and empty bytecode. */
  function PinnedTree(circuit: CircuitId): seq<DirEntry> {
    [DirEntry(MANIFEST_FILENAME, File([])), DirEntry(BytecodeName(circuit), File([]))]
  }

  function PinnedManifest(sha: Hasher, circuit: CircuitId): Manifest {
    Manifest(1, Provenance(circuit, COMPATIBLE, COMPATIBLE, ULTRAHONK_BACKEND, None, map[]),
             [ManifestFile(BytecodeName(circuit), Checksum(sha, []), None)])
  }

  function PinnedFor(sha: Hasher, circuit: CircuitId): Pinned {
    Pinned((c: CircuitId) => PinnedTree(circuit), (bytes: seq<byte>) => Some(PinnedManifest(sha, circuit)))
  }

  /** The ideal toolchain, proving from what the strict loader returns. */
  function PinnedIdeal(sha: Hasher, circuit: CircuitId): Environment {
    Ideal(sha).(bytecode := (c: CircuitId) => Bytecode(sha, PinnedFor(sha, circuit), c))
  }

  lemma BytecodeNameIsSafe(circuit: CircuitId)
    ensures var name := BytecodeName(circuit);
            && IsSafe(name) && Split(name, '/') == [name] && IsFileName(name) && Slashed(name) == name
  {
    var name := BytecodeName(circuit);
    assert forall i :: 0 <= i < |circuit| ==> IsCircuitIdChar(circuit[i]);
    assert forall i :: |circuit| <= i < |name| ==> name[i] == ".json"[i - |circuit|];
    assert forall i :: 0 <= i < |name| ==> name[i] != '/' && name[i] != '\\' && name[i] != '\0';
    IndexOfAbsent(name, '/');
    assert |name| >= 6;
  }

  lemma NotTheManifest(circuit: CircuitId)
    requires circuit != "manifest"
    ensures BytecodeName(circuit) != MANIFEST_FILENAME
  {
    if BytecodeName(circuit) == MANIFEST_FILENAME {
      assert MANIFEST_FILENAME == "manifest" + ".json";
      SuffixInjective(circuit, "manifest", ".json");
    }
  }

  lemma TreeFiles(circuit: CircuitId, path: FileTree.Path)
    requires circuit != "manifest" && path != []
    ensures IsFileAt(PinnedTree(circuit), path) <==> path == [MANIFEST_FILENAME] || path == [BytecodeName(circuit)]
    ensures IsFileAt(PinnedTree(circuit), path) ==> ReadFile(PinnedTree(circuit), path) == Some([])
  {
    hide BytecodeName;
    NotTheManifest(circuit);
    var tree := PinnedTree(circuit);
    assert tree[1..] == [tree[1]];
    SingleLookup(tree[1], path);
    assert |path| == 1 ==> path == [path[0]];
  }

  lemma TreeIsWellFormed(circuit: CircuitId)
    requires circuit != "manifest"
    ensures WellFormed(PinnedTree(circuit))
  {
    NotTheManifest(circuit);
    BytecodeNameIsSafe(circuit);
    ManifestNamePlain();
    hide BytecodeName;
  }

  lemma TreeIsAccounted(sha: Hasher, circuit: CircuitId)
    requires circuit != "manifest"
    ensures AllAccounted(PinnedTree(circuit), PinnedManifest(sha, circuit).files)
  {
    var fs := PinnedManifest(sha, circuit).files;
    BytecodeNameIsSafe(circuit);
    assert Slashed(MANIFEST_FILENAME) == MANIFEST_FILENAME;
    forall path | IsFileAt(PinnedTree(circuit), path) ensures Accounted(fs, Reported(path)) {
      TreeFiles(circuit, path);
      assert fs[0].path == BytecodeName(circuit);
      assert Reported(path) == path[0];
    }
  }

  /** The directory loads strictly, and its bytecode is what is on disk. */
  lemma PinnedLoads(sha: Hasher, circuit: CircuitId)
    requires circuit != "manifest"
    ensures Bytecode(sha, PinnedFor(sha, circuit), circuit) == Ok([])
  {
    hide IsSafe, Split, AllAccounted, WellFormed, IsFileAt, ReadFile, Loaded, Checksum;
    var tree, m, name := PinnedTree(circuit), PinnedManifest(sha, circuit), BytecodeName(circuit);
    BytecodeNameIsSafe(circuit);
    TreeIsWellFormed(circuit);
    TreeIsAccounted(sha, circuit);
    TreeFiles(circuit, [MANIFEST_FILENAME]);
    TreeFiles(circuit, [name]);
    assert OnDisk(sha, tree, m.files[0]);
    LoadSucceedsIff(sha, true, tree, m);
    LoadedFilesAreVerified(sha, true, tree, m, name);
    assert m.files[0].path == name;
    assert LoadPinned(sha, PinnedFor(sha, circuit), circuit) == Loaded(sha, true, tree, Some(m));
  }

  /**
   So the premise about pinned bytecode can be met together with generated proofs: proving from
   the loaded artifact answers every request on its circuit as the ideal toolchain does.
   */
  lemma PinnedIdealProves(sha: Hasher, own: Operation, request: ProofRequest)
    requires request.circuit == OperationName(own)
    ensures LoadsPinned(PinnedIdeal(sha, OperationName(own)), PinnedFor(sha, OperationName(own)))
    ensures Generated(PinnedIdeal(sha, OperationName(own)), request) == Generated(Ideal(sha), request)
  {
    hide Validate, Supports, Consistent, NamedWords, IdFor, IsKeyId, Bytecode, Respond;
    NoManifestCircuit(own);
    PinnedLoads(sha, OperationName(own));
  }

  lemma NoManifestCircuit(own: Operation)
    ensures OperationName(own) != "manifest"
  {
    assert OperationName(own)[0] != 'm' || OperationName(own)[1] != 'a';
  }

  /** In particular some proof is generated from pinned bytecode, for each state-bound operation. */
  lemma PinnedProofExists(sha: Hasher, own: Operation) returns (env: Environment, pinned: Pinned, request: ProofRequest)
    requires StateBound(own)
    ensures LoadsPinned(env, pinned) && Preflight(request).None? && Generated(env, request).Ok?
  {
    env, pinned := PinnedIdeal(sha, OperationName(own)), PinnedFor(sha, OperationName(own));
    request := PlainRequest(own, own);
    PlainPassesPreflight(own, own);
    PlainHasOwnInputs(own, own);
    hide Validate, HasOwnInputs, Generated, PinnedIdeal;
    PinnedIdealProves(sha, own, request);
    IdealProvesIff(sha, request, own);
  }
}
