/**
 The UltraHonk provider: loading the pinned artifact, checking what the backend wrote, naming
 its public words, storing the key, and answering. The toolchain itself is a parameter.
 */
module UltraHonk {
  import opened Outcomes
  import opened Numerals
  import opened Text
  import opened Hex
  import opened FieldValues
  import opened Bags
  import opened Circuits
  import opened Calldata
  import opened Words
  import opened Requests
  import opened KeyIds
  import opened KeyStore
  import Artifacts
  import FileTree
  import ArtifactIntegrity

  const PROOF_FORMAT_TAG := "ultrahonk-v1"
  const TESTED_BB_VERSION := "6.0.0-nightly.20260903"
  const COMPATIBLE := Version(0, 1, 0)
  const OPERATIONS := [Register, Deposit, Merge, Transfer, Withdraw]

  // ---------- The backend's files ----------

  datatype ProofDocument = ProofDocument(words: seq<string>, vkHash: string, bbVersion: string, scheme: string)

  datatype PublicInputsDocument = PublicInputsDocument(words: seq<string>, bbVersion: string, scheme: string)

  /** A proof bundle: what proving writes and what verifying reads. */
  datatype Bundle = Bundle(proof: ProofDocument, publicInputs: PublicInputsDocument, vk: VkDocument)

  /**
   Everything outside this code: the hash, whether both toolchains are there in the right
   version, the pinned bytecode, and what solving, proving and verifying answer.
   */
  datatype Environment = Environment(
    sha: Hasher,
    toolchains: Result<(), ProviderError>,
    bytecode: CircuitId -> Result<seq<byte>, ProviderError>,
    prove: (seq<byte>, ProofRequest) -> Result<Bundle, ProviderError>,
    verify: Bundle -> Result<bool, VerifierError>)

  predicate Provenanced(scheme: string, bbVersion: string) {
    scheme == SCHEME_ULTRA_HONK && Trim(bbVersion) != ""
  }

  /** The checks on freshly written artifacts, ending with the two key digests. */
  predicate Consistent(b: Bundle) {
    && Provenanced(b.proof.scheme, b.proof.bbVersion)
    && Provenanced(b.publicInputs.scheme, b.publicInputs.bbVersion)
    && Provenanced(b.vk.scheme, b.vk.bbVersion)
    && DigestBytes(b.proof.vkHash).Some?
    && DigestBytes(b.vk.hash) == DigestBytes(b.proof.vkHash)
  }

  // ---------- Which circuits are supported ----------

  predicate Supports(circuit: CircuitId, version: Version) {
    (exists i :: 0 <= i < |OPERATIONS| && OperationName(OPERATIONS[i]) == circuit) && version == COMPATIBLE
  }

  /** Every supported circuit gets a key id short enough to be one, whatever its artifact. */
  lemma SupportedKeyFits(circuit: CircuitId, version: Version, hash: Digest256)
    requires Supports(circuit, version)
    ensures IsKeyId(IdFor(KeyParts(circuit, version, hash)))
  {
    var i :| 0 <= i < |OPERATIONS| && OperationName(OPERATIONS[i]) == circuit;
    assert |circuit| <= 8;
    DisplayWidth(version);
    FormedIdFits(KeyParts(circuit, version, hash));
  }

  lemma DecimalWidth(n: u32)
    ensures |ToDecimal(n)| <= 10
  {
    assert Pow(10, 5) == 100000;
    PowAdd(10, 5, 5);
    PrintWidth(n, 10, 10);
  }

  lemma DisplayWidth(v: Version)
    ensures |DisplayVersion(v)| <= 32
  {
    DecimalWidth(v.major);
    DecimalWidth(v.minor);
    DecimalWidth(v.patch);
    var parts := [ToDecimal(v.major), ToDecimal(v.minor), ToDecimal(v.patch)];
    assert parts[1..] == [parts[1], parts[2]] && parts[1..][1..] == [parts[2]];
    assert Join(parts[1..], '.') == parts[1] + "." + parts[2];
    assert Join(parts, '.') == parts[0] + "." + Join(parts[1..], '.');
  }

  // ---------- Naming the public words ----------

  function NamePairs(names: seq<string>, words: seq<string>): Option<Entries>
    requires |names| == |words|
  {
    if words == [] then Some([])
    else
      var n := |words| - 1;
      var front :- NamePairs(names[..n], words[..n]);
      match FieldFromWord(words[n])
      case Err(_) => None
      case Ok(value) => Some(front + [Entry(names[n], value)])
  }

  function NamedWords(op: Operation, words: seq<string>): Result<Entries, ProviderError> {
    if |words| != |PublicNames(op)| then Err(ProofGeneration)
    else
      var named := NamePairs(PublicNames(op), words);
      if named.None? then Err(ProofGeneration) else Ok(named.value)
  }

  /** The bag never refuses a pinned name, so only the count or a word can go wrong. */
  method NameWords(op: Operation, words: seq<string>) returns (r: Result<Entries, ProviderError>)
    ensures r == NamedWords(op, words)
  {
    hide PublicNames, FieldFromWord, NamedUpTo, Inserted;
    var names := PublicNames(op);
    if |words| != |names| {
      return Err(ProofGeneration);
    }
    var bag := new PublicInputBag();
    NamedEnds(op, words, bag.entries);
    for i := 0 to |words|
      invariant NamedUpTo(names, words, bag.entries, i)
    {
      var value := FieldFromWord(words[i]);
      NamedStep(op, words, bag.entries, i);
      if value.Err? {
        return Err(ProofGeneration);
      }
      var inserted := bag.Insert(names[i], value.value);
      if inserted.Err? {
        return Err(InternalError);
      }
    }
    NamedEnds(op, words, bag.entries);
    r := Ok(bag.entries);
  }

  /** The first `i` words have been named, under the first `i` names. */
  ghost predicate NamedUpTo(names: seq<string>, words: seq<string>, es: Entries, i: nat) {
    && i <= |words| == |names|
    && NamePairs(names[..i], words[..i]) == Some(es) && Names(es) == names[..i]
  }

  lemma NamedEnds(op: Operation, words: seq<string>, es: Entries)
    requires |words| == |PublicNames(op)|
    ensures NamedUpTo(PublicNames(op), words, [], 0)
    ensures NamedUpTo(PublicNames(op), words, es, |words|) ==> NamedWords(op, words) == Ok(es)
  {
    hide PublicNames;
    var names := PublicNames(op);
    assert names[..|words|] == names && words[..|words|] == words;
  }

  lemma NamedStep(op: Operation, words: seq<string>, es: Entries, i: nat)
    requires i < |words| && NamedUpTo(PublicNames(op), words, es, i)
    ensures var name := PublicNames(op)[i];
            match FieldFromWord(words[i])
            case Err(_) => NamedWords(op, words) == Err(ProofGeneration)
            case Ok(value) =>
              var more := es + [Entry(name, value)];
              Inserted(es, name, value) == Ok(more) && NamedUpTo(PublicNames(op), words, more, i + 1)
  {
    hide PublicNames, FieldFromWord, ValidName;
    var names := PublicNames(op);
    PairStep(names, words, i);
    if FieldFromWord(words[i]).Err? {
      PairsStayNone(names, words, i + 1);
    } else {
      UsableFresh(op, es, i);
      assert Names(es + [Entry(names[i], FieldFromWord(words[i]).value)]) == Names(es) + [names[i]];
    }
  }

  lemma UsableFresh(op: Operation, es: Entries, i: nat)
    requires i < |PublicNames(op)| && Names(es) == PublicNames(op)[..i]
    ensures ValidateName(PublicNames(op)[i]).None? && !HasName(es, PublicNames(op)[i])
  {
    hide PublicNames, ValidateName;
    PublicNamesUsable(op);
    var names := PublicNames(op);
    assert ValidName(names[i]);
    forall j | 0 <= j < |es| ensures es[j].name != names[i] {
      assert Names(es)[j] == names[j];
    }
  }

  lemma PairStep(names: seq<string>, words: seq<string>, i: nat)
    requires i < |names| == |words|
    ensures NamePairs(names[..i + 1], words[..i + 1]) ==
            match NamePairs(names[..i], words[..i])
            case None => None
            case Some(front) => match FieldFromWord(words[i])
                                case Err(_) => None
                                case Ok(value) => Some(front + [Entry(names[i], value)])
  {
    hide FieldFromWord;
    assert names[..i + 1][..i] == names[..i] && words[..i + 1][..i] == words[..i];
  }

  lemma {:induction false} PairsStayNone(names: seq<string>, words: seq<string>, i: nat)
    requires i <= |words| == |names| && NamePairs(names[..i], words[..i]) == None
    ensures NamePairs(names, words) == None
    decreases |words| - i
  {
    if i == |words| {
      assert names[..i] == names && words[..i] == words;
    } else {
      PairStep(names, words, i);
      PairsStayNone(names, words, i + 1);
    }
  }

  /** The values a bag holds, as the words the verifier writes for them. */
  function PaddedWords(es: Entries): (words: seq<string>)
    ensures |words| == |es|
    ensures forall i :: 0 <= i < |es| ==> words[i] == PaddedWord(es[i].value)
  {
    seq(|es|, i requires 0 <= i < |es| => PaddedWord(es[i].value))
  }

  /** Each pair is a name with the value of its word. */
  predicate Pairs(names: seq<string>, words: seq<string>, es: Entries) {
    |names| == |words| == |es|
    && forall i :: 0 <= i < |es| ==> es[i].name == names[i] && FieldFromWord(words[i]) == Ok(es[i].value)
  }

  predicate AllReadable(words: seq<string>) {
    forall i :: 0 <= i < |words| ==> FieldFromWord(words[i]).Ok?
  }

  lemma {:induction false} PairsMeaning(names: seq<string>, words: seq<string>)
    requires |names| == |words|
    ensures NamePairs(names, words).Some? <==> AllReadable(words)
    ensures NamePairs(names, words).Some? ==> Pairs(names, words, NamePairs(names, words).value)
  {
    if words != [] {
      hide FieldFromWord, Pairs, AllReadable;
      var n := |words| - 1;
      PairStep(names, words, n);
      assert names[..n + 1] == names && words[..n + 1] == words;
      PairsMeaning(names[..n], words[..n]);
      ReadableSnoc(words);
      if NamePairs(names, words).Some? {
        PairsSnoc(names, words, NamePairs(names[..n], words[..n]).value, FieldFromWord(words[n]).value);
      }
    } else {
      hide FieldFromWord;
    }
  }

  lemma ReadableSnoc(words: seq<string>)
    requires words != []
    ensures var n := |words| - 1; AllReadable(words) <==> AllReadable(words[..n]) && FieldFromWord(words[n]).Ok?
  {
    hide FieldFromWord;
    assert words == words[..|words| - 1] + [words[|words| - 1]];
  }

  lemma PairsSnoc(names: seq<string>, words: seq<string>, es: Entries, value: FieldValue)
    requires words != [] && |names| == |words|
    requires var n := |words| - 1; Pairs(names[..n], words[..n], es) && FieldFromWord(words[n]) == Ok(value)
    ensures Pairs(names, words, es + [Entry(names[|words| - 1], value)])
  {
    hide FieldFromWord;
  }

  /**
   Words are named exactly when there are as many as the operation pins and each is readable;
   the bag then is well built, holds the pinned names in order, and the words the verifier
   writes for it denote the backend's numbers in the backend's order.
   */
  lemma NamedWordsMeaning(op: Operation, words: seq<string>)
    ensures NamedWords(op, words).Ok? <==>
            |words| == |PublicNames(op)| && AllReadable(words)
    ensures NamedWords(op, words).Ok? ==>
              var es := NamedWords(op, words).value;
              && ValidEntries(es) && Names(es) == PublicNames(op)
              && SameWords(PaddedWords(es), words)
  {
    hide FieldFromWord, PublicNames, ValidEntries, SameWords;
    if |words| == |PublicNames(op)| {
      PairsMeaning(PublicNames(op), words);
      if NamedWords(op, words).Ok? {
        PairsUsable(op, NamedWords(op, words).value);
        PairsSameWords(PublicNames(op), words);
      }
    }
  }

  lemma PairsUsable(op: Operation, es: Entries)
    requires |es| == |PublicNames(op)|
    requires forall i :: 0 <= i < |es| ==> es[i].name == PublicNames(op)[i]
    ensures ValidEntries(es) && Names(es) == PublicNames(op)
  {
    hide PublicNames, ValidName;
    PublicNamesUsable(op);
    assert Names(es) == PublicNames(op);
  }

  lemma PairsSameWords(names: seq<string>, words: seq<string>)
    requires |names| == |words| && NamePairs(names, words).Some?
    ensures |NamePairs(names, words).value| == |words|
    ensures SameWords(PaddedWords(NamePairs(names, words).value), words)
  {
    hide FieldFromWord, PaddedWord;
    PairsMeaning(names, words);
    var es := NamePairs(names, words).value;
    forall i | 0 <= i < |es| ensures SameWord(PaddedWords(es)[i], words[i]) {
      FieldFromWordMeaning(words[i]);
      PaddedWordReads(es[i].value);
    }
  }

  /** The on-chain calldata body of the named outputs is the backend's own byte form of them. */
  lemma CalldataIsInputsBytes(op: Operation, words: seq<string>)
    requires NamedWords(op, words).Ok? && ConcatWords(words).Some?
    ensures EncodeFields(EntryValues(NamedWords(op, words).value)) == ConcatWords(words).value
  {
    PairsBytes(PublicNames(op), words);
  }

  function EntryValues(es: Entries): (vs: seq<FieldValue>)
    ensures |vs| == |es|
  {
    seq(|es|, i requires 0 <= i < |es| => es[i].value)
  }

  lemma {:induction false} PairsBytes(names: seq<string>, words: seq<string>)
    requires |names| == |words| && NamePairs(names, words).Some? && ConcatWords(words).Some?
    ensures EncodeFields(EntryValues(NamePairs(names, words).value)) == ConcatWords(words).value
  {
    if words != [] {
      hide FieldFromWord, WordBytes, EncodeField;
      var n := |words| - 1;
      PairsBytes(names[..n], words[..n]);
      WordFormatsAgree(words[n]);
      var front, last := NamePairs(names[..n], words[..n]).value, FieldFromWord(words[n]).value;
      EncodeFieldsSnoc(EntryValues(front), last);
      assert EntryValues(front + [Entry(names[n], last)]) == EntryValues(front) + [last];
    }
  }

  // ---------- Generating ----------

  datatype Proved = Proved(key: KeyParts, bundle: Bundle, outputs: Entries)

  /** Everything up to naming the words; the key store is not touched yet. */
  function ProveAndName(env: Environment, request: ProofRequest): Result<Proved, ProviderError> {
    var invalid := Validate(request);
    if invalid.Some? then Err(InvalidRequest(invalid.value))
    else if request.backend != ULTRAHONK_BACKEND then Err(ProofGeneration)
    else if !Supports(request.circuit, request.circuitVersion) then Err(UnsupportedByProvider)
    else
      var _ :- env.toolchains;
      var bytecode :- env.bytecode(request.circuit);
      var key := KeyParts(request.circuit, request.circuitVersion, Checksum(env.sha, bytecode));
      if !IsKeyId(IdFor(key)) then Err(InternalError)
      else
        var bundle :- env.prove(bytecode, request);
        if !Consistent(bundle) then Err(ProofGeneration)
        else
          var outputs :- NamedWords(request.operation, bundle.publicInputs.words);
          Ok(Proved(key, bundle, outputs))
  }

  function PutOf(p: Proved): PutCall {
    PutCall(IdFor(p.key), p.bundle.vk)
  }

  function Respond(request: ProofRequest, p: Proved): Result<ProofResponse, ProviderError> {
    match ConcatWords(p.bundle.proof.words)
    case None => Err(ProofGeneration)
    case Some(bytes) =>
      Ok(ProofResponse(request.requestId, request.circuit, request.circuitVersion, ULTRAHONK_BACKEND,
                       ProofBlob(PROOF_FORMAT_TAG, bytes), p.outputs, IdFor(p.key), p.key.hash, request.state))
  }

  function Generated(env: Environment, request: ProofRequest): Result<ProofResponse, ProviderError> {
    var proved :- ProveAndName(env, request);
    Respond(request, proved)
  }

  /** The key is stored before the proof bytes are decoded, so also when that decoding fails. */
  function FilesAfterGenerate(env: Environment, files: map<KeyStore.Path, VkDocument>, request: ProofRequest)
    : map<KeyStore.Path, VkDocument>
  {
    match ProveAndName(env, request)
    case Err(_) => files
    case Ok(p) => FilesAfterPut(env.sha, files, PutOf(p))
  }

  class UltraHonkProvider {
    const env: Environment
    const store: VkStore

    constructor (env: Environment, store: VkStore)
      requires store.sha == env.sha
      ensures this.env == env && this.store == store
    {
      this.env := env;
      this.store := store;
    }

    method Generate(request: ProofRequest) returns (r: Result<ProofResponse, ProviderError>)
      requires store.sha == env.sha
      modifies store
      ensures r == Generated(env, request)
      ensures store.files == FilesAfterGenerate(env, old(store.files), request)
    {
      hide Validate, Supports, Consistent, NamedWords, IdFor, ConcatWords, IsKeyId;
      var invalid := Validate(request);
      if invalid.Some? {
        return Err(InvalidRequest(invalid.value));
      }
      if request.backend != ULTRAHONK_BACKEND {
        return Err(ProofGeneration);
      }
      if !Supports(request.circuit, request.circuitVersion) {
        return Err(UnsupportedByProvider);
      }
      if env.toolchains.Err? {
        return Err(env.toolchains.error);
      }
      var bytecode := env.bytecode(request.circuit);
      if bytecode.Err? {
        return Err(bytecode.error);
      }
      var key := KeyParts(request.circuit, request.circuitVersion, Checksum(env.sha, bytecode.value));
      if !IsKeyId(IdFor(key)) {
        return Err(InternalError);
      }
      var bundle := env.prove(bytecode.value, request);
      if bundle.Err? {
        return Err(bundle.error);
      }
      if !Consistent(bundle.value) {
        return Err(ProofGeneration);
      }
      var outputs := NameWords(request.operation, bundle.value.publicInputs.words);
      if outputs.Err? {
        return Err(outputs.error);
      }
      var put := store.Put(IdFor(key), bundle.value.vk);
      ConsistentScheme(bundle.value);
      if put.Err? {
        return Err(ProofGeneration);
      }
      r := Respond(request, Proved(key, bundle.value, outputs.value));
    }
  }

  lemma ConsistentScheme(b: Bundle)
    ensures Consistent(b) ==> b.vk.scheme == SCHEME_ULTRA_HONK
  {
  }

  // ---------- The pinned artifact ----------

  /** Where the pinned artifacts are, and how their manifests parse. */
  datatype Pinned = Pinned(
    trees: CircuitId -> seq<FileTree.DirEntry>,
    parse: seq<byte> -> Option<Artifacts.Manifest>)

  function LoadPinned(sha: Hasher, pinned: Pinned, circuit: CircuitId)
    : Result<Artifacts.LoadedArtifact, Artifacts.ArtifactError>
  {
    Artifacts.LoadedFromRoot(sha, true, pinned.trees(circuit), pinned.parse)
  }

  /** The bytecode the strict loader vouches for, or why there is none. */
  function Bytecode(sha: Hasher, pinned: Pinned, circuit: CircuitId): Result<seq<byte>, ProviderError> {
    match LoadPinned(sha, pinned, circuit)
    case Err(ReadFailure(_)) => Err(ArtifactUnavailable)
    case Err(_) => Err(ArtifactNotIntegral)
    case Ok(loaded) =>
      match ArtifactIntegrity.FileIn(loaded.files, circuit + ".json")
      case None => Err(ArtifactUnavailable)
      case Some(bytes) => Ok(bytes)
  }

  /** The provider proves from what the strict loader returns. */
  ghost predicate LoadsPinned(env: Environment, pinned: Pinned) {
    forall circuit :: env.bytecode(circuit) == Bytecode(env.sha, pinned, circuit)
  }

  /** `checksum` is the manifest's digest of `<circuit>.json`, and the file on disk has it. */
  predicate IsPinned(sha: Hasher, pinned: Pinned, circuit: CircuitId, checksum: Digest256) {
    var path := circuit + ".json";
    var loaded := LoadPinned(sha, pinned, circuit);
    var onDisk := FileTree.ReadFile(pinned.trees(circuit), Split(path, '/'));
    && loaded.Ok? && ArtifactIntegrity.FileChecksum(loaded.value.manifest.files, path) == Some(checksum)
    && onDisk.Some? && Checksum(sha, onDisk.value) == checksum
  }

  /**
   What a response speaks for: its checksum is the pinned one of its circuit, and its key id
   names exactly that circuit, version and checksum.
   */
  lemma ResponseNamesItsArtifact(env: Environment, pinned: Pinned, request: ProofRequest)
    requires LoadsPinned(env, pinned) && Generated(env, request).Ok?
    ensures var r := Generated(env, request).value;
            && Parse(r.keyId) == Some(KeyParts(request.circuit, request.circuitVersion, r.checksum))
            && IsPinned(env.sha, pinned, request.circuit, r.checksum)
  {
    hide Validate, Supports, Consistent, NamedWords, IdFor, ConcatWords, IsKeyId, Parse, Bytecode, IsPinned;
    var r := Generated(env, request).value;
    IdRoundTrip(KeyParts(request.circuit, request.circuitVersion, r.checksum));
    BytecodeIsPinned(env.sha, pinned, request.circuit);
  }

  lemma BytecodeIsPinned(sha: Hasher, pinned: Pinned, circuit: CircuitId)
    requires Bytecode(sha, pinned, circuit).Ok?
    ensures IsPinned(sha, pinned, circuit, Checksum(sha, Bytecode(sha, pinned, circuit).value))
  {
    hide Split, Checksum;
    var tree := pinned.trees(circuit);
    var parsed := pinned.parse(FileTree.ReadFile(tree, [Artifacts.MANIFEST_FILENAME]).value);
    ArtifactIntegrity.LoadedFilesAreVerified(sha, true, tree, parsed.value, circuit + ".json");
  }

  // ---------- What a failed request leaves in the key store ----------

  /** Past naming, a request fails exactly on a malformed proof word. */
  lemma FailsOnProofWord(env: Environment, request: ProofRequest)
    requires ProveAndName(env, request).Ok?
    ensures var words := ProveAndName(env, request).value.bundle.proof.words;
            Generated(env, request).Err? <==> exists i :: 0 <= i < |words| && WordBytes(words[i]).None?
  {
    hide ProveAndName, WordBytes;
    ConcatNoneIff(ProveAndName(env, request).value.bundle.proof.words);
  }

  /**
   A failed request changes the store exactly when it got as far as naming its words and the
   key was not already there; by `FailsOnProofWord` that is a malformed proof word.
   */
  lemma FailureLeavesKeyIff(env: Environment, files: map<KeyStore.Path, VkDocument>, request: ProofRequest)
    requires Generated(env, request).Err?
    ensures FilesAfterGenerate(env, files, request) != files <==>
            && ProveAndName(env, request).Ok?
            && var p := ProveAndName(env, request).value;
               var path := PathFor(env.sha, IdFor(p.key));
               path !in files || files[path] != p.bundle.vk
  {
    hide PathFor, IdFor, Validate, Supports, NamedWords, IsKeyId;
    var proved := ProveAndName(env, request);
    if proved.Ok? {
      ConsistentScheme(proved.value.bundle);
      hide ProveAndName;
      var path := PathFor(env.sha, IdFor(proved.value.key));
      if path in files && files[path] == proved.value.bundle.vk {
        assert files[path := proved.value.bundle.vk] == files;
      }
    }
  }

  // ---------- Naming by operation, proving by circuit ----------

  /** Merge and transfer pin different names but equally many; no other two operations do. */
  predicate SameCount(a: Operation, b: Operation) {
    a == b || (a.Merge? && b.Transfer?) || (a.Transfer? && b.Merge?)
  }

  lemma CountsAgree(a: Operation, b: Operation)
    ensures |PublicNames(a)| == |PublicNames(b)| <==> SameCount(a, b)
  {
  }

  lemma PublicNamesInjective(a: Operation, b: Operation)
    ensures PublicNames(a) == PublicNames(b) <==> a == b
  {
    CountsAgree(a, b);
    if SameCount(a, b) && a != b {
      assert PublicNames(a)[1] != PublicNames(b)[1];
    }
  }

  /**
   A response carries the names of its circuit's own surface exactly when the request's
   operation is the one the circuit belongs to; nothing in the request ties the two.
   */
  lemma NamedByOwnSurfaceIff(env: Environment, request: ProofRequest, own: Operation)
    requires request.circuit == OperationName(own)
    ensures Generated(env, request).Ok? ==>
              (Names(Generated(env, request).value.publicOutputs) == PublicNames(own) <==> request.operation == own)
  {
    hide PublicNames, NamedWords, Validate, Supports, Consistent, IdFor, IsKeyId, ConcatWords;
    if Generated(env, request).Ok? {
      NamedWordsMeaning(request.operation, ProveAndName(env, request).value.bundle.publicInputs.words);
      PublicNamesInjective(request.operation, own);
    }
  }

  /** A response always carries the names of its request's operation. */
  lemma ResponseNames(env: Environment, request: ProofRequest)
    requires Generated(env, request).Ok?
    ensures ValidEntries(Generated(env, request).value.publicOutputs)
    ensures Names(Generated(env, request).value.publicOutputs) == PublicNames(request.operation)
  {
    hide PublicNames, NamedWords, Validate, Supports, Consistent, IdFor, IsKeyId, ValidEntries;
    NamedWordsMeaning(request.operation, ProveAndName(env, request).value.bundle.publicInputs.words);
  }

  /** The backend reports as many words as the surface of the circuit it proves. */
  ghost predicate ReportsOwnSurface(env: Environment) {
    forall bytecode, request, own ::
      env.prove(bytecode, request).Ok? && request.circuit == OperationName(own) ==>
        |env.prove(bytecode, request).value.publicInputs.words| == |PublicNames(own)|
  }

  /**
   With such a backend the count check lets a misnamed response through exactly for a merge
   request on the transfer circuit or the other way round.
   */
  lemma MisnamedIff(env: Environment, request: ProofRequest, own: Operation)
    requires ReportsOwnSurface(env) && request.circuit == OperationName(own)
    ensures Generated(env, request).Ok? ==>
              (Names(Generated(env, request).value.publicOutputs) != PublicNames(own) <==>
               SameCount(request.operation, own) && request.operation != own)
  {
    hide PublicNames, NamedWords, Validate, Supports, Consistent, IdFor, IsKeyId, ConcatWords;
    if Generated(env, request).Ok? {
      var words := ProveAndName(env, request).value.bundle.publicInputs.words;
      assert env.prove(env.bytecode(request.circuit).value, request).value.publicInputs.words == words;
      NamedWordsMeaning(request.operation, words);
      NamedByOwnSurfaceIff(env, request, own);
      CountsAgree(request.operation, own);
    }
  }

  // ---------- Which requests are answered, and how the others end ----------

  /** The five protocol circuits at version 0.1.0. */
  lemma SupportsIff(circuit: CircuitId, version: Version)
    ensures Supports(circuit, version) <==>
            && (circuit == "register" || circuit == "deposit" || circuit == "merge" || circuit == "transfer"
                || circuit == "withdraw")
            && version == Version(0, 1, 0)
  {
    assert OPERATIONS[0] == Register && OPERATIONS[1] == Deposit && OPERATIONS[2] == Merge;
    assert OPERATIONS[3] == Transfer && OPERATIONS[4] == Withdraw;
    assert OperationName(Register) == "register" && OperationName(Deposit) == "deposit";
    assert OperationName(Merge) == "merge" && OperationName(Transfer) == "transfer";
    assert OperationName(Withdraw) == "withdraw";
    hide OperationName;
  }

  /** Fresh artifacts are consistent when all three carry scheme and version and both digests denote one number. */
  lemma ConsistentIff(b: Bundle)
    ensures Consistent(b) <==>
            && b.proof.scheme == "ultra_honk" && b.publicInputs.scheme == "ultra_honk" && b.vk.scheme == "ultra_honk"
            && !AllBlank(b.proof.bbVersion) && !AllBlank(b.publicInputs.bbVersion) && !AllBlank(b.vk.bbVersion)
            && DigestBytes(b.proof.vkHash).Some? && DigestBytes(b.vk.hash).Some?
            && WordValue(b.proof.vkHash) == WordValue(b.vk.hash)
  {
    NamedVersion(b.proof.bbVersion);
    NamedVersion(b.publicInputs.bbVersion);
    NamedVersion(b.vk.bbVersion);
    DigestBytesIff(b.proof.vkHash);
    DigestBytesIff(b.vk.hash);
    hide DigestBytes, WordValue, Trim;
    if DigestBytes(b.proof.vkHash).Some? && DigestBytes(b.vk.hash).Some? {
      DigestsAgree(b.vk.hash, b.proof.vkHash);
    }
  }

  lemma NamedVersion(version: string)
    ensures Trim(version) == "" <==> AllBlank(version)
  {
    var a, b := TrimParts(version);
    if Trim(version) != "" {
      assert version[|a|] == Trim(version)[0];
    }
  }

  /** Every request the provider answers, and with what. */
  lemma GeneratedIff(env: Environment, request: ProofRequest)
    ensures Generated(env, request).Ok? <==>
            && Validate(request).None? && request.backend == "ultrahonk"
            && Supports(request.circuit, request.circuitVersion)
            && env.toolchains.Ok? && env.bytecode(request.circuit).Ok?
            && var run := env.prove(env.bytecode(request.circuit).value, request);
               && run.Ok? && Consistent(run.value)
               && |run.value.publicInputs.words| == |PublicNames(request.operation)|
               && AllReadable(run.value.publicInputs.words)
               && (forall i :: 0 <= i < |run.value.proof.words| ==> WordBytes(run.value.proof.words[i]).Some?)
    ensures Generated(env, request).Ok? ==>
              var r := Generated(env, request).value;
              var b := env.prove(env.bytecode(request.circuit).value, request).value;
              && r.requestId == request.requestId && r.circuit == request.circuit
              && r.circuitVersion == request.circuitVersion && r.backend == "ultrahonk"
              && r.proof.format == "ultrahonk-v1" && Some(r.proof.bytes) == ConcatWords(b.proof.words)
              && Ok(r.publicOutputs) == NamedWords(request.operation, b.publicInputs.words)
              && r.checksum == Checksum(env.sha, env.bytecode(request.circuit).value)
              && r.keyId == IdFor(KeyParts(request.circuit, request.circuitVersion, r.checksum))
              && r.state == request.state
  {
    hide Validate, Supports, Consistent, NamedWords, IdFor, IsKeyId, ConcatWords, PublicNames, AllReadable, WordBytes;
    hide Checksum;
    if Supports(request.circuit, request.circuitVersion) && env.bytecode(request.circuit).Ok? {
      var bytecode := env.bytecode(request.circuit).value;
      SupportedKeyFits(request.circuit, request.circuitVersion, Checksum(env.sha, bytecode));
      if env.prove(bytecode, request).Ok? {
        NamedWordsMeaning(request.operation, env.prove(bytecode, request).value.publicInputs.words);
        ReadableIff(request.operation, env.prove(bytecode, request).value.publicInputs.words);
        ConcatNoneIff(env.prove(bytecode, request).value.proof.words);
      }
    }
  }

  lemma ReadableIff(op: Operation, words: seq<string>)
    ensures NamedWords(op, words).Ok? <==> |words| == |PublicNames(op)| && AllReadable(words)
  {
    hide AllReadable, NamedWords, PublicNames;
    NamedWordsMeaning(op, words);
  }

  /** The errors in the order in which the provider checks. */
  lemma GenerateFault(env: Environment, request: ProofRequest)
    ensures var r := Generated(env, request);
            var valid, addressed := Validate(request).None?, request.backend == "ultrahonk";
            var supported := Supports(request.circuit, request.circuitVersion);
            var bytecode := env.bytecode(request.circuit);
            && (!valid ==> r == Err(InvalidRequest(Validate(request).value)))
            && (valid && !addressed ==> r == Err(ProofGeneration))
            && (valid && addressed && !supported ==> r == Err(UnsupportedByProvider))
            && (valid && addressed && supported ==>
                  && (env.toolchains.Err? ==> r == Err(env.toolchains.error))
                  && (env.toolchains.Ok? && bytecode.Err? ==> r == Err(bytecode.error))
                  && (env.toolchains.Ok? && bytecode.Ok? ==>
                        match env.prove(bytecode.value, request)
                        case Err(error) => r == Err(error)
                        case Ok(bundle) => r.Err? ==> r == Err(ProofGeneration)))
  {
    hide Validate, Supports, Consistent, IdFor, IsKeyId, ConcatWords, NamePairs, PublicNames, Checksum;
    if Supports(request.circuit, request.circuitVersion) && env.bytecode(request.circuit).Ok? {
      SupportedKeyFits(request.circuit, request.circuitVersion,
                       Checksum(env.sha, env.bytecode(request.circuit).value));
    }
  }

  /** A missing or unreadable file is an unavailable artifact; every other load error is one of integrity. */
  lemma BytecodeOutcome(sha: Hasher, pinned: Pinned, circuit: CircuitId)
    ensures match LoadPinned(sha, pinned, circuit)
            case Err(ReadFailure(_)) => Bytecode(sha, pinned, circuit) == Err(ArtifactUnavailable)
            case Err(_) => Bytecode(sha, pinned, circuit) == Err(ArtifactNotIntegral)
            case Ok(loaded) =>
              var file := ArtifactIntegrity.FileIn(loaded.files, circuit + ".json");
              Bytecode(sha, pinned, circuit) == if file.Some? then Ok(file.value) else Err(ArtifactUnavailable)
  {
    hide LoadPinned, ArtifactIntegrity.FileIn;
  }

  /** The store changes at one path only, to the key that was written, and only past naming. */
  lemma StoreAfterGenerate(env: Environment, files: map<KeyStore.Path, VkDocument>, request: ProofRequest)
    ensures ProveAndName(env, request).Err? ==> FilesAfterGenerate(env, files, request) == files
    ensures ProveAndName(env, request).Ok? ==>
              var p := ProveAndName(env, request).value;
              FilesAfterGenerate(env, files, request) == files[PathFor(env.sha, IdFor(p.key)) := p.bundle.vk]
  {
    hide PathFor, IdFor, Validate, Supports, NamedWords, IsKeyId;
    if ProveAndName(env, request).Ok? {
      ConsistentScheme(ProveAndName(env, request).value.bundle);
      hide ProveAndName;
    }
  }
}
