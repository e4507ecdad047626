/**
 A toolchain that meets every premise made about one elsewhere, so that those premises do not
 contradict each other. It solves a witness only when every input of the proved circuit is there,
 its public words echo the public inputs under that circuit's names, its proof repeats them, and
 it accepts exactly the bundles whose two lists agree.
 */
module IdealToolchain {
  import opened Outcomes
  import opened Text
  import opened Hex
  import opened FieldValues
  import opened Bags
  import opened Circuits
  import opened Words
  import opened Requests
  import opened KeyIds
  import opened KeyStore
  import opened ProverService
  import opened UltraHonk
  import opened UltraHonkVerifier
  import opened UltraHonkPipeline
  import opened UltraHonkHistory

  /** The operation a circuit belongs to. */
  function OwnOperation(circuit: CircuitId): Option<Operation> {
    if circuit == "register" then Some(Register)
    else if circuit == "deposit" then Some(Deposit)
    else if circuit == "merge" then Some(Merge)
    else if circuit == "transfer" then Some(Transfer)
    else if circuit == "withdraw" then Some(Withdraw)
    else None
  }

  lemma OwnOperationOf(op: Operation)
    ensures OwnOperation(OperationName(op)) == Some(op)
  {
    var s := OperationName(op);
    assert |"register"| == 8 && |"deposit"| == 7 && |"merge"| == 5 && |"transfer"| == 8 && "withdraw"[0] == 'w';
    assert "register"[0] == 'r' && "transfer"[0] == 't';
  }

  /** The public inputs under the pinned names, and zero where there is none. */
  function EchoWords(op: Operation, es: Entries): (words: seq<string>)
    ensures |words| == |PublicNames(op)|
    ensures forall i :: 0 <= i < |words| ==> words[i] == PaddedWord(Find(es, PublicNames(op)[i]).GetOr("0"))
  {
    seq(|PublicNames(op)|, i requires 0 <= i < |PublicNames(op)| =>
      PaddedWord(Find(es, PublicNames(op)[i]).GetOr("0")))
  }

  function CircuitWords(circuit: CircuitId, es: Entries): seq<string> {
    match OwnOperation(circuit)
    case None => []
    case Some(own) => EchoWords(own, es)
  }

  function IdealBundle(proofWords: seq<string>, publicWords: seq<string>): Bundle {
    var digest := Zeros(64);
    Bundle(ProofDocument(proofWords, digest, TESTED_BB_VERSION, SCHEME_ULTRA_HONK),
           PublicInputsDocument(publicWords, TESTED_BB_VERSION, SCHEME_ULTRA_HONK),
           VkDocument([], digest, TESTED_BB_VERSION, SCHEME_ULTRA_HONK))
  }

  function IdealProve(request: ProofRequest): Bundle {
    var words := CircuitWords(request.circuit, request.publicInputs);
    IdealBundle(words, words)
  }

  /** Every private and public input of the proved circuit is there. */
  predicate HasOwnInputs(request: ProofRequest) {
    match OwnOperation(request.circuit)
    case None => false
    case Some(own) =>
      && MissingNames(PrivateNames(own), request.secrets) == []
      && MissingNames(PublicParams(own), request.publicInputs) == []
  }

  function Ideal(sha: Hasher): Environment {
    Environment(sha, Ok(()), (circuit: CircuitId) => Ok([]),
                (bytecode: seq<byte>, request: ProofRequest) =>
                  if HasOwnInputs(request) then Ok(IdealProve(request)) else Err(ProofGeneration),
                (bundle: Bundle) => Ok(SameWords(bundle.proof.words, bundle.publicInputs.words)))
  }

  // ---------- Its words ----------

  lemma PaddedWordNamed(v: FieldValue)
    ensures FieldFromWord(PaddedWord(v)).Ok? && WordBytes(PaddedWord(v)).Some?
    ensures SameWord(PaddedWord(v), PaddedWord(v))
  {
    PaddedWordReads(v);
    WordFormatsAgree(PaddedWord(v));
  }

  /** Both sides can read every word. */
  predicate Clean(words: seq<string>) {
    SameWords(words, words) && AllReadable(words) && ConcatWords(words).Some?
  }

  lemma EchoWordsClean(op: Operation, es: Entries)
    ensures Clean(EchoWords(op, es))
  {
    hide PublicNames, FieldFromWord, PaddedWord, WordBytes, SameWord;
    var words := EchoWords(op, es);
    forall i | 0 <= i < |words|
      ensures FieldFromWord(words[i]).Ok? && WordBytes(words[i]).Some? && SameWord(words[i], words[i])
    {
      PaddedWordNamed(Find(es, PublicNames(op)[i]).GetOr("0"));
    }
    ConcatNoneIff(words);
  }

  lemma CircuitWordsClean(circuit: CircuitId, es: Entries)
    ensures Clean(CircuitWords(circuit, es))
  {
    if OwnOperation(circuit).Some? {
      EchoWordsClean(OwnOperation(circuit).value, es);
    }
  }

  lemma CircuitWordsEcho(circuit: CircuitId, op: Operation, es: Entries)
    ensures EchoesRootOf(CircuitWords(circuit, es), op, es)
  {
    hide PublicNames, PaddedWord, Find, SameWord, OwnOperation;
    var hi, lo, own := Find(es, "root_hi"), Find(es, "root_lo"), OwnOperation(circuit);
    RootSomewhere(op);
    if StateBound(op) && hi.Some? && lo.Some? && own.Some? && |PublicNames(own.value)| == |PublicNames(op)| {
      CountsAgree(op, own.value);
      RootPositionNames(own.value);
      PaddedWordNamed(hi.value);
      PaddedWordNamed(lo.value);
    }
  }

  lemma RootSomewhere(op: Operation)
    ensures |PublicNames(op)| > 0
    ensures StateBound(op) ==> RootPosition(op) + 1 < |PublicNames(op)|
  {
  }

  lemma ZeroDigest()
    ensures DigestBytes(Zeros(64)).Some?
  {
    var digest := Zeros(64);
    NoHexPrefix(digest);
    HexIsAscii(digest);
  }

  lemma VersionIsNamed()
    ensures Trim(TESTED_BB_VERSION) != ""
  {
    var version := TESTED_BB_VERSION;
    assert !IsWhitespace(version[0]) && !IsWhitespace(version[|version| - 1]);
    TrimFixed(version);
  }

  lemma IdealConsistent(proofWords: seq<string>, publicWords: seq<string>)
    ensures Consistent(IdealBundle(proofWords, publicWords))
  {
    hide DigestBytes, Trim;
    ZeroDigest();
    VersionIsNamed();
  }

  // ---------- The premises ----------

  lemma SameWordsAgree(a: seq<string>, a': seq<string>, b: seq<string>, b': seq<string>)
    requires SameWords(a, b) && SameWords(a', b')
    ensures SameWords(a, a') <==> SameWords(b, b')
  {
    hide WordValue;
    if SameWords(b, b') {
      assert forall i :: 0 <= i < |a| ==> SameWord(a[i], b[i]) && SameWord(a'[i], b'[i]) && SameWord(b[i], b'[i]);
    }
    if SameWords(a, a') {
      assert forall i :: 0 <= i < |b| ==> SameWord(a[i], b[i]) && SameWord(a'[i], b'[i]) && SameWord(a[i], a'[i]);
    }
  }

  /** The ideal toolchain meets every premise, and yet refuses some bundles. */
  lemma IdealMeetsPremises(sha: Hasher)
    ensures ReadsNumbers(Ideal(sha)) && AcceptsOwnProofs(Ideal(sha)) && EchoesRoot(Ideal(sha))
    ensures ReportsOwnSurface(Ideal(sha)) && KeyFromBytecode(Ideal(sha))
  {
    IdealReadsNumbers(sha);
    IdealEchoes(sha);
    hide ReadsNumbers, EchoesRoot, CircuitWords;
    forall request: ProofRequest
      ensures SameWords(IdealProve(request).proof.words, IdealProve(request).publicInputs.words)
    {
      CircuitWordsClean(request.circuit, request.publicInputs);
    }
  }

  lemma IdealReadsNumbers(sha: Hasher)
    ensures ReadsNumbers(Ideal(sha))
  {
    hide SameWords;
    forall a, b | SameBundle(a, b) ensures Ideal(sha).verify(a) == Ideal(sha).verify(b) {
      SameWordsAgree(a.proof.words, a.publicInputs.words, b.proof.words, b.publicInputs.words);
    }
  }

  lemma IdealEchoes(sha: Hasher)
    ensures EchoesRoot(Ideal(sha)) && ReportsOwnSurface(Ideal(sha))
  {
    hide EchoesRootOf, OwnOperation, PublicNames;
    forall request: ProofRequest
      ensures EchoesRootOf(IdealProve(request).publicInputs.words, request.operation, request.publicInputs)
    {
      CircuitWordsEcho(request.circuit, request.operation, request.publicInputs);
    }
    forall request: ProofRequest, own: Operation | request.circuit == OperationName(own)
      ensures |IdealProve(request).publicInputs.words| == |PublicNames(own)|
    {
      OwnOperationOf(own);
    }
  }

  // ---------- Its proofs ----------

  /**
   With the ideal toolchain a request on a known circuit gets a non-empty proof exactly when it
   is valid, addressed to this backend in the supported version, carries the circuit's own inputs
   and asks for the circuit's own operation or for the one that pins equally many names.
   */
  lemma IdealProvesIff(sha: Hasher, request: ProofRequest, own: Operation)
    requires request.circuit == OperationName(own)
    ensures Generated(Ideal(sha), request).Ok? <==>
            && Validate(request).None? && request.backend == ULTRAHONK_BACKEND
            && request.circuitVersion == COMPATIBLE && HasOwnInputs(request)
            && SameCount(request.operation, own)
    ensures Generated(Ideal(sha), request).Ok? ==> Generated(Ideal(sha), request).value.proof.bytes != []
  {
    hide Validate, Consistent, NamedWords, ConcatWords, IdFor, IsKeyId, EchoWords, OwnOperation, PublicNames;
    hide HasOwnInputs;
    var words := EchoWords(own, request.publicInputs);
    OwnOperationOf(own);
    KnownIsSupported(request.circuit, request.circuitVersion, own);
    if Supports(request.circuit, request.circuitVersion) {
      SupportedKeyFits(request.circuit, request.circuitVersion, Checksum(sha, []));
    }
    hide Supports;
    IdealConsistent(words, words);
    EchoWordsClean(own, request.publicInputs);
    NamedWordsMeaning(request.operation, words);
    CountsAgree(request.operation, own);
    RootSomewhere(own);
    ProofWordsSurvive(words);
  }

  lemma KnownIsSupported(circuit: CircuitId, version: Version, own: Operation)
    requires circuit == OperationName(own)
    ensures Supports(circuit, version) <==> version == COMPATIBLE
  {
    assert OPERATIONS[0] == Register && OPERATIONS[1] == Deposit && OPERATIONS[2] == Merge;
    assert OPERATIONS[3] == Transfer && OPERATIONS[4] == Withdraw;
  }

  /** Its verifier does reject: a response whose output values were changed is not accepted. */
  lemma IdealRefusesChangedOutputs(sha: Hasher, files: KeyFiles, request: ProofRequest, outputs: Entries)
    ensures Generated(Ideal(sha), request).Ok? ==>
              var r := Generated(Ideal(sha), request).value;
              Accepts(Ideal(sha), files, FromResponse(r).(publicOutputs := outputs)) ==>
                EntryValues(outputs) == EntryValues(r.publicOutputs)
  {
    hide Generated, Accepts;
    if Generated(Ideal(sha), request).Ok?
       && Accepts(Ideal(sha), files, FromResponse(Generated(Ideal(sha), request).value).(publicOutputs := outputs)) {
      IdealAcceptsOwnOutputs(sha, files, request, outputs);
    }
  }

  lemma IdealAcceptsOwnOutputs(sha: Hasher, files: KeyFiles, request: ProofRequest, outputs: Entries)
    requires Generated(Ideal(sha), request).Ok?
    requires Accepts(Ideal(sha), files, FromResponse(Generated(Ideal(sha), request).value).(publicOutputs := outputs))
    ensures EntryValues(outputs) == EntryValues(Generated(Ideal(sha), request).value.publicOutputs)
  {
    hide Validate, Supports, Consistent, NamedWords, IdFor, IsKeyId, Parse, ConcatWords, CircuitWords, SameWords;
    var env := Ideal(sha);
    var p, r := ProveAndName(env, request).value, FromResponse(Generated(env, request).value);
    var changed := r.(publicOutputs := outputs);
    var words := p.bundle.proof.words;
    AcceptsIff(env, files, changed);
    ProofWordsSurvive(words);
    NamedWordsMeaning(request.operation, words);
    assert |r.proof.bytes| / 32 == |words|;
    SamePadded(Resplit(r.proof.bytes, |words|), words, outputs, p.outputs);
  }

  lemma SamePadded(split: seq<string>, words: seq<string>, a: Entries, b: Entries)
    requires SameWords(split, words) && SameWords(split, PaddedWords(a)) && SameWords(PaddedWords(b), words)
    ensures EntryValues(a) == EntryValues(b)
  {
    hide PaddedWord, WordValue;
    forall i | 0 <= i < |a| ensures a[i].value == b[i].value {
      assert SameWord(split[i], words[i]) && SameWord(split[i], PaddedWords(a)[i]);
      assert SameWord(PaddedWords(b)[i], words[i]);
      PaddedWordReads(a[i].value);
      PaddedWordReads(b[i].value);
      ValueInjective(a[i].value, b[i].value);
    }
  }

  // ---------- A request of every operation ----------

  function Uniform(names: seq<string>, value: FieldValue): (es: Entries)
    ensures |es| == |names|
    ensures forall i :: 0 <= i < |es| ==> es[i] == Entry(names[i], value)
  {
    seq(|names|, i requires 0 <= i < |names| => Entry(names[i], value))
  }

  /** The names of `b` that `a` lacks. */
  function Lacking(a: seq<string>, b: seq<string>): seq<string> {
    if b == [] then []
    else (if b[0] in a then [] else [b[0]]) + Lacking(a, b[1..])
  }

  function Union(a: seq<string>, b: seq<string>): seq<string> {
    a + Lacking(a, b)
  }

  predicate Different(names: seq<string>) {
    forall i, j :: 0 <= i < j < |names| ==> names[i] != names[j]
  }

  lemma {:induction false} LackingNames(a: seq<string>, b: seq<string>)
    ensures forall name :: name in Lacking(a, b) <==> name in b && name !in a
    ensures Different(b) ==> Different(Lacking(a, b))
  {
    if b != [] {
      LackingNames(a, b[1..]);
      var rest := Lacking(a, b[1..]);
      assert b == [b[0]] + b[1..];
      assert forall i :: 0 <= i < |b[1..]| ==> b[1..][i] == b[i + 1];
      if Different(b) {
        assert b[0] !in b[1..];
        assert forall i :: 0 <= i < |rest| ==> rest[i] in rest;
      }
    }
  }

  lemma UnionNames(a: seq<string>, b: seq<string>)
    requires Different(a) && Different(b)
    ensures Different(Union(a, b))
    ensures forall name :: name in Union(a, b) <==> name in a || name in b
  {
    LackingNames(a, b);
    var more := Lacking(a, b);
    assert forall i :: 0 <= i < |more| ==> more[i] in more;
  }

  /**
   A request for `op` on the circuit of `own` with the inputs of both: every private value one,
   every public value and the root zero.
   */
  function PlainRequest(op: Operation, own: Operation): ProofRequest {
    ProofRequest("r", op, OperationName(own), COMPATIBLE, COMPATIBLE, ULTRAHONK_BACKEND,
                 Uniform(Union(PrivateNames(op), PrivateNames(own)), "1"),
                 Uniform(Union(PublicParams(op), PublicParams(own)), "0"),
                 Some(StateReference(Zeros(64), 0, None)))
  }

  lemma PrivateNamesUsable(op: Operation)
    ensures forall i :: 0 <= i < |PrivateNames(op)| ==> ValidName(PrivateNames(op)[i])
    ensures forall i, j :: 0 <= i < j < |PrivateNames(op)| ==> PrivateNames(op)[i] != PrivateNames(op)[j]
  {
    PrivateNamesDiffer(op);
    hide ValidName;
    PlainName("account_sk");
    PlainName("old_amount");
    PlainName("old_blinding");
    PlainName("amount");
    PlainName("blinding");
    PlainName("amount_a");
    PlainName("blinding_a");
    PlainName("amount_b");
    PlainName("blinding_b");
    PlainName("sender_sk");
    PlainName("recipient_blinding");
    PlainName("change_blinding");
  }

  lemma PrivateNamesDiffer(op: Operation)
    ensures forall i, j :: 0 <= i < j < |PrivateNames(op)| ==> PrivateNames(op)[i] != PrivateNames(op)[j]
  {
  }

  predicate AllValid(names: seq<string>) {
    forall i :: 0 <= i < |names| ==> ValidName(names[i])
  }

  lemma UniformValid(a: seq<string>, b: seq<string>, value: FieldValue)
    requires AllValid(a) && AllValid(b) && Different(a) && Different(b)
    ensures ValidEntries(Uniform(Union(a, b), value))
  {
    hide ValidName, Union;
    UnionNames(a, b);
    var names := Union(a, b);
    forall i | 0 <= i < |names| ensures ValidName(names[i]) {
      assert names[i] in names;
    }
  }

  lemma ParamsUsable(op: Operation)
    ensures AllValid(PublicParams(op)) && Different(PublicParams(op))
  {
    hide PublicParams, Returns, ValidName;
    PublicNamesUsable(op);
    assert forall i :: 0 <= i < |PublicParams(op)| ==> PublicNames(op)[i] == PublicParams(op)[i];
  }

  lemma PlainIsWellBuilt(op: Operation, own: Operation)
    ensures WellBuilt(PlainRequest(op, own))
  {
    hide PrivateNames, PublicParams, Uniform, ValidEntries, ValidName;
    PrivateNamesUsable(op);
    PrivateNamesUsable(own);
    ParamsUsable(op);
    ParamsUsable(own);
    UniformValid(PrivateNames(op), PrivateNames(own), "1");
    UniformValid(PublicParams(op), PublicParams(own), "0");
  }

  lemma UniformFind(names: seq<string>, value: FieldValue, name: string)
    ensures Find(Uniform(names, value), name) == if name in names then Some(value) else None
  {
    var i := Position(Uniform(names, value), name);
    if name in names {
      var k :| 0 <= k < |names| && names[k] == name;
      assert Uniform(names, value)[k].name == name;
    }
  }

  /** Nothing of either side is missing. */
  lemma PlainHasAll(op: Operation, own: Operation, which: Operation)
    requires which in [op, own]
    ensures var request := PlainRequest(op, own);
            && (forall i :: 0 <= i < |PrivateNames(which)| ==>
                  Find(request.secrets, PrivateNames(which)[i]) == Some("1"))
            && (forall i :: 0 <= i < |PublicParams(which)| ==>
                  Find(request.publicInputs, PublicParams(which)[i]) == Some("0"))
  {
    hide PrivateNames, PublicParams, Find, Union, Uniform, ValidName;
    PrivateNamesUsable(op);
    PrivateNamesUsable(own);
    ParamsUsable(op);
    ParamsUsable(own);
    UnionNames(PrivateNames(op), PrivateNames(own));
    UnionNames(PublicParams(op), PublicParams(own));
    forall i | 0 <= i < |PrivateNames(which)|
      ensures Find(PlainRequest(op, own).secrets, PrivateNames(which)[i]) == Some("1")
    {
      UniformFind(Union(PrivateNames(op), PrivateNames(own)), "1", PrivateNames(which)[i]);
    }
    forall i | 0 <= i < |PublicParams(which)|
      ensures Find(PlainRequest(op, own).publicInputs, PublicParams(which)[i]) == Some("0")
    {
      UniformFind(Union(PublicParams(op), PublicParams(own)), "0", PublicParams(which)[i]);
    }
  }

  lemma PlainPassesPreflight(op: Operation, own: Operation)
    requires StateBound(op)
    ensures Preflight(PlainRequest(op, own)).None?
  {
    hide Preflight, PrivateNames, PublicParams, Find, HexValue, Union, Uniform;
    var request := PlainRequest(op, own);
    PlainHasAll(op, own, op);
    PreflightBindsState(request);
    RootNamesIffStateBound(op);
    ZeroValues();
  }

  lemma PlainHasOwnInputs(op: Operation, own: Operation)
    ensures HasOwnInputs(PlainRequest(op, own))
  {
    hide PrivateNames, PublicParams, Find, Union, Uniform, OwnOperation;
    var request := PlainRequest(op, own);
    OwnOperationOf(own);
    PlainHasAll(op, own, own);
    NoneMissing(PrivateNames(own), request.secrets);
    NoneMissing(PublicParams(own), request.publicInputs);
  }

  lemma ZeroValues()
    ensures HexValue("0") == 0 && HexValue(Zeros(64)) == 0
  {
    LeadingZerosValue(64, "");
    assert Zeros(64) + "" == Zeros(64);
    ZeroDigit();
  }

  /**
   The mix-up happens: a merge request on the transfer circuit, and a transfer request on the
   merge circuit, carry every input that either side needs, pass preflight, and come back named
   by the surface of the wrong circuit.
   */
  lemma MixUpGoesThrough(sha: Hasher, op: Operation, own: Operation) returns (request: ProofRequest)
    requires (op.Merge? && own.Transfer?) || (op.Transfer? && own.Merge?)
    ensures request.operation == op && request.circuit == OperationName(own)
    ensures WellBuilt(request) && Preflight(request).None? && HasOwnInputs(request)
    ensures Generated(Ideal(sha), request).Ok?
    ensures Names(Generated(Ideal(sha), request).value.publicOutputs) == PublicNames(op) != PublicNames(own)
  {
    request := PlainRequest(op, own);
    PlainIsWellBuilt(op, own);
    PlainPassesPreflight(op, own);
    PlainHasOwnInputs(op, own);
    hide WellBuilt, PublicNames, Ideal, Generated, Validate, HasOwnInputs;
    IdealProvesIff(sha, request, own);
    PublicNamesInjective(op, own);
    ResponseNames(Ideal(sha), request);
  }

  // ---------- A failed request that leaves a key ----------

  /** As `Ideal`, but the last proof word is not hex. */
  function BadProofs(sha: Hasher): Environment {
    Ideal(sha).(prove := (bytecode: seq<byte>, request: ProofRequest) =>
      Ok(IdealBundle(["zz"], CircuitWords(request.circuit, request.publicInputs))))
  }

  /** Every valid request for its own circuit fails on the bad word and leaves a key behind. */
  lemma FailedRequestLeavesKey(sha: Hasher, request: ProofRequest, own: Operation)
    requires request.circuit == OperationName(own) && request.operation == own
    requires Validate(request).None? && request.backend == ULTRAHONK_BACKEND
    requires request.circuitVersion == COMPATIBLE
    ensures Generated(BadProofs(sha), request).Err?
    ensures FilesAfterGenerate(BadProofs(sha), map[], request) != map[]
  {
    hide Validate, Consistent, NamedWords, ConcatWords, IdFor, IsKeyId, EchoWords, OwnOperation, PublicNames;
    hide PathFor, WordBytes;
    var env, words := BadProofs(sha), EchoWords(own, request.publicInputs);
    OwnOperationOf(own);
    KnownIsSupported(request.circuit, request.circuitVersion, own);
    SupportedKeyFits(request.circuit, request.circuitVersion, Checksum(sha, []));
    hide Supports;
    IdealConsistent(["zz"], words);
    EchoWordsClean(own, request.publicInputs);
    NamedWordsMeaning(own, words);
    assert ProveAndName(env, request).Ok?;
    BadWord();
    assert WordBytes(ProveAndName(env, request).value.bundle.proof.words[0]).None?;
    FailsOnProofWord(env, request);
    FailureLeavesKeyIff(env, map[], request);
  }

  lemma BadWord()
    ensures WordBytes("zz").None?
  {
    assert !IsHexDigit("zz"[0]);
  }
}
