/**
 What an accepted UltraHonk proof binds once its outputs travel on. The backend is handed output
 values in order; their names only serve to find the root words, and nobody compares them with
 the pinned surface.
 */
module UltraHonkBinding {
  import opened Outcomes
  import opened Numerals
  import opened Text
  import opened Hex
  import opened FieldValues
  import opened Bags
  import opened Circuits
  import opened Calldata
  import opened Requests
  import opened KeyIds
  import opened KeyStore
  import opened ProverService
  import opened UltraHonk
  import opened UltraHonkVerifier
  import opened UltraHonkPipeline

  /** The request with other output names, or another state, around the same proof. */
  function Resubmitted(r: VerificationRequest, outputs: Entries, state: Option<StateReference>): VerificationRequest {
    r.(publicOutputs := outputs, state := state)
  }

  lemma SameValuesSameFiles(r: VerificationRequest, outputs: Entries, state: Option<StateReference>, vk: VkDocument)
    requires |r.proof.bytes| % 32 == 0 && EntryValues(outputs) == EntryValues(r.publicOutputs)
    ensures Rebuilt(Resubmitted(r, outputs, state), vk) == Rebuilt(r, vk)
  {
    var a, b := outputs, r.publicOutputs;
    assert |EntryValues(a)| == |a| && |EntryValues(b)| == |b|;
    forall i | 0 <= i < |a| ensures a[i].value == b[i].value {
      assert EntryValues(a)[i] == EntryValues(b)[i];
    }
    assert PaddedWords(a) == PaddedWords(b);
  }

  /**
   An accepted proof is accepted again with the same output values under any names and with any
   state exactly when the root words, as these names pick them, go with that state.
   */
  lemma AcceptedAgainIff(env: Environment, files: KeyFiles, r: VerificationRequest,
                         outputs: Entries, state: Option<StateReference>)
    requires Accepts(env, files, r) && EntryValues(outputs) == EntryValues(r.publicOutputs)
    ensures Accepts(env, files, Resubmitted(r, outputs, state)) <==> BoundToState(outputs, state)
  {
    hide Accepts, Rebuilt, BoundToState, Parse, KeyStore.Lookup;
    AcceptsIff(env, files, r);
    AcceptsIff(env, files, Resubmitted(r, outputs, state));
    SameValuesSameFiles(r, outputs, state, KeyStore.Lookup(env.sha, files, r.keyId).value);
  }

  // ---------- Key ids ----------

  /** The same proof submitted for another circuit, version and artifact, under the id they form. */
  function Redirected(r: VerificationRequest, k: KeyParts): VerificationRequest {
    r.(keyId := IdFor(k), circuit := k.circuit, circuitVersion := k.version, checksum := k.hash)
  }

  /**
   An accepted proof is accepted in another circuit context exactly when the store has a key
   under that context's id and the backend accepts the same files under it.
   */
  lemma AcceptedElsewhereIff(env: Environment, files: KeyFiles, r: VerificationRequest, k: KeyParts)
    requires Accepts(env, files, r)
    ensures |r.proof.bytes| % 32 == 0
    ensures Accepts(env, files, Redirected(r, k)) <==>
            && KeyStore.Lookup(env.sha, files, IdFor(k)).Ok?
            && env.verify(Rebuilt(r, KeyStore.Lookup(env.sha, files, IdFor(k)).value)) == Ok(true)
  {
    hide Accepts, BoundToState, Parse, KeyStore.Lookup, IdFor;
    AcceptsIff(env, files, r);
    AcceptsIff(env, files, Redirected(r, k));
    IdRoundTrip(k);
  }

  /** So two ids that the store gives one key for are no different contexts to a proof. */
  lemma OneKeyTwoContexts(env: Environment, files: KeyFiles, r: VerificationRequest, k: KeyParts)
    requires Accepts(env, files, r)
    requires KeyStore.Lookup(env.sha, files, IdFor(k)) == KeyStore.Lookup(env.sha, files, r.keyId)
    ensures Accepts(env, files, Redirected(r, k))
  {
    hide Accepts, BoundToState, Parse, KeyStore.Lookup, IdFor, Rebuilt;
    AcceptsIff(env, files, r);
    AcceptedElsewhereIff(env, files, r, k);
  }

  /** An id is read, not compared: every spelling of the same parts gets the same verdict. */
  lemma RespelledIdSameVerdict(env: Environment, files: KeyFiles, r: VerificationRequest, id: string)
    requires Parse(id).Some? && Parse(id) == Parse(r.keyId)
    ensures Verify(env, files, r.(keyId := id)) == Verify(env, files, r)
  {
    hide Parse, StateFault, KeyStore.Lookup, Rebuilt;
    var r' := r.(keyId := id);
    SamePartsSameKey(env.sha, files, id, r.keyId);
    RespelledFiles(r, id);
    assert KeyFault(r') == KeyFault(r);
    hide KeyFault;
  }

  lemma SamePartsSameKey(sha: Hasher, files: KeyFiles, a: string, b: string)
    requires Parse(a).Some? && Parse(a) == Parse(b)
    ensures KeyStore.Lookup(sha, files, a) == KeyStore.Lookup(sha, files, b)
  {
    hide Parse, PathFor;
    SharedPaths(sha, a, b);
  }

  lemma RespelledFiles(r: VerificationRequest, id: string)
    ensures StateFault(r.(keyId := id)) == StateFault(r)
    ensures |r.proof.bytes| % 32 == 0 ==> forall vk :: Rebuilt(r.(keyId := id), vk) == Rebuilt(r, vk)
  {
  }

  // ---------- When the state cannot be exchanged ----------

  /** Both names are there, and no root but this one has the two values as its halves. */
  predicate NamesOnlyRoot(outputs: Entries, root: Digest256) {
    var hi, lo := Find(outputs, "root_hi"), Find(outputs, "root_lo");
    && hi.Some? && lo.Some?
    && (Value(hi.value) < TWO_128 && Value(lo.value) < TWO_128 ==>
          Value(hi.value) * TWO_128 + Value(lo.value) == HexValue(root))
  }

  /** Every number below 2^256 is a root. */
  lemma RootWithValue(n: nat) returns (root: Digest256)
    requires n < Pow(16, 64)
    ensures HexValue(root) == n
  {
    var v := OfNat(n);
    PaddedIsHex(v);
    root := PadZeros(v, 64);
  }

  lemma TwoHalves(hi: nat, lo: nat)
    requires hi < TWO_128 && lo < TWO_128
    ensures hi * TWO_128 + lo < Pow(16, 64)
  {
    SixteenTo32();
    PowAdd(16, 32, 32);
    MulMonotone(hi + 1, TWO_128, TWO_128);
  }

  /**
   The documented promise, that an accepted proof goes with no state but the one of its root,
   holds for resubmitted outputs exactly when their names still single out that root.
   */
  lemma StateFixedIff(env: Environment, files: KeyFiles, r: VerificationRequest, outputs: Entries, root: Digest256)
    requires Accepts(env, files, r) && EntryValues(outputs) == EntryValues(r.publicOutputs)
    ensures (forall state :: Accepts(env, files, Resubmitted(r, outputs, state)) ==>
               state.Some? && state.value.root == root)
       <==> NamesOnlyRoot(outputs, root)
  {
    hide Accepts, Find;
    forall state: Option<StateReference>
      ensures Accepts(env, files, Resubmitted(r, outputs, state)) <==> BoundToState(outputs, state)
    {
      AcceptedAgainIff(env, files, r, outputs, state);
    }
    if NamesOnlyRoot(outputs, root) {
      forall state: Option<StateReference> | BoundToState(outputs, state)
        ensures state.Some? && state.value.root == root
      {
        HexSameWidthUnique(state.value.root, root);
      }
    } else {
      var state := OtherState(outputs, root);
      assert BoundToState(outputs, state);
      assert Accepts(env, files, Resubmitted(r, outputs, state));
    }
  }

  lemma OtherState(outputs: Entries, root: Digest256) returns (state: Option<StateReference>)
    requires !NamesOnlyRoot(outputs, root)
    ensures BoundToState(outputs, state)
    ensures state.Some? ==> state.value.root != root
  {
    var hi, lo := Find(outputs, "root_hi"), Find(outputs, "root_lo");
    state := None;
    if hi.Some? && lo.Some? {
      TwoHalves(Value(hi.value), Value(lo.value));
      var other := RootWithValue(Value(hi.value) * TWO_128 + Value(lo.value));
      state := Some(StateReference(other, 0, None));
    }
  }

  /** So with its outputs untouched, a state-bound proof goes with its own root and no other. */
  lemma UntouchedOutputsFixState(env: Environment, files: KeyFiles, r: VerificationRequest,
                                 state: Option<StateReference>)
    requires Accepts(env, files, r)
    requires Find(r.publicOutputs, "root_hi").Some? && Find(r.publicOutputs, "root_lo").Some?
    ensures r.state.Some?
    ensures Accepts(env, files, Resubmitted(r, r.publicOutputs, state)) <==>
            state.Some? && state.value.root == r.state.value.root
  {
    hide Accepts, Find, Rebuilt, Parse, KeyStore.Lookup;
    AcceptsIff(env, files, r);
    AcceptedAgainIff(env, files, r, r.publicOutputs, state);
    if state.Some? && HexValue(state.value.root) == HexValue(r.state.value.root) {
      HexSameWidthUnique(state.value.root, r.state.value.root);
    }
  }

  /** Of the state only the root counts: sequence number and label are never looked at. */
  lemma OnlyRootCounts(env: Environment, files: KeyFiles, r: VerificationRequest, a: StateReference, b: StateReference)
    requires a.root == b.root
    ensures Verify(env, files, r.(state := Some(a))) == Verify(env, files, r.(state := Some(b)))
  {
    var x, y := r.(state := Some(a)), r.(state := Some(b));
    hide Parse, StateFault, KeyStore.Lookup, Rebuilt;
    SameRootSameFiles(r, a, b);
    assert KeyFault(x) == KeyFault(y);
    hide KeyFault;
  }

  lemma SameRootSameFiles(r: VerificationRequest, a: StateReference, b: StateReference)
    requires a.root == b.root
    ensures StateFault(r.(state := Some(a))) == StateFault(r.(state := Some(b)))
    ensures |r.proof.bytes| % 32 == 0 ==>
              forall vk :: Rebuilt(r.(state := Some(a)), vk) == Rebuilt(r.(state := Some(b)), vk)
  {
  }

  // ---------- Names that the verifier does not miss ----------

  /** The outputs with one name replaced. */
  function Renamed(es: Entries, i: nat, name: string): Entries
    requires i < |es|
  {
    es[i := Entry(name, es[i].value)]
  }

  function Swapped(es: Entries, i: nat, j: nat): Entries
    requires i < |es| && j < |es|
  {
    es[i := Entry(es[j].name, es[i].value)][j := Entry(es[i].name, es[j].value)]
  }

  lemma RenamedIsBag(es: Entries, i: nat, name: string)
    requires i < |es| && ValidEntries(es) && ValidName(name) && !HasName(es, name)
    ensures ValidEntries(Renamed(es, i, name)) && EntryValues(Renamed(es, i, name)) == EntryValues(es)
    ensures Find(Renamed(es, i, name), es[i].name).None?
  {
    hide ValidName;
    forall k | 0 <= k < |es| && k != i ensures es[k].name != name && es[k].name != es[i].name {
      assert !(es[k].name == name);
      assert if k < i then es[k].name != es[i].name else es[i].name != es[k].name;
    }
    var renamed := Renamed(es, i, name);
    assert es[i].name != name;
    assert forall k :: 0 <= k < |renamed| ==> renamed[k].name != es[i].name;
  }

  /** With a root name replaced by a free one, every state is accepted, and none as well. */
  lemma RenamedRootFitsAnyState(env: Environment, files: KeyFiles, r: VerificationRequest, i: nat, name: string,
                                state: Option<StateReference>)
    requires Accepts(env, files, r) && ValidEntries(r.publicOutputs)
    requires i < |r.publicOutputs| && r.publicOutputs[i].name in ["root_hi", "root_lo"]
    requires ValidName(name) && !HasName(r.publicOutputs, name)
    ensures ValidEntries(Renamed(r.publicOutputs, i, name))
    ensures Accepts(env, files, Resubmitted(r, Renamed(r.publicOutputs, i, name), state))
  {
    hide Accepts, ValidName, Find, ValidEntries, Renamed;
    RenamedIsBag(r.publicOutputs, i, name);
    AcceptedAgainIff(env, files, r, Renamed(r.publicOutputs, i, name), state);
  }

  lemma SwappedIsBag(es: Entries, i: nat, j: nat)
    requires i < j < |es| && ValidEntries(es)
    ensures ValidEntries(Swapped(es, i, j)) && EntryValues(Swapped(es, i, j)) == EntryValues(es)
    ensures forall name :: name != es[i].name && name != es[j].name ==>
              Find(Swapped(es, i, j), name) == Find(es, name)
  {
    hide ValidName;
    var s := Swapped(es, i, j);
    assert forall k :: 0 <= k < |es| ==> s[k].value == es[k].value;
    assert forall k :: 0 <= k < |es| && k != i && k != j ==> s[k] == es[k];
    assert s[i].name == es[j].name && s[j].name == es[i].name;
    forall name | name != es[i].name && name != es[j].name ensures Find(s, name) == Find(es, name) {
      var p, q := Position(s, name), Position(es, name);
      assert p < |es| ==> p != i && p != j;
      assert q < |es| ==> q != i && q != j;
    }
  }

  /** Two outputs can change names, the root words excepted, and the proof is accepted as before. */
  lemma SwappedNamesAccepted(env: Environment, files: KeyFiles, r: VerificationRequest, i: nat, j: nat)
    requires Accepts(env, files, r) && ValidEntries(r.publicOutputs) && i < j < |r.publicOutputs|
    requires r.publicOutputs[i].name !in ["root_hi", "root_lo"] && r.publicOutputs[j].name !in ["root_hi", "root_lo"]
    ensures ValidEntries(Swapped(r.publicOutputs, i, j))
    ensures Accepts(env, files, Resubmitted(r, Swapped(r.publicOutputs, i, j), r.state))
  {
    hide Accepts, Find, ValidEntries, Swapped, Rebuilt, Parse, KeyStore.Lookup;
    SwappedIsBag(r.publicOutputs, i, j);
    AcceptsIff(env, files, r);
    AcceptedAgainIff(env, files, r, Swapped(r.publicOutputs, i, j), r.state);
  }

  // ---------- From a request ----------

  lemma FreeName(op: Operation)
    ensures ValidName("x") && "x" !in PublicNames(op)
  {
    PlainName("x");
    assert forall i :: 0 <= i < |PublicNames(op)| ==> |PublicNames(op)[i]| > 1;
  }

  /**
   It happens to every state-bound request: renaming `root_hi` in its non-empty response gives
   a well-built request that is accepted with every state reference and with none.
   */
  lemma GeneratedProofFitsAnyState(env: Environment, files: KeyFiles, later: KeyFiles, request: ProofRequest,
                                   state: Option<StateReference>)
    requires ReadsNumbers(env) && AcceptsOwnProofs(env) && EchoesRoot(env)
    requires StateBound(request.operation) && Preflight(request).None?
    requires Generated(env, request).Ok? && KeepsKey(env, files, later, request)
    requires Generated(env, request).value.proof.bytes != []
    ensures var r := FromResponse(Generated(env, request).value);
            var i := RootPosition(request.operation);
            && i < |r.publicOutputs| && r.publicOutputs[i].name == "root_hi"
            && var outputs := Renamed(r.publicOutputs, i, "x");
               ValidEntries(outputs) && Accepts(env, later, Resubmitted(r, outputs, state))
  {
    hide ReadsNumbers, AcceptsOwnProofs, EchoesRoot, Preflight, KeepsKey, Generated, PublicNames, RootPosition;
    hide ValidName, ValidEntries, HasName, Renamed;
    var r, i := FromResponse(Generated(env, request).value), RootPosition(request.operation);
    GeneratedProofAccepted(env, files, later, request);
    ResponseNames(env, request);
    RootPositionNames(request.operation);
    assert Names(r.publicOutputs)[i] == "root_hi";
    FreeName(request.operation);
    NoSuchName(r.publicOutputs, "x");
    RenamedRootFitsAnyState(env, later, r, i, "x", state);
  }

  lemma NoSuchName(es: Entries, name: string)
    requires name !in Names(es)
    ensures !HasName(es, name)
  {
    forall i | 0 <= i < |es| ensures es[i].name != name {
      assert Names(es)[i] == es[i].name;
    }
  }
}
