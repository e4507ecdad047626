/**
 The proving service: a registry of providers, the preflight every request passes before
 dispatch, the local verification round trip, and the comparison of expected outputs.
 */
module ProverService {
  import opened Outcomes
  import opened Numerals
  import opened Text
  import opened Hex
  import opened FieldValues
  import opened Bags
  import opened Circuits
  import opened Requests

  datatype Provider = Provider(
    backend: string,
    supports: (CircuitId, Version) -> bool,
    generate: ProofRequest -> Result<ProofResponse, ProviderError>)

  datatype LocalVerifier = LocalVerifier(
    backend: string,
    verify: VerificationRequest -> Result<VerificationOutcome, VerifierError>)

  datatype CoreError =
    | UnknownBackend(backend: string)
    | UnsupportedCircuit(backend: string, circuit: CircuitId, version: Version)
    | InvalidStructure(reason: RequestError)
    | MissingPrivateNames(names: seq<string>)
    | MissingPublicNames(names: seq<string>)
    | Generation(error: ProviderError)
    | NotVerified(failure: Option<VerificationFailure>)
    | NoVerifier
    | InternalCoreError

  // ---------- The registry ----------

  /** `Vec::retain` of the other backends. */
  function Without(ps: seq<Provider>, backend: string): seq<Provider> {
    if ps == [] then []
    else (if ps[0].backend == backend then [] else [ps[0]]) + Without(ps[1..], backend)
  }

  function FindProvider(ps: seq<Provider>, backend: string): Option<Provider> {
    if ps == [] then None
    else if ps[0].backend == backend then Some(ps[0])
    else FindProvider(ps[1..], backend)
  }

  function Dispatch(ps: seq<Provider>, request: ProofRequest): Result<ProofResponse, CoreError> {
    match FindProvider(ps, request.backend)
    case None => Err(UnknownBackend(request.backend))
    case Some(provider) =>
      if !provider.supports(request.circuit, request.circuitVersion) then
        Err(UnsupportedCircuit(request.backend, request.circuit, request.circuitVersion))
      else
        match provider.generate(request)
        case Ok(response) => Ok(response)
        case Err(error) => Err(Generation(error))
  }

  class ProviderRegistry {
    var providers: seq<Provider>

    constructor ()
      ensures providers == []
    {
      providers := [];
    }

    method Register(provider: Provider)
      modifies this
      ensures providers == Without(old(providers), provider.backend) + [provider]
    {
      providers := Without(providers, provider.backend);
      providers := providers + [provider];
    }

    method Provide(request: ProofRequest) returns (r: Result<ProofResponse, CoreError>)
      ensures r == Dispatch(providers, request)
    {
      var provider := FindProvider(providers, request.backend);
      if provider.None? {
        return Err(UnknownBackend(request.backend));
      }
      if !provider.value.supports(request.circuit, request.circuitVersion) {
        return Err(UnsupportedCircuit(request.backend, request.circuit, request.circuitVersion));
      }
      var generated := provider.value.generate(request);
      r := if generated.Ok? then Ok(generated.value) else Err(Generation(generated.error));
    }
  }

  /** The registry after a sequence of registrations. */
  ghost function Registered(regs: seq<Provider>): seq<Provider> {
    if regs == [] then []
    else
      var last := regs[|regs| - 1];
      Without(Registered(regs[..|regs| - 1]), last.backend) + [last]
  }

  predicate ReplacedLater(regs: seq<Provider>, i: nat)
    requires i < |regs|
  {
    exists j :: i < j < |regs| && regs[j].backend == regs[i].backend
  }

  /** The registrations that nothing later replaces, in order. */
  ghost function Survivors(regs: seq<Provider>): seq<Provider> {
    if regs == [] then []
    else (if ReplacedLater(regs, 0) then [] else [regs[0]]) + Survivors(regs[1..])
  }

  /** The last registration for a backend, if any. */
  ghost function Latest(regs: seq<Provider>, backend: string): Option<Provider> {
    if regs == [] then None
    else if regs[|regs| - 1].backend == backend then Some(regs[|regs| - 1])
    else Latest(regs[..|regs| - 1], backend)
  }

  lemma {:induction false} WithoutAppend(a: seq<Provider>, b: seq<Provider>, backend: string)
    ensures Without(a + b, backend) == Without(a, backend) + Without(b, backend)
  {
    if a == [] {
      assert a + b == b;
    } else {
      var head := if a[0].backend == backend then [] else [a[0]];
      assert (a + b)[1..] == a[1..] + b;
      assert Without(a + b, backend) == head + Without(a[1..] + b, backend);
      assert Without(a, backend) == head + Without(a[1..], backend);
      hide Without;
      WithoutAppend(a[1..], b, backend);
    }
  }

  lemma ReplacedSnoc(regs: seq<Provider>, p: Provider)
    requires regs != []
    ensures ReplacedLater(regs + [p], 0) <==> ReplacedLater(regs, 0) || p.backend == regs[0].backend
  {
    var all := regs + [p];
    assert all[0] == regs[0] && all[|regs|] == p;
    if ReplacedLater(regs, 0) {
      var j :| 0 < j < |regs| && regs[j].backend == regs[0].backend;
      assert all[j].backend == all[0].backend;
    }
  }

  lemma WithoutOne(p: Provider, backend: string)
    ensures Without([p], backend) == (if p.backend == backend then [] else [p]) && Without([], backend) == []
  {
    assert [p][1..] == [];
  }

  lemma {:induction false} SurvivorsSnoc(regs: seq<Provider>, p: Provider)
    ensures Survivors(regs + [p]) == Without(Survivors(regs), p.backend) + [p]
  {
    var all := regs + [p];
    if regs == [] {
      assert all[1..] == [];
    } else {
      assert all[0] == regs[0] && all[1..] == regs[1..] + [p];
      var head, rest := if ReplacedLater(regs, 0) then [] else [regs[0]], Survivors(regs[1..]);
      var head' := if ReplacedLater(all, 0) then [] else [regs[0]];
      assert Survivors(regs) == head + rest && Survivors(all) == head' + Survivors(all[1..]);
      hide Survivors, Without, ReplacedLater;
      SurvivorsSnoc(regs[1..], p);
      ReplacedSnoc(regs, p);
      WithoutOne(regs[0], p.backend);
      WithoutAppend(head, rest, p.backend);
      Associate(head', Without(rest, p.backend), [p]);
    }
  }

  /** The registry holds exactly the registrations that nothing later replaced, in order. */
  lemma {:induction false} RegistryIsSurvivors(regs: seq<Provider>)
    ensures Registered(regs) == Survivors(regs)
  {
    if regs != [] {
      var n := |regs| - 1;
      RegistryIsSurvivors(regs[..n]);
      SurvivorsSnoc(regs[..n], regs[n]);
      assert regs == regs[..n] + [regs[n]];
    }
  }

  lemma {:induction false} WithoutFinds(ps: seq<Provider>, removed: string, backend: string)
    ensures FindProvider(Without(ps, removed), backend) ==
            if backend == removed then None else FindProvider(ps, backend)
    ensures forall q :: q in Without(ps, removed) ==> q.backend != removed
  {
    if ps != [] {
      WithoutFinds(ps[1..], removed, backend);
      var rest := Without(ps[1..], removed);
      assert ([ps[0]] + rest)[1..] == rest && [] + rest == rest;
    }
  }

  lemma {:induction false} FindInAppend(ps: seq<Provider>, p: Provider, backend: string)
    ensures FindProvider(ps + [p], backend) ==
            match FindProvider(ps, backend)
            case Some(q) => Some(q)
            case None => if p.backend == backend then Some(p) else None
  {
    if ps != [] {
      assert (ps + [p])[1..] == ps[1..] + [p];
      FindInAppend(ps[1..], p, backend);
    }
  }

  predicate OnePerBackend(ps: seq<Provider>) {
    forall i, j :: 0 <= i < j < |ps| ==> ps[i].backend != ps[j].backend
  }

  lemma {:induction false} WithoutKeepsOnePerBackend(ps: seq<Provider>, removed: string)
    requires OnePerBackend(ps)
    ensures OnePerBackend(Without(ps, removed))
    ensures forall q :: q in Without(ps, removed) ==> exists i :: 0 <= i < |ps| && ps[i].backend == q.backend
    ensures forall q :: q in Without(ps, removed) ==> q.backend != removed
  {
    if ps != [] {
      WithoutKeepsOnePerBackend(ps[1..], removed);
      var rest := Without(ps[1..], removed);
      assert Without(ps, removed) == (if ps[0].backend == removed then [] else [ps[0]]) + rest;
      hide Without;
      forall q | q in rest ensures q.backend != ps[0].backend
                                && exists i :: 0 <= i < |ps| && ps[i].backend == q.backend {
        var i :| 0 <= i < |ps[1..]| && ps[1..][i].backend == q.backend;
        assert ps[i + 1].backend == q.backend;
      }
      assert forall i :: 0 <= i < |rest| ==> rest[i] in rest;
    }
  }

  /** After any registrations: at most one provider a backend, and lookup gives the latest one. */
  lemma {:induction false} RegistryRefinesMap(regs: seq<Provider>, backend: string)
    ensures OnePerBackend(Registered(regs))
    ensures FindProvider(Registered(regs), backend) == Latest(regs, backend)
  {
    if regs != [] {
      var n := |regs| - 1;
      var before, last := Registered(regs[..n]), regs[n];
      RegistryRefinesMap(regs[..n], backend);
      WithoutFinds(before, last.backend, backend);
      FindInAppend(Without(before, last.backend), last, backend);
      WithoutKeepsOnePerBackend(before, last.backend);
      hide Without, FindProvider, OnePerBackend;
      OneMoreBackend(Without(before, last.backend), last);
    }
  }

  lemma OneMoreBackend(ps: seq<Provider>, p: Provider)
    requires OnePerBackend(ps) && forall q :: q in ps ==> q.backend != p.backend
    ensures OnePerBackend(ps + [p])
  {
    assert forall i :: 0 <= i < |ps| ==> ps[i] in ps;
  }

  lemma {:induction false} LatestServes(regs: seq<Provider>, backend: string)
    ensures Latest(regs, backend).Some? ==>
              Latest(regs, backend).value in regs && Latest(regs, backend).value.backend == backend
  {
    if regs != [] {
      LatestServes(regs[..|regs| - 1], backend);
    }
  }

  /**
   Dispatch answers with a proof exactly when the latest provider registered for the request's
   own backend supports its circuit version and generates that proof.
   */
  lemma DispatchRunsTheLatest(regs: seq<Provider>, request: ProofRequest, response: ProofResponse)
    ensures Dispatch(Registered(regs), request) == Ok(response) <==>
            var p := Latest(regs, request.backend);
            && p.Some?
            && p.value.supports(request.circuit, request.circuitVersion)
            && p.value.generate(request) == Ok(response)
    ensures Latest(regs, request.backend).Some? ==>
              Latest(regs, request.backend).value.backend == request.backend
  {
    RegistryRefinesMap(regs, request.backend);
    LatestServes(regs, request.backend);
  }

  // ---------- Preflight ----------

  function MissingNames(required: seq<string>, es: Entries): seq<string> {
    if required == [] then []
    else (if Find(es, required[0]).None? then [required[0]] else []) + MissingNames(required[1..], es)
  }

  function Preflight(request: ProofRequest): Option<CoreError> {
    var invalid := Validate(request);
    var missing := MissingNames(PrivateNames(request.operation), request.secrets);
    var missingPublic := MissingNames(PublicParams(request.operation), request.publicInputs);
    if invalid.Some? then Some(InvalidStructure(invalid.value))
    else if missing != [] then Some(MissingPrivateNames(missing))
    else if missingPublic != [] then Some(MissingPublicNames(missingPublic))
    else None
  }

  function ProveCore(ps: seq<Provider>, request: ProofRequest): Result<ProofResponse, CoreError> {
    var refused := Preflight(request);
    if refused.Some? then Err(refused.value) else Dispatch(ps, request)
  }

  function RoundTrip(verifier: LocalVerifier, request: VerificationRequest): Result<VerificationOutcome, CoreError> {
    match verifier.verify(request)
    case Err(_) => Err(InternalCoreError)
    case Ok(outcome) => if !outcome.verified then Err(NotVerified(outcome.failure)) else Ok(outcome)
  }

  function ProveAndVerifyCore(ps: seq<Provider>, verifier: Option<LocalVerifier>, request: ProofRequest)
    : Result<(ProofResponse, VerificationOutcome), CoreError>
  {
    var response :- ProveCore(ps, request);
    if verifier.None? then Err(NoVerifier)
    else
      var outcome :- RoundTrip(verifier.value, FromResponse(response));
      Ok((response, outcome))
  }

  class Service {
    const registry: ProviderRegistry
    var localVerifier: Option<LocalVerifier>

    constructor ()
      ensures fresh(registry) && registry.providers == [] && localVerifier == None
    {
      registry := new ProviderRegistry();
      localVerifier := None;
    }

    method RegisterProvider(provider: Provider)
      modifies registry
      ensures registry.providers == Without(old(registry.providers), provider.backend) + [provider]
    {
      registry.Register(provider);
    }

    method WithLocalVerifier(verifier: LocalVerifier)
      modifies this`localVerifier
      ensures localVerifier == Some(verifier)
    {
      localVerifier := Some(verifier);
    }

    method ProveAndVerify(request: ProofRequest) returns (r: Result<(ProofResponse, VerificationOutcome), CoreError>)
      ensures r == ProveAndVerifyCore(registry.providers, localVerifier, request)
    {
      var refused := Preflight(request);
      if refused.Some? {
        return Err(refused.value);
      }
      var response := registry.Provide(request);
      if response.Err? {
        return Err(response.error);
      }
      if localVerifier.None? {
        return Err(NoVerifier);
      }
      var outcome := RoundTrip(localVerifier.value, FromResponse(response.value));
      r := if outcome.Ok? then Ok((response.value, outcome.value)) else Err(outcome.error);
    }
  }

  /** Nothing the service returns failed its own round trip. */
  lemma ReturnedProofsAreVerified(ps: seq<Provider>, verifier: Option<LocalVerifier>, request: ProofRequest)
    requires ProveAndVerifyCore(ps, verifier, request).Ok?
    ensures var (response, outcome) := ProveAndVerifyCore(ps, verifier, request).value;
            && outcome.verified
            && verifier.Some? && verifier.value.verify(FromResponse(response)) == Ok(outcome)
            && Preflight(request).None? && Dispatch(ps, request) == Ok(response)
  {
  }

  lemma {:induction false} NoneMissing(required: seq<string>, es: Entries)
    ensures MissingNames(required, es) == [] <==> forall i :: 0 <= i < |required| ==> Find(es, required[i]).Some?
  {
    if required != [] {
      NoneMissing(required[1..], es);
      assert required == [required[0]] + required[1..];
    }
  }

  /** The request carries a state whose root is exactly its `root_hi`/`root_lo` pair. */
  predicate CarriesItsRoot(request: ProofRequest) {
    var hi, lo := Find(request.publicInputs, "root_hi"), Find(request.publicInputs, "root_lo");
    && request.state.Some? && hi.Some? && lo.Some?
    && Value(hi.value) < TWO_128 && Value(lo.value) < TWO_128
    && Value(hi.value) * TWO_128 + Value(lo.value) == HexValue(request.state.value.root)
  }

  /**
   A state-bound request passes preflight exactly when its bags are non-empty, every private
   and public name is there, and its public root words are the two halves of its state root.
   */
  lemma PreflightBindsState(request: ProofRequest)
    requires StateBound(request.operation)
    ensures Preflight(request).None? <==>
            && (forall i :: 0 <= i < |PrivateNames(request.operation)| ==>
                  Find(request.secrets, PrivateNames(request.operation)[i]).Some?)
            && (forall i :: 0 <= i < |PublicParams(request.operation)| ==>
                  Find(request.publicInputs, PublicParams(request.operation)[i]).Some?)
            && CarriesItsRoot(request)
  {
    var hi, lo := Find(request.publicInputs, "root_hi"), Find(request.publicInputs, "root_lo");
    NoneMissing(PrivateNames(request.operation), request.secrets);
    NoneMissing(PublicParams(request.operation), request.publicInputs);
    RootNamesIffStateBound(request.operation);
    if request.state.Some? && hi.Some? && lo.Some? {
      HalvesMatchRoot(request.state.value.root, hi.value, lo.value);
    }
    NonEmptyBags(request);
  }

  lemma HalvesMatchRoot(root: Digest256, hi: FieldValue, lo: FieldValue)
    ensures RootHalves(root) == (hi, lo) <==>
            Value(hi) < TWO_128 && Value(lo) < TWO_128 && Value(hi) * TWO_128 + Value(lo) == HexValue(root)
  {
    var (h, l) := RootHalves(root);
    RootHalvesSplit(root);
    if Value(hi) < TWO_128 && Value(lo) < TWO_128 && Value(hi) * TWO_128 + Value(lo) == HexValue(root) {
      DigitSplit(Value(hi), Value(lo), Value(h), Value(l), TWO_128);
      ValueInjective(hi, h);
      ValueInjective(lo, l);
    }
  }

  lemma NonEmptyBags(request: ProofRequest)
    ensures forall name :: Find(request.secrets, name).Some? ==> request.secrets != []
    ensures forall name :: Find(request.publicInputs, name).Some? ==> request.publicInputs != []
    ensures PrivateNames(request.operation) != [] && PublicParams(request.operation) != []
  {
  }

  // ---------- Comparing outputs ----------

  datatype OutputMismatch = OutputMismatch(
    differing: seq<string>,
    missingFromProduced: seq<string>,
    unexpected: seq<string>)

  function Pick(names: seq<string>, keep: string -> bool): seq<string> {
    if names == [] then []
    else (if keep(names[0]) then [names[0]] else []) + Pick(names[1..], keep)
  }

  predicate Differs(expected: Entries, produced: Entries, name: string) {
    var a, b := Find(expected, name), Find(produced, name);
    a.Some? && b.Some? && a != b
  }

  predicate OnlyIn(a: Entries, b: Entries, name: string) {
    Find(a, name).Some? && Find(b, name).None?
  }

  function Compared(expected: Entries, produced: Entries): OutputMismatch {
    OutputMismatch(
      Pick(Names(expected), name => Differs(expected, produced, name)),
      Pick(Names(expected), name => OnlyIn(expected, produced, name)),
      Pick(Names(produced), name => Find(expected, name).None?))
  }

  method CompareOutputs(expected: Entries, produced: Entries) returns (m: OutputMismatch)
    ensures m == Compared(expected, produced)
  {
    ghost var differs := name => Differs(expected, produced, name);
    ghost var onlyExpected := name => OnlyIn(expected, produced, name);
    ghost var unknown := name => Find(expected, name).None?;
    var expectedNames, producedNames := Names(expected), Names(produced);
    var differing, missing, unexpected := [], [], [];
    for i := 0 to |expectedNames|
      invariant differing + Pick(expectedNames[i..], differs) == Pick(expectedNames, differs)
      invariant missing + Pick(expectedNames[i..], onlyExpected) == Pick(expectedNames, onlyExpected)
    {
      var name := expectedNames[i];
      PickStep(expectedNames, i, differing, differs);
      PickStep(expectedNames, i, missing, onlyExpected);
      var a, b := Find(expected, name), Find(produced, name);
      if a.Some? && b.Some? && a.value != b.value {
        differing := differing + [name];
      } else if a.Some? && b.None? {
        missing := missing + [name];
      }
    }
    for i := 0 to |producedNames|
      invariant unexpected + Pick(producedNames[i..], unknown) == Pick(producedNames, unknown)
    {
      PickStep(producedNames, i, unexpected, unknown);
      if Find(expected, producedNames[i]).None? {
        unexpected := unexpected + [producedNames[i]];
      }
    }
    PickDone(differing, differs);
    PickDone(missing, onlyExpected);
    PickDone(unexpected, unknown);
    assert expectedNames[|expectedNames|..] == [] && producedNames[|producedNames|..] == [];
    m := OutputMismatch(differing, missing, unexpected);
  }

  lemma PickStep(names: seq<string>, i: nat, done: seq<string>, keep: string -> bool)
    requires i < |names|
    ensures done + Pick(names[i..], keep) ==
            (if keep(names[i]) then done + [names[i]] else done) + Pick(names[i + 1..], keep)
  {
    assert names[i..][0] == names[i] && names[i..][1..] == names[i + 1..];
    Associate(done, if keep(names[i]) then [names[i]] else [], Pick(names[i + 1..], keep));
  }

  lemma PickDone(done: seq<string>, keep: string -> bool)
    ensures done + Pick([], keep) == done
  {
  }

  predicate OutputsMatch(expected: Entries, produced: Entries) {
    Compared(expected, produced) == OutputMismatch([], [], [])
  }

  lemma {:induction false} PickNothing(names: seq<string>, keep: string -> bool)
    ensures Pick(names, keep) == [] <==> forall i :: 0 <= i < |names| ==> !keep(names[i])
  {
    if names != [] {
      PickNothing(names[1..], keep);
      assert names == [names[0]] + names[1..];
    }
  }

  /** Outputs match exactly when both bags give every name the same answer, in whatever order. */
  lemma OutputsMatchIff(expected: Entries, produced: Entries)
    ensures OutputsMatch(expected, produced) <==>
            forall name :: Find(expected, name) == Find(produced, name)
  {
    PickNothing(Names(expected), name => Differs(expected, produced, name));
    PickNothing(Names(expected), name => OnlyIn(expected, produced, name));
    PickNothing(Names(produced), name => Find(expected, name).None?);
    if OutputsMatch(expected, produced) {
      forall name ensures Find(expected, name) == Find(produced, name) {
        SameAnswer(expected, produced, name);
      }
    }
    if forall name :: Find(expected, name) == Find(produced, name) {
      forall i | 0 <= i < |produced| ensures Find(expected, Names(produced)[i]).Some? {
        FindIffPresent(produced, produced[i].name);
        assert Find(expected, produced[i].name) == Find(produced, produced[i].name);
      }
    }
  }

  /** So matching is not equality of bags: two entries in either order match. */
  lemma ReorderedOutputsMatch(a: Entry, b: Entry)
    requires a.name != b.name
    ensures OutputsMatch([a, b], [b, a]) && [a, b] != [b, a]
  {
    hide OutputsMatch;
    assert [a, b][0] != [b, a][0];
    forall name ensures Find([a, b], name) == Find([b, a], name) {
      var i, j := Position([a, b], name), Position([b, a], name);
      assert i < 2 ==> [a, b][i].name == name;
      assert j < 2 ==> [b, a][j].name == name;
      assert i == 2 ==> a.name != name && b.name != name by {
        assert [a, b][0] == a && [a, b][1] == b;
      }
      assert j == 2 ==> a.name != name && b.name != name by {
        assert [b, a][0] == b && [b, a][1] == a;
      }
    }
    OutputsMatchIff([a, b], [b, a]);
  }

  lemma SameAnswer(expected: Entries, produced: Entries, name: string)
    requires forall i :: 0 <= i < |expected| ==>
               !Differs(expected, produced, Names(expected)[i]) && !OnlyIn(expected, produced, Names(expected)[i])
    requires forall i :: 0 <= i < |produced| ==> Find(expected, Names(produced)[i]).Some?
    ensures Find(expected, name) == Find(produced, name)
  {
    var i, j := Position(expected, name), Position(produced, name);
    if i < |expected| {
      assert Names(expected)[i] == name;
    }
    if j < |produced| {
      assert Names(produced)[j] == name;
    }
  }

  // ---------- Preflight for every operation ----------

  /** All of `names` are found. */
  predicate AllFound(names: seq<string>, es: Entries) {
    forall i :: 0 <= i < |names| ==> Find(es, names[i]).Some?
  }

  /** Root words that are there together with a state are that root's halves. */
  predicate RootWordsFit(request: ProofRequest) {
    var hi, lo := Find(request.publicInputs, "root_hi"), Find(request.publicInputs, "root_lo");
    request.state.Some? && hi.Some? && lo.Some? ==>
      && Value(hi.value) < TWO_128 && Value(lo.value) < TWO_128
      && Value(hi.value) * TWO_128 + Value(lo.value) == HexValue(request.state.value.root)
  }

  /** The structural faults of any request, each exactly when nothing before it is wrong. */
  lemma ValidateFault(request: ProofRequest)
    ensures Validate(request) == Some(MissingWitness(request.operation)) <==> request.secrets == []
    ensures Validate(request) == Some(MissingPublicInputs(request.operation)) <==>
            request.secrets != [] && request.publicInputs == []
    ensures Validate(request) == Some(MissingStateReference(request.operation)) <==>
            && request.secrets != [] && request.publicInputs != []
            && request.operation in {Merge, Transfer, Withdraw} && request.state.None?
    ensures Validate(request) == Some(StateRootMismatch) <==>
            && request.secrets != [] && request.publicInputs != [] && !RootWordsFit(request)
    ensures Validate(request).None? <==>
            && request.secrets != [] && request.publicInputs != []
            && (request.operation in {Merge, Transfer, Withdraw} ==> request.state.Some?)
            && RootWordsFit(request)
  {
    var hi, lo := Find(request.publicInputs, "root_hi"), Find(request.publicInputs, "root_lo");
    if request.state.Some? && hi.Some? && lo.Some? {
      HalvesMatchRoot(request.state.value.root, hi.value, lo.value);
    }
    hide RootHalves, Find;
  }

  /**
   Any request passes preflight exactly when both bags are non-empty, every private and public
   name of its operation is found, a state-bound one has a state, and root words fit it.
   */
  lemma PreflightIff(request: ProofRequest)
    ensures Preflight(request).None? <==>
            && request.secrets != [] && request.publicInputs != []
            && AllFound(PrivateNames(request.operation), request.secrets)
            && AllFound(PublicParams(request.operation), request.publicInputs)
            && (request.operation in {Merge, Transfer, Withdraw} ==> request.state.Some?)
            && RootWordsFit(request)
  {
    hide RootWordsFit, Validate, PrivateNames, PublicParams;
    ValidateFault(request);
    NoneMissing(PrivateNames(request.operation), request.secrets);
    NoneMissing(PublicParams(request.operation), request.publicInputs);
  }

  /** Preflight reports the structural fault, else all missing private names, else all missing public ones. */
  lemma PreflightFault(request: ProofRequest)
    ensures Validate(request).Some? ==> Preflight(request) == Some(InvalidStructure(Validate(request).value))
    ensures Validate(request).None? && !AllFound(PrivateNames(request.operation), request.secrets) ==>
              Preflight(request)
              == Some(MissingPrivateNames(MissingNames(PrivateNames(request.operation), request.secrets)))
    ensures Validate(request).None? && AllFound(PrivateNames(request.operation), request.secrets)
            && !AllFound(PublicParams(request.operation), request.publicInputs) ==>
              Preflight(request)
              == Some(MissingPublicNames(MissingNames(PublicParams(request.operation), request.publicInputs)))
  {
    hide Validate, PrivateNames, PublicParams;
    NoneMissing(PrivateNames(request.operation), request.secrets);
    NoneMissing(PublicParams(request.operation), request.publicInputs);
  }

  /** Of a single name it is missing or not; of a list, the missing names keep its order. */
  lemma {:induction false} MissingNamesMeaning(a: seq<string>, b: seq<string>, es: Entries)
    ensures MissingNames(a + b, es) == MissingNames(a, es) + MissingNames(b, es)
    ensures |a| == 1 ==> MissingNames(a, es) == if Find(es, a[0]).None? then a else []
  {
    hide Find;
    if a == [] {
      assert a + b == b;
    } else {
      assert (a + b)[1..] == a[1..] + b;
      MissingNamesMeaning(a[1..], b, es);
      if |a| == 1 {
        assert a[1..] == [] && a == [a[0]];
      }
    }
  }

  // ---------- The ways a request can end ----------

  /** Dispatch: no provider, no support, the provider's own error, or its proof. */
  lemma DispatchOutcome(ps: seq<Provider>, request: ProofRequest)
    ensures FindProvider(ps, request.backend).None? ==> Dispatch(ps, request) == Err(UnknownBackend(request.backend))
    ensures FindProvider(ps, request.backend).Some? ==>
              var p := FindProvider(ps, request.backend).value;
              && p.backend == request.backend
              && (!p.supports(request.circuit, request.circuitVersion) ==>
                    Dispatch(ps, request)
                    == Err(UnsupportedCircuit(request.backend, request.circuit, request.circuitVersion)))
              && (p.supports(request.circuit, request.circuitVersion) ==>
                    match p.generate(request)
                    case Ok(response) => Dispatch(ps, request) == Ok(response)
                    case Err(error) => Dispatch(ps, request) == Err(Generation(error)))
  {
    FoundServes(ps, request.backend);
  }

  lemma {:induction false} FoundServes(ps: seq<Provider>, backend: string)
    ensures FindProvider(ps, backend).Some? ==> FindProvider(ps, backend).value.backend == backend
    ensures FindProvider(ps, backend).None? <==> forall i :: 0 <= i < |ps| ==> ps[i].backend != backend
  {
    if ps != [] {
      FoundServes(ps[1..], backend);
      assert ps == [ps[0]] + ps[1..];
    }
  }

  /**
   The service answers with the preflight fault, the dispatch error, the missing verifier, the
   verifier's own failure or its rejection, in that order, and otherwise with proof and verdict.
   */
  lemma ServiceOutcome(ps: seq<Provider>, verifier: Option<LocalVerifier>, request: ProofRequest)
    ensures var r := ProveAndVerifyCore(ps, verifier, request);
            && (Preflight(request).Some? ==> r == Err(Preflight(request).value))
            && (Preflight(request).None? && Dispatch(ps, request).Err? ==> r == Err(Dispatch(ps, request).error))
            && (Preflight(request).None? && Dispatch(ps, request).Ok? ==>
                  && (verifier.None? ==> r == Err(NoVerifier))
                  && (verifier.Some? ==>
                        match verifier.value.verify(FromResponse(Dispatch(ps, request).value))
                        case Err(_) => r == Err(InternalCoreError)
                        case Ok(outcome) =>
                          if outcome.verified then r == Ok((Dispatch(ps, request).value, outcome))
                          else r == Err(NotVerified(outcome.failure))))
  {
    hide Preflight, Dispatch;
  }

  // ---------- Which list a name lands in ----------

  lemma {:induction false} PickMeaning(names: seq<string>, keep: string -> bool, name: string)
    ensures name in Pick(names, keep) <==> name in names && keep(name)
  {
    if names != [] {
      PickMeaning(names[1..], keep, name);
      assert names == [names[0]] + names[1..];
    }
  }

  lemma {:induction false} PickAppend(a: seq<string>, b: seq<string>, keep: string -> bool)
    ensures Pick(a + b, keep) == Pick(a, keep) + Pick(b, keep)
  {
    if a == [] {
      assert a + b == b;
    } else {
      assert (a + b)[1..] == a[1..] + b;
      PickAppend(a[1..], b, keep);
    }
  }

  /**
   A name differs when both bags have it with different values, is missing when it is expected
   but not produced, and is unexpected when it is produced but not expected.
   */
  lemma ComparedMeaning(expected: Entries, produced: Entries, name: string)
    ensures var m := Compared(expected, produced);
            var a, b := Find(expected, name), Find(produced, name);
            && (name in m.differing <==> a.Some? && b.Some? && a.value != b.value)
            && (name in m.missingFromProduced <==> a.Some? && b.None?)
            && (name in m.unexpected <==> a.None? && b.Some?)
  {
    PickMeaning(Names(expected), name => Differs(expected, produced, name), name);
    PickMeaning(Names(expected), name => OnlyIn(expected, produced, name), name);
    PickMeaning(Names(produced), name => Find(expected, name).None?, name);
    NamedIffFound(expected, name);
    NamedIffFound(produced, name);
  }

  lemma {:induction false} PickOrder(names: seq<string>, keep: string -> bool, i: nat, j: nat)
    requires forall p, q :: 0 <= p < q < |names| ==> names[p] != names[q]
    requires i < j < |Pick(names, keep)|
    ensures exists p, q :: 0 <= p < q < |names| && names[p] == Pick(names, keep)[i] && names[q] == Pick(names, keep)[j]
  {
    var rest := Pick(names[1..], keep);
    var shift := if keep(names[0]) then 1 else 0;
    if i >= shift {
      PickOrder(names[1..], keep, i - shift, j - shift);
      var p, q :| 0 <= p < q < |names[1..]| && names[1..][p] == rest[i - shift] && names[1..][q] == rest[j - shift];
      assert names[p + 1] == rest[i - shift] && names[q + 1] == rest[j - shift];
    } else {
      PickMeaning(names[1..], keep, rest[j - 1]);
      var q :| 0 <= q < |names[1..]| && names[1..][q] == rest[j - 1];
      assert names[0] == Pick(names, keep)[0] && names[q + 1] == rest[j - 1];
    }
  }

  /** The names stand in the order of the bag they come from. */
  lemma ComparedInOrder(expected: Entries, produced: Entries, i: nat, j: nat)
    requires Distinct(expected) && Distinct(produced) && i < j
    ensures var m := Compared(expected, produced);
            && (j < |m.differing| ==> Position(expected, m.differing[i]) < Position(expected, m.differing[j]))
            && (j < |m.missingFromProduced| ==>
                  Position(expected, m.missingFromProduced[i]) < Position(expected, m.missingFromProduced[j]))
            && (j < |m.unexpected| ==> Position(produced, m.unexpected[i]) < Position(produced, m.unexpected[j]))
  {
    PickPositions(expected, name => Differs(expected, produced, name), i, j);
    PickPositions(expected, name => OnlyIn(expected, produced, name), i, j);
    PickPositions(produced, name => Find(expected, name).None?, i, j);
  }

  lemma PickPositions(es: Entries, keep: string -> bool, i: nat, j: nat)
    requires Distinct(es) && i < j
    ensures var picked := Pick(Names(es), keep);
            j < |picked| ==> Position(es, picked[i]) < Position(es, picked[j])
  {
    var picked := Pick(Names(es), keep);
    if j < |picked| {
      PickOrder(Names(es), keep, i, j);
      var p, q :| 0 <= p < q < |es| && Names(es)[p] == picked[i] && Names(es)[q] == picked[j];
      assert es[p].name == picked[i] && es[q].name == picked[j];
      assert Position(es, picked[i]) == p && Position(es, picked[j]) == q;
    }
  }

  lemma NamedIffFound(es: Entries, name: string)
    ensures name in Names(es) <==> Find(es, name).Some?
  {
    var i := Position(es, name);
    if i < |es| {
      assert Names(es)[i] == name;
    }
    if name in Names(es) {
      var k :| 0 <= k < |es| && Names(es)[k] == name;
      assert es[k].name == name;
    }
  }
}
