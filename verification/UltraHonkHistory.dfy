/** Many requests through one provider: which of the earlier proofs are still accepted. */
module UltraHonkHistory {
  import opened Outcomes
  import opened Requests
  import opened KeyIds
  import opened KeyStore
  import opened ProverService
  import opened UltraHonk
  import opened UltraHonkVerifier
  import opened UltraHonkPipeline

  /** The key a proof is checked under depends only on the bytecode it was made from. */
  ghost predicate KeyFromBytecode(env: Environment) {
    forall bytecode, a, b ::
      env.prove(bytecode, a).Ok? && env.prove(bytecode, b).Ok? ==>
        env.prove(bytecode, a).value.vk == env.prove(bytecode, b).value.vk
  }

  /** The key store after a sequence of requests, failed ones included. */
  function FilesAfterAll(env: Environment, files: KeyFiles, requests: seq<ProofRequest>): KeyFiles
    decreases |requests|
  {
    if requests == [] then files
    else FilesAfterAll(env, FilesAfterGenerate(env, files, requests[0]), requests[1..])
  }

  /** The store gives the key that `request` was proved under. */
  predicate HasKeyOf(env: Environment, files: KeyFiles, request: ProofRequest)
    requires ProveAndName(env, request).Ok?
  {
    var p := ProveAndName(env, request).value;
    KeyStore.Lookup(env.sha, files, IdFor(p.key)) == Ok(p.bundle.vk)
  }

  /** Requests with one key id are proved from one bytecode, so under one key. */
  lemma SamePathSameKey(env: Environment, a: ProofRequest, b: ProofRequest)
    requires KeyFromBytecode(env) && ProveAndName(env, a).Ok? && ProveAndName(env, b).Ok?
    requires PathFor(env.sha, IdFor(ProveAndName(env, a).value.key))
          == PathFor(env.sha, IdFor(ProveAndName(env, b).value.key))
    ensures ProveAndName(env, a).value.bundle.vk == ProveAndName(env, b).value.bundle.vk
  {
    hide PathFor, IdFor, Validate, Supports, Consistent, NamedWords, IsKeyId, Parse;
    var p, q := ProveAndName(env, a).value, ProveAndName(env, b).value;
    SharedPaths(env.sha, IdFor(p.key), IdFor(q.key));
    IdRoundTrip(p.key);
    IdRoundTrip(q.key);
    assert a.circuit == b.circuit;
    var bytecode := env.bytecode(a.circuit).value;
    assert env.prove(bytecode, a) == Ok(p.bundle) && env.prove(bytecode, b) == Ok(q.bundle);
  }

  /** No later request, failed or not, takes away or changes an earlier request's key. */
  lemma LaterRequestKeepsKey(env: Environment, files: KeyFiles, earlier: ProofRequest, later: ProofRequest)
    requires KeyFromBytecode(env) && ProveAndName(env, earlier).Ok? && HasKeyOf(env, files, earlier)
    ensures HasKeyOf(env, FilesAfterGenerate(env, files, later), earlier)
  {
    hide KeyFromBytecode, PathFor, IdFor, ProveAndName;
    if ProveAndName(env, later).Ok? {
      if PathFor(env.sha, IdFor(ProveAndName(env, earlier).value.key))
         == PathFor(env.sha, IdFor(ProveAndName(env, later).value.key)) {
        SamePathSameKey(env, earlier, later);
      }
    }
  }

  lemma {:induction false} LaterRequestsKeepKey(env: Environment, files: KeyFiles, earlier: ProofRequest,
                                                later: seq<ProofRequest>)
    requires KeyFromBytecode(env) && ProveAndName(env, earlier).Ok? && HasKeyOf(env, files, earlier)
    ensures HasKeyOf(env, FilesAfterAll(env, files, later), earlier)
    decreases |later|
  {
    if later != [] {
      hide KeyFromBytecode, HasKeyOf, ProveAndName, FilesAfterGenerate;
      LaterRequestKeepsKey(env, files, earlier, later[0]);
      LaterRequestsKeepKey(env, FilesAfterGenerate(env, files, later[0]), earlier, later[1..]);
    }
  }

  lemma {:induction false} HistorySplits(env: Environment, files: KeyFiles, requests: seq<ProofRequest>, i: nat)
    requires i < |requests|
    ensures FilesAfterAll(env, files, requests) ==
            var before := FilesAfterAll(env, files, requests[..i]);
            FilesAfterAll(env, FilesAfterGenerate(env, before, requests[i]), requests[i + 1..])
    decreases i
  {
    hide FilesAfterGenerate;
    if i > 0 {
      HistorySplits(env, FilesAfterGenerate(env, files, requests[0]), requests[1..], i - 1);
      assert requests[1..][..i - 1] == requests[..i][1..] && requests[1..][i..] == requests[i + 1..];
    } else {
      assert requests[..0] == [];
    }
  }

  /**
   After any sequence of requests through one provider, from any store, every proof that was
   generated along the way is still accepted, empty ones excepted.
   */
  lemma EveryEarlierProofAccepted(env: Environment, files: KeyFiles, requests: seq<ProofRequest>, i: nat)
    requires ReadsNumbers(env) && AcceptsOwnProofs(env) && EchoesRoot(env) && KeyFromBytecode(env)
    requires i < |requests|
    ensures Preflight(requests[i]).None? && Generated(env, requests[i]).Ok? ==>
              var r := Generated(env, requests[i]).value;
              Verify(env, FilesAfterAll(env, files, requests), FromResponse(r)) ==
              Ok(if r.proof.bytes != [] then VERIFIED else Rejected(InvalidProof))
  {
    hide ReadsNumbers, AcceptsOwnProofs, EchoesRoot, KeyFromBytecode, Preflight, Verify, ProveAndName;
    hide FilesAfterGenerate, KeyStore.Lookup;
    var request, before := requests[i], FilesAfterAll(env, files, requests[..i]);
    var after := FilesAfterGenerate(env, before, request);
    if Preflight(request).None? && Generated(env, request).Ok? {
      HistorySplits(env, files, requests, i);
      KeyIsStored(env, before, request);
      LaterRequestsKeepKey(env, after, request, requests[i + 1..]);
      GeneratedProofAccepted(env, before, FilesAfterAll(env, files, requests), request);
    }
  }
}
