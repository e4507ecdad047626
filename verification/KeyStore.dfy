/**
 The verification-key store: documents in files whose path is derived from the key id. It is
 a plain map over key identities; the paths only spell those identities out.
 */
module KeyStore {
  import opened Outcomes
  import opened Hex
  import opened Circuits
  import opened Requests
  import opened KeyIds

  const SCHEME_ULTRA_HONK := "ultra_honk"

  datatype VkDocument = VkDocument(vk: seq<string>, hash: string, bbVersion: string, scheme: string)

  datatype StoreError = InconsistentArtifacts | MissingFile(path: Path) | MalformedArtifact(path: Path)

  /** Path components below the store root. */
  type Path = seq<string>

  function PathFor(sha: Hasher, id: string): Path {
    match Parse(id)
    case Some(k) => [k.circuit, DisplayVersion(k.version), k.hash + ".json"]
    case None => ["_foreign", HexEncode(sha(Utf8(id))) + ".json"]
  }

  /** What an id stands for: the parts it parses to, or the hash of a foreign id. */
  datatype Identity = Own(key: KeyParts) | Foreign(hash: Hash32)

  function IdentityOf(sha: Hasher, id: string): Identity {
    match Parse(id)
    case Some(k) => Own(k)
    case None => Foreign(sha(Utf8(id)))
  }

  function IdentityPath(identity: Identity): Path {
    match identity
    case Own(k) => [k.circuit, DisplayVersion(k.version), k.hash + ".json"]
    case Foreign(hash) => ["_foreign", HexEncode(hash) + ".json"]
  }

  lemma SuffixInjective(a: string, b: string, suffix: string)
    requires a + suffix == b + suffix
    ensures a == b
  {
    assert |a| == |b|;
    assert (a + suffix)[..|a|] == a && (b + suffix)[..|b|] == b;
  }

  lemma IdentityPathInjective(a: Identity, b: Identity)
    requires IdentityPath(a) == IdentityPath(b)
    ensures a == b
  {
    assert |IdentityPath(a)| == |IdentityPath(b)|;
    match (a, b)
    case (Own(k), Own(l)) =>
      assert IdentityPath(a)[0] == k.circuit && IdentityPath(a)[1] == DisplayVersion(k.version);
      assert IdentityPath(a)[2] == k.hash + ".json" == l.hash + ".json";
      SuffixInjective(k.hash, l.hash, ".json");
      DisplayVersionInjective(k.version, l.version);
    case (Foreign(h), Foreign(g)) =>
      assert IdentityPath(a)[1] == HexEncode(h) + ".json" == HexEncode(g) + ".json";
      SuffixInjective(HexEncode(h), HexEncode(g), ".json");
      DecodeEncode(h);
      DecodeEncode(g);
    case _ =>
  }

  /**
   Two ids share a file exactly when they parse to the same circuit, version and hash, or
   when neither parses and their hashes agree.
   */
  lemma SharedPaths(sha: Hasher, a: string, b: string)
    ensures PathFor(sha, a) == PathFor(sha, b) <==>
            match (Parse(a), Parse(b))
            case (Some(k), Some(l)) => k == l
            case (None, None) => sha(Utf8(a)) == sha(Utf8(b))
            case _ => false
  {
    if PathFor(sha, a) == PathFor(sha, b) {
      IdentityPathInjective(IdentityOf(sha, a), IdentityOf(sha, b));
    }
  }

  /** No key file lies on the directory path of another, so writing one never blocks another. */
  lemma PathsNeverNest(sha: Hasher, a: string, b: string)
    ensures !(PathFor(sha, a) < PathFor(sha, b))
  {
    if Parse(a).None? && Parse(b).Some? {
      var file, version := HexEncode(sha(Utf8(a))) + ".json", DisplayVersion(Parse(b).value.version);
      DisplayVersionChars(Parse(b).value.version);
      assert file[|file| - 1] == 'n' && !IsVersionChar('n');
      assert file != version;
      assert PathFor(sha, a)[1] == file && PathFor(sha, b)[1] == version;
    }
  }

  lemma JsonFileIsNoDots(stem: string)
    ensures stem + ".json" != ".."
  {
    assert |stem + ".json"| >= 5;
  }

  /** A path climbs exactly when its id parses with circuit `..`; so foreign ids never do. */
  lemma ClimbsIff(sha: Hasher, id: string)
    ensures ".." in PathFor(sha, id) <==> Parse(id).Some? && Parse(id).value.circuit == ".."
  {
    match Parse(id)
    case Some(k) =>
      DisplayVersionChars(k.version);
      JsonFileIsNoDots(k.hash);
      assert PathFor(sha, id)[0] == k.circuit;
    case None =>
      JsonFileIsNoDots(HexEncode(sha(Utf8(id))));
  }

  /** Such an id can be formed, as `..` is an accepted circuit id. */
  lemma ClimbingId(sha: Hasher, version: Version, hash: Digest256)
    ensures NewCircuitId("..") == Ok("..")
    ensures PathFor(sha, IdFor(KeyParts("..", version, hash)))[0] == ".."
  {
    CircuitIdAccepted("..");
    IdRoundTrip(KeyParts("..", version, hash));
  }

  class VkStore {
    var files: map<Path, VkDocument>
    const sha: Hasher

    constructor (sha: Hasher)
      ensures files == map[] && this.sha == sha
    {
      files := map[];
      this.sha := sha;
    }

    method Put(id: string, doc: VkDocument) returns (r: Result<(), StoreError>)
      modifies this
      ensures r == if doc.scheme == SCHEME_ULTRA_HONK then Ok(()) else Err(InconsistentArtifacts)
      ensures files == FilesAfterPut(sha, old(files), PutCall(id, doc))
    {
      if doc.scheme != SCHEME_ULTRA_HONK {
        return Err(InconsistentArtifacts);
      }
      files := files[PathFor(sha, id) := doc];
      r := Ok(());
    }

    method Get(id: string) returns (r: Result<VkDocument, StoreError>)
      ensures r == Lookup(sha, files, id)
    {
      var path := PathFor(sha, id);
      if path !in files {
        return Err(MissingFile(path));
      }
      var doc := files[path];
      if doc.scheme != SCHEME_ULTRA_HONK {
        return Err(MalformedArtifact(path));
      }
      r := Ok(doc);
    }

    method ContainsKey(id: string) returns (found: bool)
      ensures found <==> PathFor(sha, id) in files
    {
      found := PathFor(sha, id) in files;
    }
  }

  function Lookup(sha: Hasher, files: map<Path, VkDocument>, id: string): Result<VkDocument, StoreError> {
    var path := PathFor(sha, id);
    if path !in files then Err(MissingFile(path))
    else if files[path].scheme != SCHEME_ULTRA_HONK then Err(MalformedArtifact(path))
    else Ok(files[path])
  }

  // ---------- Runs of puts ----------

  datatype PutCall = PutCall(id: string, doc: VkDocument)

  function FilesAfterPut(sha: Hasher, files: map<Path, VkDocument>, put: PutCall): map<Path, VkDocument> {
    if put.doc.scheme == SCHEME_ULTRA_HONK then files[PathFor(sha, put.id) := put.doc] else files
  }

  function FilesAfter(sha: Hasher, puts: seq<PutCall>): map<Path, VkDocument> {
    if puts == [] then map[]
    else FilesAfterPut(sha, FilesAfter(sha, puts[..|puts| - 1]), puts[|puts| - 1])
  }

  /** The last accepted document put under the same identity, if there is one. */
  function LastPut(sha: Hasher, puts: seq<PutCall>, identity: Identity): Option<VkDocument> {
    if puts == [] then None
    else
      var last := puts[|puts| - 1];
      if last.doc.scheme == SCHEME_ULTRA_HONK && IdentityOf(sha, last.id) == identity then Some(last.doc)
      else LastPut(sha, puts[..|puts| - 1], identity)
  }

  lemma {:induction false} LookupIsLastPut(sha: Hasher, puts: seq<PutCall>, id: string)
    ensures PathFor(sha, id) in FilesAfter(sha, puts) <==> LastPut(sha, puts, IdentityOf(sha, id)).Some?
    ensures PathFor(sha, id) in FilesAfter(sha, puts) ==>
              LastPut(sha, puts, IdentityOf(sha, id)) == Some(FilesAfter(sha, puts)[PathFor(sha, id)])
  {
    if puts != [] {
      var n := |puts| - 1;
      LookupIsLastPut(sha, puts[..n], id);
      SamePathSameIdentity(sha, puts[n].id, id);
      hide PathFor, IdentityOf;
    }
  }

  lemma SamePathSameIdentity(sha: Hasher, a: string, b: string)
    ensures PathFor(sha, a) == PathFor(sha, b) <==> IdentityOf(sha, a) == IdentityOf(sha, b)
  {
    SharedPaths(sha, a, b);
  }

  lemma {:induction false} LastPutScheme(sha: Hasher, puts: seq<PutCall>, identity: Identity)
    ensures LastPut(sha, puts, identity).Some? ==>
              LastPut(sha, puts, identity).value.scheme == SCHEME_ULTRA_HONK
  {
    if puts != [] {
      LastPutScheme(sha, puts[..|puts| - 1], identity);
    }
  }

  /** Every path in use belongs to some id that was put. */
  lemma {:induction false} PathComesFromPut(sha: Hasher, puts: seq<PutCall>, path: Path) returns (i: nat)
    requires path in FilesAfter(sha, puts)
    ensures i < |puts| && PathFor(sha, puts[i].id) == path
  {
    var n := |puts| - 1;
    if path in FilesAfter(sha, puts[..n]) {
      i := PathComesFromPut(sha, puts[..n], path);
    } else {
      i := n;
    }
  }

  /**
   After any sequence of puts, every id reads back the last accepted document put under its
   identity, or is missing when there is none.
   */
  lemma StoreRefinesMap(sha: Hasher, puts: seq<PutCall>, id: string)
    ensures Lookup(sha, FilesAfter(sha, puts), id) ==
            match LastPut(sha, puts, IdentityOf(sha, id))
            case Some(doc) => Ok(doc)
            case None => Err(MissingFile(PathFor(sha, id)))
  {
    LookupIsLastPut(sha, puts, id);
    LastPutScheme(sha, puts, IdentityOf(sha, id));
  }

  /** Nothing else is stored: every file belongs to a put id and carries the UltraHonk scheme. */
  lemma StoreHoldsOnlyPuts(sha: Hasher, puts: seq<PutCall>, path: Path)
    requires path in FilesAfter(sha, puts)
    ensures exists i :: 0 <= i < |puts| && PathFor(sha, puts[i].id) == path
    ensures FilesAfter(sha, puts)[path].scheme == SCHEME_ULTRA_HONK
  {
    var i := PathComesFromPut(sha, puts, path);
    StoreRefinesMap(sha, puts, puts[i].id);
    LookupIsLastPut(sha, puts, puts[i].id);
    LastPutScheme(sha, puts, IdentityOf(sha, puts[i].id));
  }

  // ---------- The layout of the store ----------

  /** A formed id is filed under its circuit, its version and its checksum; any other under its hash. */
  lemma StoreLayout(sha: Hasher, k: KeyParts, id: string)
    ensures PathFor(sha, IdFor(k)) == [k.circuit, DisplayVersion(k.version), k.hash + ".json"]
    ensures Parse(id).None? ==> PathFor(sha, id) == ["_foreign", HexEncode(sha(Utf8(id))) + ".json"]
  {
    IdRoundTrip(k);
  }

  /** What a read answers: a missing file, a file of another scheme, or the document. */
  lemma LookupOutcome(sha: Hasher, files: map<Path, VkDocument>, id: string)
    ensures PathFor(sha, id) !in files ==> Lookup(sha, files, id) == Err(MissingFile(PathFor(sha, id)))
    ensures PathFor(sha, id) in files && files[PathFor(sha, id)].scheme != "ultra_honk" ==>
              Lookup(sha, files, id) == Err(MalformedArtifact(PathFor(sha, id)))
    ensures PathFor(sha, id) in files && files[PathFor(sha, id)].scheme == "ultra_honk" ==>
              Lookup(sha, files, id) == Ok(files[PathFor(sha, id)])
  {
    hide PathFor;
  }
}
