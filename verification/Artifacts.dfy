/**
 The integrity-gated artifact loader: a manifest is validated and sorted, the directory is
 checked against it in both directions, and only verified bytes are returned.
 */
module Artifacts {
  import opened Outcomes
  import opened Text
  import opened Hex
  import opened Circuits
  import opened Requests
  import opened FileTree

  const MANIFEST_SCHEMA_VERSION := 1
  const MANIFEST_FILENAME := "manifest.json"

  datatype ManifestFile = ManifestFile(path: string, sha256: Digest256, kind: Option<string>)

  /** What a manifest says besides its files; the loader never interprets it. */
  datatype Provenance = Provenance(
    circuit: string,
    circuitVersion: Version,
    artifactVersion: Version,
    backend: string,
    keyId: Option<string>,
    metadata: map<string, string>)

  datatype Manifest = Manifest(version: u32, provenance: Provenance, files: seq<ManifestFile>)

  datatype LoadedArtifact = LoadedArtifact(manifest: Manifest, files: seq<(string, seq<byte>)>)

  datatype ArtifactError =
    | MalformedManifest
    | UnsupportedManifestVersion(declared: u32, supported: u32)
    | UnexpectedFile(path: string)
    | ChecksumMismatch(path: string, expected: Digest256, actual: Digest256)
    | UnsafePath(path: string)
    | ReadFailure(path: string)

  // ---------- Safe paths ----------

  predicate IsSafe(path: string) {
    && path != "" && path[0] != '/'
    && !Contains(path, '\\') && !Contains(path, '\0')
    && forall i :: 0 <= i < |Split(path, '/')| ==> Split(path, '/')[i] !in ["", ".", ".."]
  }

  /** The components below the root that a declared path resolves to. */
  function ResolveSafe(path: string): Result<Path, ArtifactError> {
    if !IsSafe(path) then Err(UnsafePath(path)) else Ok(Split(path, '/'))
  }

  // ---------- Sorting by path ----------

  /** Byte order on UTF-8 text, which is code-point order. */
  predicate LeqText(a: string, b: string) {
    a == "" || (b != "" && (a[0] < b[0] || (a[0] == b[0] && LeqText(a[1..], b[1..]))))
  }

  function Insert(f: ManifestFile, fs: seq<ManifestFile>): seq<ManifestFile> {
    if fs == [] || LeqText(f.path, fs[0].path) then [f] + fs else [fs[0]] + Insert(f, fs[1..])
  }

  /** A stable sort. */
  function SortByPath(fs: seq<ManifestFile>): seq<ManifestFile> {
    if fs == [] then [] else Insert(fs[0], SortByPath(fs[1..]))
  }

  predicate IsSorted(fs: seq<ManifestFile>) {
    forall i, j :: 0 <= i < j < |fs| ==> LeqText(fs[i].path, fs[j].path)
  }

  /** The entries declared under one path, in order. */
  function Select(fs: seq<ManifestFile>, path: string): seq<ManifestFile> {
    if fs == [] then []
    else (if fs[0].path == path then [fs[0]] else []) + Select(fs[1..], path)
  }

  lemma {:induction false} LeqTextReflexive(a: string)
    ensures LeqText(a, a)
  {
    if a != "" {
      LeqTextReflexive(a[1..]);
    }
  }

  lemma {:induction false} LeqTextTotal(a: string, b: string)
    ensures LeqText(a, b) || LeqText(b, a)
  {
    if a != "" && b != "" && a[0] == b[0] {
      LeqTextTotal(a[1..], b[1..]);
    }
  }

  lemma {:induction false} LeqTextTransitive(a: string, b: string, c: string)
    requires LeqText(a, b) && LeqText(b, c)
    ensures LeqText(a, c)
  {
    if a != "" && a[0] == b[0] == c[0] {
      LeqTextTransitive(a[1..], b[1..], c[1..]);
    }
  }

  lemma {:induction false} LeqTextAntisymmetric(a: string, b: string)
    requires LeqText(a, b) && LeqText(b, a)
    ensures a == b
  {
    if a != "" {
      LeqTextAntisymmetric(a[1..], b[1..]);
      assert a == [a[0]] + a[1..] && b == [b[0]] + b[1..];
    }
  }

  lemma {:induction false} InsertSorted(f: ManifestFile, fs: seq<ManifestFile>)
    requires IsSorted(fs)
    ensures IsSorted(Insert(f, fs))
    ensures forall g :: g in Insert(f, fs) <==> g == f || g in fs
  {
    if fs == [] || LeqText(f.path, fs[0].path) {
      forall j | 0 <= j < |fs| ensures LeqText(f.path, fs[j].path) {
        if j > 0 {
          LeqTextTransitive(f.path, fs[0].path, fs[j].path);
        }
      }
    } else {
      LeqTextTotal(f.path, fs[0].path);
      InsertSorted(f, fs[1..]);
      var rest := Insert(f, fs[1..]);
      forall j | 0 <= j < |rest| ensures LeqText(fs[0].path, rest[j].path) {
        assert rest[j] in rest;
        if rest[j] != f {
          var k :| 0 <= k < |fs[1..]| && fs[1..][k] == rest[j];
          assert fs[k + 1] == rest[j];
        }
      }
    }
  }

  lemma {:induction false} InsertSelect(f: ManifestFile, fs: seq<ManifestFile>, path: string)
    ensures Select(Insert(f, fs), path) == Select([f] + fs, path)
  {
    if fs == [] || LeqText(f.path, fs[0].path) {
    } else {
      InsertSelect(f, fs[1..], path);
      assert ([f] + fs)[1..] == fs && ([f] + fs[1..])[1..] == fs[1..];
      if f.path == fs[0].path {
        LeqTextReflexive(f.path);
      }
    }
  }

  /** Sorting orders the paths and keeps, for each path, its entries in their given order. */
  lemma {:induction false} SortIsStable(fs: seq<ManifestFile>, path: string)
    ensures IsSorted(SortByPath(fs))
    ensures Select(SortByPath(fs), path) == Select(fs, path)
    ensures forall g :: g in SortByPath(fs) <==> g in fs
  {
    if fs != [] {
      SortIsStable(fs[1..], path);
      InsertSorted(fs[0], SortByPath(fs[1..]));
      InsertSelect(fs[0], SortByPath(fs[1..]), path);
      assert fs == [fs[0]] + fs[1..];
      assert ([fs[0]] + SortByPath(fs[1..]))[1..] == SortByPath(fs[1..]);
    }
  }

  ghost predicate SelectAlike(a: seq<ManifestFile>, b: seq<ManifestFile>) {
    forall path :: Select(a, path) == Select(b, path)
  }

  lemma {:induction false} SelectEmpty(fs: seq<ManifestFile>, f: ManifestFile)
    requires f in fs
    ensures Select(fs, f.path) != []
  {
    if fs[0] != f {
      SelectEmpty(fs[1..], f);
    }
  }

  lemma {:induction false} SelectMember(fs: seq<ManifestFile>, path: string)
    requires Select(fs, path) != []
    ensures Select(fs, path)[0] in fs && Select(fs, path)[0].path == path
  {
    if fs[0].path != path {
      SelectMember(fs[1..], path);
    }
  }

  lemma HeadPath(a: seq<ManifestFile>, b: seq<ManifestFile>)
    requires IsSorted(a) && a != [] && b != [] && SelectAlike(a, b)
    ensures LeqText(a[0].path, b[0].path)
  {
    assert b[0] in b;
    SelectEmpty(b, b[0]);
    assert Select(a, b[0].path) == Select(b, b[0].path);
    SelectMember(a, b[0].path);
    var k :| 0 <= k < |a| && a[k].path == b[0].path;
    LeqTextReflexive(b[0].path);
  }

  lemma SelectTail(fs: seq<ManifestFile>, path: string)
    requires fs != []
    ensures Select(fs[1..], path) == if fs[0].path == path then Select(fs, path)[1..] else Select(fs, path)
  {
    assert [] + Select(fs[1..], path) == Select(fs[1..], path);
  }

  /** A sorted list is determined by what it holds under each path. */
  lemma {:induction false} SortedUnique(a: seq<ManifestFile>, b: seq<ManifestFile>)
    requires IsSorted(a) && IsSorted(b) && SelectAlike(a, b)
    ensures a == b
    decreases |a|
  {
    if a == [] || b == [] {
      if b != [] { SelectEmpty(b, b[0]); }
      if a != [] { SelectEmpty(a, a[0]); }
    } else {
      HeadPath(a, b);
      HeadPath(b, a);
      LeqTextAntisymmetric(a[0].path, b[0].path);
      var p := a[0].path;
      assert Select(a, p) == Select(b, p);
      assert Select(a, p)[0] == a[0] && Select(b, p)[0] == b[0];
      forall path ensures Select(a[1..], path) == Select(b[1..], path) {
        assert Select(a, path) == Select(b, path);
        SelectTail(a, path);
        SelectTail(b, path);
      }
      SortedUnique(a[1..], b[1..]);
      assert a == [a[0]] + a[1..] && b == [b[0]] + b[1..];
    }
  }

  /**
   Two file lists sort alike exactly when they hold the same entries, in the same order, under
   each path; so reordering entries with different paths never changes the sorted manifest.
   */
  lemma SortedAlike(a: seq<ManifestFile>, b: seq<ManifestFile>)
    ensures SortByPath(a) == SortByPath(b) <==> SelectAlike(a, b)
  {
    forall path ensures Select(SortByPath(a), path) == Select(a, path)
                     && Select(SortByPath(b), path) == Select(b, path) {
      SortIsStable(a, path);
      SortIsStable(b, path);
    }
    SortIsStable(a, "");
    SortIsStable(b, "");
    if SelectAlike(a, b) {
      assert SelectAlike(SortByPath(a), SortByPath(b));
      SortedUnique(SortByPath(a), SortByPath(b));
    }
    if SortByPath(a) == SortByPath(b) {
      forall path ensures Select(a, path) == Select(b, path) {
        assert Select(SortByPath(a), path) == Select(a, path);
      }
    }
  }

  // ---------- Normalising a manifest ----------

  /** A path listed twice is the exception: then the order in the manifest shows in the result. */
  lemma RepeatedPathKeepsOrder(a: ManifestFile, b: ManifestFile)
    requires a.path == b.path && a != b
    ensures SortByPath([a, b]) == [a, b] && SortByPath([b, a]) == [b, a]
  {
    LeqTextReflexive(a.path);
    assert [a, b][1..] == [b] && [b, a][1..] == [a] && [a][1..] == [] && [b][1..] == [];
    assert SortByPath([b]) == [b] && SortByPath([a]) == [a];
  }

  function FirstUnsafe(fs: seq<ManifestFile>): Option<string> {
    if fs == [] then None
    else if !IsSafe(fs[0].path) then Some(fs[0].path)
    else FirstUnsafe(fs[1..])
  }

  function Normalized(m: Manifest): Result<Manifest, ArtifactError> {
    if m.version != MANIFEST_SCHEMA_VERSION then
      Err(UnsupportedManifestVersion(m.version, MANIFEST_SCHEMA_VERSION))
    else
      match FirstUnsafe(m.files)
      case Some(path) => Err(UnsafePath(path))
      case None => Ok(m.(files := SortByPath(m.files)))
  }

  method Normalize(m: Manifest) returns (r: Result<Manifest, ArtifactError>)
    ensures r == Normalized(m)
  {
    if m.version != MANIFEST_SCHEMA_VERSION {
      return Err(UnsupportedManifestVersion(m.version, MANIFEST_SCHEMA_VERSION));
    }
    for i := 0 to |m.files|
      invariant FirstUnsafe(m.files) == FirstUnsafe(m.files[i..])
    {
      if !IsSafe(m.files[i].path) {
        return Err(UnsafePath(m.files[i].path));
      }
    }
    r := Ok(m.(files := SortByPath(m.files)));
  }

  predicate AllSafe(fs: seq<ManifestFile>) {
    forall i :: 0 <= i < |fs| ==> IsSafe(fs[i].path)
  }

  lemma {:induction false} FirstUnsafeNone(fs: seq<ManifestFile>)
    ensures FirstUnsafe(fs).None? <==> AllSafe(fs)
  {
    if fs != [] {
      FirstUnsafeNone(fs[1..]);
      assert fs == [fs[0]] + fs[1..];
    }
  }

  // ---------- Listing the directory ----------

  function Slashed(s: string): (t: string)
    ensures |t| == |s|
  {
    seq(|s|, i requires 0 <= i < |s| => if s[i] == '\\' then '/' else s[i])
  }

  /** How the walk reports a file: components joined by `/`, and every backslash turned into one. */
  function Reported(path: Path): string {
    if path == [] then "" else Slashed(Join(path, '/'))
  }

  function ReportedAll(paths: seq<Path>): (rels: seq<string>)
    ensures |rels| == |paths|
    ensures forall i :: 0 <= i < |paths| ==> rels[i] == Reported(paths[i])
  {
    seq(|paths|, i requires 0 <= i < |paths| => Reported(paths[i]))
  }

  method CollectFiles(dir: Path, es: seq<DirEntry>, out: seq<string>) returns (found: seq<string>)
    ensures found == out + ReportedAll(Walk(dir, es))
    decreases es
  {
    found := out;
    for i := 0 to |es|
      invariant found + ReportedAll(Walk(dir, es[i..])) == out + ReportedAll(Walk(dir, es))
    {
      var path := dir + [es[i].name];
      WalkStep(dir, es[i..], found);
      assert es[i..][0] == es[i] && es[i..][1..] == es[i + 1..];
      match es[i].node {
        case Dir(sub) => found := CollectFiles(path, sub, found);
        case File(_) => found := found + [Reported(path)];
        case Other =>
      }
    }
    assert found + [] == found;
  }

  lemma WalkStep(dir: Path, es: seq<DirEntry>, found: seq<string>)
    requires es != []
    ensures var path := dir + [es[0].name];
            var rest := ReportedAll(Walk(dir, es[1..]));
            found + ReportedAll(Walk(dir, es)) ==
            match es[0].node
            case Dir(sub) => (found + ReportedAll(Walk(path, sub))) + rest
            case File(_) => (found + [Reported(path)]) + rest
            case Other => found + rest
  {
    var path := dir + [es[0].name];
    var head, tail := WalkNode(path, es[0].node), Walk(dir, es[1..]);
    ReportedAppend(head, tail);
    Associate(found, ReportedAll(head), ReportedAll(tail));
    match es[0].node
    case Dir(sub) =>
    case File(_) => assert ReportedAll([path]) == [Reported(path)];
    case Other => assert found + ReportedAll([]) == found;
  }

  lemma ReportedAppend(a: seq<Path>, b: seq<Path>)
    ensures ReportedAll(a + b) == ReportedAll(a) + ReportedAll(b)
  {
  }

  // ---------- Loading ----------

  predicate Declares(fs: seq<ManifestFile>, path: string) {
    exists i :: 0 <= i < |fs| && fs[i].path == path
  }

  /** The first listed file that the manifest does not account for. */
  function FirstUndeclared(rels: seq<string>, fs: seq<ManifestFile>): Option<string> {
    if rels == [] then None
    else if rels[0] != MANIFEST_FILENAME && !Declares(fs, rels[0]) then Some(rels[0])
    else FirstUndeclared(rels[1..], fs)
  }

  function ReadVerified(sha: Hasher, es: seq<DirEntry>, f: ManifestFile): Result<seq<byte>, ArtifactError> {
    var path :- ResolveSafe(f.path);
    match ReadFile(es, path)
    case None => Err(ReadFailure(f.path))
    case Some(bytes) =>
      var actual := Checksum(sha, bytes);
      if actual != f.sha256 then Err(ChecksumMismatch(f.path, f.sha256, actual)) else Ok(bytes)
  }

  function ReadAll(sha: Hasher, es: seq<DirEntry>, fs: seq<ManifestFile>)
    : (r: Result<seq<(string, seq<byte>)>, ArtifactError>)
  {
    if fs == [] then Ok([])
    else
      var bytes :- ReadVerified(sha, es, fs[0]);
      var rest :- ReadAll(sha, es, fs[1..]);
      Ok([(fs[0].path, bytes)] + rest)
  }

  /** Loading from a directory against a manifest that JSON parsing may have refused. */
  function Loaded(sha: Hasher, strict: bool, es: seq<DirEntry>, parsed: Option<Manifest>)
    : Result<LoadedArtifact, ArtifactError>
  {
    match parsed
    case None => Err(MalformedManifest)
    case Some(m) =>
      var manifest :- Normalized(m);
      var undeclared := FirstUndeclared(ReportedAll(Walk([], es)), manifest.files);
      if strict && undeclared.Some? then Err(UnexpectedFile(undeclared.value))
      else
        var files :- ReadAll(sha, es, manifest.files);
        Ok(LoadedArtifact(manifest, files))
  }

  method LoadWithManifest(sha: Hasher, strict: bool, es: seq<DirEntry>, parsed: Option<Manifest>)
    returns (r: Result<LoadedArtifact, ArtifactError>)
    ensures r == Loaded(sha, strict, es, parsed)
  {
    hide IsSafe, ReadVerified, Walk, Normalized, ReadUpTo;
    if parsed.None? {
      return Err(MalformedManifest);
    }
    var normalized := Normalize(parsed.value);
    if normalized.Err? {
      return Err(normalized.error);
    }
    var manifest := normalized.value;
    if strict {
      var rels := CollectFiles([], es, []);
      for i := 0 to |rels|
        invariant FirstUndeclared(rels, manifest.files) == FirstUndeclared(rels[i..], manifest.files)
      {
        if rels[i] == MANIFEST_FILENAME {
          continue;
        }
        if !Declares(manifest.files, rels[i]) {
          return Err(UnexpectedFile(rels[i]));
        }
      }
    }
    var files := [];
    ReadEnds(sha, es, manifest.files, files);
    for i := 0 to |manifest.files|
      invariant ReadUpTo(sha, es, manifest.files, files, i)
    {
      var bytes := ReadVerified(sha, es, manifest.files[i]);
      ReadStep(sha, es, manifest.files, files, i);
      if bytes.Err? {
        return Err(bytes.error);
      }
      files := files + [(manifest.files[i].path, bytes.value)];
    }
    ReadEnds(sha, es, manifest.files, files);
    r := Ok(LoadedArtifact(manifest, files));
  }

  /** The first `i` declared files have been read and verified. */
  ghost predicate ReadUpTo(sha: Hasher, es: seq<DirEntry>, fs: seq<ManifestFile>,
                           done: seq<(string, seq<byte>)>, i: nat) {
    && i <= |fs|
    && ReadAll(sha, es, fs) == match ReadAll(sha, es, fs[i..])
                               case Ok(rest) => Ok(done + rest)
                               case Err(error) => Err(error)
  }

  lemma ReadEnds(sha: Hasher, es: seq<DirEntry>, fs: seq<ManifestFile>, done: seq<(string, seq<byte>)>)
    ensures ReadUpTo(sha, es, fs, [], 0)
    ensures ReadUpTo(sha, es, fs, done, |fs|) <==> ReadAll(sha, es, fs) == Ok(done)
  {
    assert fs[0..] == fs && fs[|fs|..] == [];
    assert done + [] == done;
    if ReadAll(sha, es, fs).Ok? {
      assert [] + ReadAll(sha, es, fs).value == ReadAll(sha, es, fs).value;
    }
  }

  lemma ReadStep(sha: Hasher, es: seq<DirEntry>, fs: seq<ManifestFile>,
                 done: seq<(string, seq<byte>)>, i: nat)
    requires i < |fs| && ReadUpTo(sha, es, fs, done, i)
    ensures match ReadVerified(sha, es, fs[i])
            case Ok(bytes) => ReadUpTo(sha, es, fs, done + [(fs[i].path, bytes)], i + 1)
            case Err(error) => ReadAll(sha, es, fs) == Err(error)
  {
    hide ReadVerified;
    assert fs[i..][0] == fs[i] && fs[i..][1..] == fs[i + 1..];
    var rest := ReadAll(sha, es, fs[i + 1..]);
    if ReadVerified(sha, es, fs[i]).Ok? && rest.Ok? {
      Associate(done, [(fs[i].path, ReadVerified(sha, es, fs[i]).value)], rest.value);
    }
  }

  /** `load`: the manifest itself is read from the root directory first. */
  function LoadedFromRoot(sha: Hasher, strict: bool, es: seq<DirEntry>, parse: seq<byte> -> Option<Manifest>)
    : Result<LoadedArtifact, ArtifactError>
  {
    match ReadFile(es, [MANIFEST_FILENAME])
    case None => Err(ReadFailure(MANIFEST_FILENAME))
    case Some(bytes) => Loaded(sha, strict, es, parse(bytes))
  }

  // ---------- What the sort order and the path rules mean ----------

  /** The order by path: a prefix comes first, and else the first differing character decides. */
  lemma {:induction false} LeqTextIff(a: string, b: string)
    ensures LeqText(a, b) <==>
            || a <= b
            || exists i :: 0 <= i < |a| && i < |b| && a[..i] == b[..i] && a[i] < b[i]
  {
    forall i | 0 < i <= |a| && i <= |b| ensures a[..i] == b[..i] ==> a[0] == b[0] {
      assert a[..i][0] == a[0] && b[..i][0] == b[0];
    }
    if a != "" && b != "" && a[0] == b[0] {
      LeqTextIff(a[1..], b[1..]);
      assert a == [a[0]] + a[1..] && b == [b[0]] + b[1..];
      if i :| 0 <= i < |a[1..]| && i < |b[1..]| && a[1..][..i] == b[1..][..i] && a[1..][i] < b[1..][i] {
        assert a[..i + 1] == [a[0]] + a[1..][..i] && b[..i + 1] == [b[0]] + b[1..][..i];
        assert a[i + 1] < b[i + 1];
      }
      if i :| 0 <= i < |a| && i < |b| && a[..i] == b[..i] && a[i] < b[i] {
        assert i > 0;
        assert a[1..][..i - 1] == a[..i][1..] && b[1..][..i - 1] == b[..i][1..];
        assert a[1..][i - 1] < b[1..][i - 1];
      }
    } else if a != "" && b != "" {
      assert LeqText(a, b) <==> a[0] < b[0];
      if a[0] < b[0] {
        assert a[..0] == b[..0];
      }
    }
  }

  /** A component a manifest path may have. */
  predicate IsPlainComponent(name: string) {
    && name != "" && name != "." && name != ".."
    && forall i :: 0 <= i < |name| ==> name[i] != '/' && name[i] != '\\' && name[i] != '\0'
  }

  predicate AllPlain(parts: seq<string>) {
    |parts| >= 1 && forall i :: 0 <= i < |parts| ==> IsPlainComponent(parts[i])
  }

  /** The safe paths are exactly the plain components joined by slashes. */
  lemma SafeIffPlainComponents(path: string)
    ensures IsSafe(path) <==> exists parts :: AllPlain(parts) && path == Join(parts, '/')
  {
    hide IsSafe, IsPlainComponent;
    if IsSafe(path) {
      SafeHasPlainParts(path);
    }
    if parts :| AllPlain(parts) && path == Join(parts, '/') {
      PlainPartsAreSafe(parts);
    }
  }

  lemma SafeHasPlainParts(path: string)
    requires IsSafe(path)
    ensures AllPlain(Split(path, '/')) && path == Join(Split(path, '/'), '/')
  {
    var parts := Split(path, '/');
    JoinSplit(path, '/');
    hide Split, Join;
    forall i | 0 <= i < |parts| ensures IsPlainComponent(parts[i]) {
      assert !Contains(parts[i], '/') && parts[i] !in ["", ".", ".."];
      forall k | 0 <= k < |parts[i]| ensures parts[i][k] != '/' && parts[i][k] != '\\' && parts[i][k] != '\0' {
        CharOfPart(parts, '/', i, k);
      }
    }
  }

  lemma PlainPartsAreSafe(parts: seq<string>)
    requires AllPlain(parts)
    ensures IsSafe(Join(parts, '/'))
  {
    forall i | 0 <= i < |parts|
      ensures !Contains(parts[i], '/') && !Contains(parts[i], '\\') && !Contains(parts[i], '\0')
    {
      assert IsPlainComponent(parts[i]);
    }
    assert parts[0] != "" && parts[0][0] != '/' by {
      assert IsPlainComponent(parts[0]);
    }
    SplitJoin(parts, '/');
    JoinedChars(parts, '\\');
    JoinedChars(parts, '\0');
    FirstOfJoin(parts);
    hide Split, Join;
    forall i | 0 <= i < |parts| ensures parts[i] !in ["", ".", ".."] {
      assert IsPlainComponent(parts[i]);
    }
  }

  /** Every character of a part is one of the joined text. */
  lemma {:induction false} CharOfPart(parts: seq<string>, c: char, i: nat, k: nat)
    requires i < |parts| && k < |parts[i]|
    ensures Contains(Join(parts, c), parts[i][k])
  {
    if |parts| > 1 {
      var rest := Join(parts[1..], c);
      if i == 0 {
        assert Join(parts, c)[k] == parts[0][k];
      } else {
        CharOfPart(parts[1..], c, i - 1, k);
        var j :| 0 <= j < |rest| && rest[j] == parts[i][k];
        assert Join(parts, c)[|parts[0]| + 1 + j] == parts[i][k];
      }
    }
  }

  lemma {:induction false} JoinedChars(parts: seq<string>, c: char)
    requires |parts| >= 1 && c != '/' && forall i :: 0 <= i < |parts| ==> !Contains(parts[i], c)
    ensures !Contains(Join(parts, '/'), c)
  {
    if |parts| > 1 {
      JoinedChars(parts[1..], c);
      var whole, rest := Join(parts, '/'), Join(parts[1..], '/');
      forall k | 0 <= k < |whole| ensures whole[k] != c {
        if k > |parts[0]| {
          assert whole[k] == rest[k - |parts[0]| - 1];
        }
      }
    }
  }

  lemma FirstOfJoin(parts: seq<string>)
    requires |parts| >= 1 && parts[0] != ""
    ensures Join(parts, '/') != "" && Join(parts, '/')[0] == parts[0][0]
  {
  }

  // ---------- What normalising and loading return ----------

  /** The same manifest with its entries in path order, each path's in the order given. */
  predicate SortedFrom(result: Manifest, m: Manifest) {
    && result.version == m.version && result.provenance == m.provenance
    && IsSorted(result.files)
    && multiset(result.files) == multiset(m.files)
  }

  lemma {:induction false} InsertMembers(f: ManifestFile, fs: seq<ManifestFile>)
    ensures multiset(Insert(f, fs)) == multiset{f} + multiset(fs)
  {
    if fs == [] || LeqText(f.path, fs[0].path) {
      assert Insert(f, fs) == [f] + fs;
    } else {
      InsertMembers(f, fs[1..]);
      assert fs == [fs[0]] + fs[1..];
    }
  }

  lemma {:induction false} SortMembers(fs: seq<ManifestFile>)
    ensures multiset(SortByPath(fs)) == multiset(fs)
  {
    if fs != [] {
      SortMembers(fs[1..]);
      InsertMembers(fs[0], SortByPath(fs[1..]));
      assert fs == [fs[0]] + fs[1..];
    }
  }

  /** Normalising succeeds exactly for version 1 and safe paths, and then returns the sorted manifest. */
  lemma NormalizedMeaning(m: Manifest, path: string)
    ensures Normalized(m).Ok? <==> m.version == 1 && AllSafe(m.files)
    ensures Normalized(m).Ok? ==>
              && SortedFrom(Normalized(m).value, m)
              && Select(Normalized(m).value.files, path) == Select(m.files, path)
  {
    hide IsSafe;
    FirstUnsafeNone(m.files);
    SortIsStable(m.files, path);
    SortMembers(m.files);
  }

  /** So is the manifest of every loaded artifact. */
  lemma LoadedManifestSorted(sha: Hasher, strict: bool, es: seq<DirEntry>, m: Manifest, path: string)
    requires Loaded(sha, strict, es, Some(m)).Ok?
    ensures var result := Loaded(sha, strict, es, Some(m)).value.manifest;
            SortedFrom(result, m) && Select(result.files, path) == Select(m.files, path)
  {
    hide IsSafe, ReadAll, SortedFrom, Normalized;
    NormalizedMeaning(m, path);
  }
}
