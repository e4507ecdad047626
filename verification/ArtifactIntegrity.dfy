/** When loading an artifact succeeds, and what success guarantees. */
module ArtifactIntegrity {
  import opened Outcomes
  import opened Text
  import opened Hex
  import opened Requests
  import opened FileTree
  import opened Artifacts

  /** The declared file is on disk with exactly the declared digest. */
  predicate OnDisk(sha: Hasher, es: seq<DirEntry>, f: ManifestFile) {
    var bytes := ReadFile(es, Split(f.path, '/'));
    bytes.Some? && Checksum(sha, bytes.value) == f.sha256
  }

  predicate AllOnDisk(sha: Hasher, es: seq<DirEntry>, fs: seq<ManifestFile>) {
    forall i :: 0 <= i < |fs| ==> OnDisk(sha, es, fs[i])
  }

  predicate Accounted(fs: seq<ManifestFile>, rel: string) {
    rel == MANIFEST_FILENAME || Declares(fs, rel)
  }

  /** Every file that can be read below the root is reported under an accounted name. */
  ghost predicate AllAccounted(es: seq<DirEntry>, fs: seq<ManifestFile>) {
    forall path :: IsFileAt(es, path) ==> Accounted(fs, Reported(path))
  }

  lemma {:induction false} FirstUndeclaredNone(rels: seq<string>, fs: seq<ManifestFile>)
    ensures FirstUndeclared(rels, fs).None? <==> forall i :: 0 <= i < |rels| ==> Accounted(fs, rels[i])
  {
    if rels != [] {
      FirstUndeclaredNone(rels[1..], fs);
      assert rels == [rels[0]] + rels[1..];
    }
  }

  lemma WalkAccounted(es: seq<DirEntry>, fs: seq<ManifestFile>)
    requires WellFormed(es)
    ensures FirstUndeclared(ReportedAll(Walk([], es)), fs).None? <==> AllAccounted(es, fs)
  {
    var paths := Walk([], es);
    FirstUndeclaredNone(ReportedAll(paths), fs);
    if FirstUndeclared(ReportedAll(paths), fs).None? {
      forall path | IsFileAt(es, path) ensures Accounted(fs, Reported(path)) {
        WalkListsFiles([], es, path);
        assert [] + path == path;
        var i :| 0 <= i < |paths| && paths[i] == path;
        assert ReportedAll(paths)[i] == Reported(path);
      }
    }
    if AllAccounted(es, fs) {
      forall i | 0 <= i < |paths| ensures Accounted(fs, ReportedAll(paths)[i]) {
        assert paths[i] in paths;
        WalkBelow([], es, paths[i]);
        WalkListsFiles([], es, paths[i]);
        assert [] + paths[i] == paths[i];
      }
    }
  }

  lemma SortKeepsMembers(fs: seq<ManifestFile>)
    ensures forall path :: Declares(SortByPath(fs), path) <==> Declares(fs, path)
    ensures forall g :: g in SortByPath(fs) <==> g in fs
  {
    SortIsStable(fs, "");
    var s := SortByPath(fs);
    forall path ensures Declares(s, path) <==> Declares(fs, path) {
      if Declares(s, path) {
        var i :| 0 <= i < |s| && s[i].path == path;
        assert s[i] in fs;
      }
      if Declares(fs, path) {
        var i :| 0 <= i < |fs| && fs[i].path == path;
        assert fs[i] in s;
      }
    }
  }

  lemma {:induction false} ReadAllOutcome(sha: Hasher, es: seq<DirEntry>, fs: seq<ManifestFile>)
    requires AllSafe(fs)
    ensures ReadAll(sha, es, fs).Ok? <==> AllOnDisk(sha, es, fs)
    ensures ReadAll(sha, es, fs).Ok? ==>
              var files := ReadAll(sha, es, fs).value;
              && |files| == |fs|
              && forall i :: 0 <= i < |fs| ==>
                   files[i].0 == fs[i].path && ReadFile(es, Split(fs[i].path, '/')) == Some(files[i].1)
  {
    if fs != [] {
      ReadAllOutcome(sha, es, fs[1..]);
      assert ReadVerified(sha, es, fs[0]).Ok? <==> OnDisk(sha, es, fs[0]);
      hide OnDisk, IsSafe, ReadFile, Split;
      assert fs == [fs[0]] + fs[1..];
    }
  }

  /**
   A load succeeds exactly when the version is supported, every declared path is safe, every
   declared file is on disk with its digest, and, in strict mode, every file below the root
   is reported as the root manifest or under a declared name.
   */
  lemma LoadSucceedsIff(sha: Hasher, strict: bool, es: seq<DirEntry>, m: Manifest)
    requires WellFormed(es)
    ensures Loaded(sha, strict, es, Some(m)).Ok? <==>
            && m.version == MANIFEST_SCHEMA_VERSION
            && AllSafe(m.files)
            && AllOnDisk(sha, es, m.files)
            && (strict ==> AllAccounted(es, m.files))
  {
    FirstUnsafeNone(m.files);
    var sorted := SortByPath(m.files);
    SortKeepsMembers(m.files);
    if m.version == MANIFEST_SCHEMA_VERSION && AllSafe(m.files) {
      SortedSafe(m.files);
      ReadAllOutcome(sha, es, sorted);
      SortedOnDisk(sha, es, m.files);
      WalkAccounted(es, sorted);
      assert AllAccounted(es, sorted) <==> AllAccounted(es, m.files);
    }
  }

  lemma SortedSafe(fs: seq<ManifestFile>)
    requires AllSafe(fs)
    ensures AllSafe(SortByPath(fs))
  {
    SortKeepsMembers(fs);
    forall i | 0 <= i < |SortByPath(fs)| ensures IsSafe(SortByPath(fs)[i].path) {
      assert SortByPath(fs)[i] in fs;
    }
  }

  lemma SortedOnDisk(sha: Hasher, es: seq<DirEntry>, fs: seq<ManifestFile>)
    ensures AllOnDisk(sha, es, SortByPath(fs)) <==> AllOnDisk(sha, es, fs)
  {
    SortKeepsMembers(fs);
    var s := SortByPath(fs);
    if AllOnDisk(sha, es, s) {
      forall i | 0 <= i < |fs| ensures OnDisk(sha, es, fs[i]) {
        assert fs[i] in s;
      }
    }
    if AllOnDisk(sha, es, fs) {
      forall i | 0 <= i < |s| ensures OnDisk(sha, es, s[i]) {
        assert s[i] in fs;
      }
    }
  }

  /** From the root alone, the manifest must also be there and parse. */
  lemma LoadFromRootIff(sha: Hasher, strict: bool, es: seq<DirEntry>, parse: seq<byte> -> Option<Manifest>)
    requires WellFormed(es)
    ensures LoadedFromRoot(sha, strict, es, parse).Ok? <==>
            && IsFileAt(es, [MANIFEST_FILENAME])
            && var parsed := parse(Lookup(es, [MANIFEST_FILENAME]).value.bytes);
               && parsed.Some?
               && parsed.value.version == MANIFEST_SCHEMA_VERSION
               && AllSafe(parsed.value.files)
               && AllOnDisk(sha, es, parsed.value.files)
               && (strict ==> AllAccounted(es, parsed.value.files))
  {
    if IsFileAt(es, [MANIFEST_FILENAME]) {
      var parsed := parse(Lookup(es, [MANIFEST_FILENAME]).value.bytes);
      if parsed.Some? {
        LoadSucceedsIff(sha, strict, es, parsed.value);
      }
    }
  }

  // ---------- What a loaded artifact returns ----------

  /** `LoadedArtifact::file`: the first verified file under a path. */
  function FileIn(files: seq<(string, seq<byte>)>, path: string): Option<seq<byte>> {
    if files == [] then None
    else if files[0].0 == path then Some(files[0].1)
    else FileIn(files[1..], path)
  }

  /** `ArtifactManifest::file_checksum`: the first declared digest of a path. */
  function FileChecksum(fs: seq<ManifestFile>, path: string): Option<Digest256> {
    if fs == [] then None
    else if fs[0].path == path then Some(fs[0].sha256)
    else FileChecksum(fs[1..], path)
  }

  lemma {:induction false} FilesMatchManifest(sha: Hasher, es: seq<DirEntry>, fs: seq<ManifestFile>, path: string)
    requires ReadAll(sha, es, fs).Ok?
    ensures match FileIn(ReadAll(sha, es, fs).value, path)
            case None => FileChecksum(fs, path) == None && !Declares(fs, path)
            case Some(bytes) =>
              && FileChecksum(fs, path) == Some(Checksum(sha, bytes))
              && ReadFile(es, Split(path, '/')) == Some(bytes)
              && IsSafe(path) && Declares(fs, path)
  {
    if fs != [] {
      var files := ReadAll(sha, es, fs).value;
      var rest := ReadAll(sha, es, fs[1..]).value;
      assert files[0].0 == fs[0].path && files[1..] == rest;
      FilesMatchManifest(sha, es, fs[1..], path);
      assert fs == [fs[0]] + fs[1..];
    }
  }

  /**
   After a load, exactly the declared paths can be asked for, and each answer is the bytes on
   disk at that path, hashing to the digest the manifest gives for it.
   */
  lemma LoadedFilesAreVerified(sha: Hasher, strict: bool, es: seq<DirEntry>, m: Manifest, path: string)
    requires Loaded(sha, strict, es, Some(m)).Ok?
    ensures var a := Loaded(sha, strict, es, Some(m)).value;
            match FileIn(a.files, path)
            case None => FileChecksum(a.manifest.files, path) == None && !Declares(m.files, path)
            case Some(bytes) =>
              && FileChecksum(a.manifest.files, path) == Some(Checksum(sha, bytes))
              && ReadFile(es, Split(path, '/')) == Some(bytes)
              && IsSafe(path) && Declares(m.files, path)
  {
    FilesMatchManifest(sha, es, SortByPath(m.files), path);
    SortKeepsMembers(m.files);
  }

  // ---------- How far the strict guarantee reaches ----------

  predicate HasBackslash(path: Path) {
    exists i :: 0 <= i < |path| && Contains(path[i], '\\')
  }

  ghost predicate SomeFileHasBackslash(es: seq<DirEntry>) {
    exists path :: IsFileAt(es, path) && HasBackslash(path)
  }

  /** The documented promise: nothing but the root manifest and the declared files is there. */
  ghost predicate NothingElse(es: seq<DirEntry>, fs: seq<ManifestFile>) {
    forall path :: IsFileAt(es, path) ==> path == [MANIFEST_FILENAME] || IsDeclaredPath(fs, path)
  }

  predicate IsDeclaredPath(fs: seq<ManifestFile>, path: Path) {
    exists i :: 0 <= i < |fs| && Split(fs[i].path, '/') == path
  }

  lemma {:induction false} LookupNames(es: seq<DirEntry>, path: Path)
    requires WellFormed(es) && path != [] && Lookup(es, path).Some?
    ensures Separable(path, '/')
    decreases |path|, |es|
  {
    TailWellFormed(es);
    if es[0].name != path[0] {
      LookupNames(es[1..], path);
    } else if |path| > 1 {
      LookupNames(es[0].node.entries, path[1..]);
      assert path == [path[0]] + path[1..];
    }
  }

  lemma {:induction false} JoinBackslash(path: Path)
    requires path != []
    ensures Contains(Join(path, '/'), '\\') <==> HasBackslash(path)
  {
    if |path| > 1 {
      JoinBackslash(path[1..]);
      var head, tail := path[0], Join(path[1..], '/');
      ContainsAppend(head + ['/'], tail, '\\');
      ContainsAppend(head, ['/'], '\\');
      assert Join(path, '/') == head + ['/'] + tail;
      assert !Contains(['/'], '\\');
      if HasBackslash(path) && !Contains(head, '\\') {
        var i :| 0 <= i < |path| && Contains(path[i], '\\');
        assert path[1..][i - 1] == path[i];
      }
      if HasBackslash(path[1..]) {
        var i :| 0 <= i < |path[1..]| && Contains(path[1..][i], '\\');
        assert path[i + 1] == path[1..][i];
      }
    }
  }

  lemma ContainsAppend(a: string, b: string, c: char)
    ensures Contains(a + b, c) <==> Contains(a, c) || Contains(b, c)
  {
    if Contains(a, c) {
      var i :| 0 <= i < |a| && a[i] == c;
      assert (a + b)[i] == c;
    }
    if Contains(b, c) {
      var i :| 0 <= i < |b| && b[i] == c;
      assert (a + b)[|a| + i] == c;
    }
  }

  lemma PlainPathReported(path: Path)
    requires path != [] && !HasBackslash(path)
    ensures Reported(path) == Join(path, '/')
  {
    JoinBackslash(path);
  }

  lemma ManifestNamePlain()
    ensures !Contains(MANIFEST_FILENAME, '/') && !Contains(MANIFEST_FILENAME, '\\')
  {
  }

  lemma ManifestPath(path: Path)
    requires Separable(path, '/') && Join(path, '/') == MANIFEST_FILENAME
    ensures path == [MANIFEST_FILENAME]
  {
    ManifestNamePlain();
    JoinInjective(path, [MANIFEST_FILENAME], '/');
  }

  /** A path without backslashes is accounted for only by its own components. */
  lemma PlainPathAccounted(fs: seq<ManifestFile>, path: Path)
    requires Separable(path, '/') && !HasBackslash(path) && Accounted(fs, Reported(path))
    ensures path == [MANIFEST_FILENAME] || IsDeclaredPath(fs, path)
  {
    hide HasBackslash, Reported, Join, Split;
    PlainPathReported(path);
    if Declares(fs, Reported(path)) {
      var i :| 0 <= i < |fs| && fs[i].path == Reported(path);
      SplitJoin(path, '/');
      assert Split(fs[i].path, '/') == path;
    } else {
      ManifestPath(path);
    }
  }

  lemma BackslashNeverDeclared(fs: seq<ManifestFile>, path: Path)
    requires AllSafe(fs) && HasBackslash(path)
    ensures path != [MANIFEST_FILENAME] && !IsDeclaredPath(fs, path)
  {
    ManifestNamePlain();
    forall i | 0 <= i < |fs| ensures Split(fs[i].path, '/') != path {
      JoinSplit(fs[i].path, '/');
      if Split(fs[i].path, '/') == path {
        JoinBackslash(path);
      }
    }
  }

  /**
   A successful strict load keeps the documented promise exactly when no file on disk has a
   backslash in its path: the walk reports a backslash as a separator, so such a file can
   pass under a declared name without being declared.
   */
  lemma StrictGuaranteeIff(sha: Hasher, es: seq<DirEntry>, m: Manifest)
    requires WellFormed(es) && Loaded(sha, true, es, Some(m)).Ok?
    ensures NothingElse(es, m.files) <==> !SomeFileHasBackslash(es)
  {
    LoadSucceedsIff(sha, true, es, m);
    if !SomeFileHasBackslash(es) {
      forall path | IsFileAt(es, path)
        ensures path == [MANIFEST_FILENAME] || IsDeclaredPath(m.files, path)
      {
        LookupNames(es, path);
        PlainPathAccounted(m.files, path);
      }
    } else {
      var path :| IsFileAt(es, path) && HasBackslash(path);
      BackslashNeverDeclared(m.files, path);
    }
  }

  const PLAIN_ENTRY := DirEntry("b", File([]))
  const ODD_ENTRY := DirEntry("a\\b", File([1]))
  const ODD_TREE := [DirEntry("a", Dir([PLAIN_ENTRY])), ODD_ENTRY]

  /** Such a directory exists: `a/b` is declared, and a file named `a\b` at the root goes unnoticed. */
  lemma BackslashFileGoesUnnoticed(sha: Hasher, provenance: Provenance) returns (m: Manifest)
    ensures WellFormed(ODD_TREE) && Loaded(sha, true, ODD_TREE, Some(m)).Ok?
    ensures IsFileAt(ODD_TREE, ["a\\b"]) && !IsDeclaredPath(m.files, ["a\\b"])
  {
    m := Manifest(1, provenance, [ManifestFile("a/b", Checksum(sha, []), None)]);
    OddTreeFiles();
    SafeSlash();
    assert AllOnDisk(sha, ODD_TREE, m.files);
    forall path | IsFileAt(ODD_TREE, path) ensures Accounted(m.files, Reported(path)) {
      OddTreeReported(path);
      assert m.files[0].path == "a/b";
    }
    LoadSucceedsIff(sha, true, ODD_TREE, m);
  }

  lemma SafeSlash()
    ensures Split("a/b", '/') == ["a", "b"] && IsSafe("a/b")
  {
    assert ["a", "b"][1..] == ["b"];
    assert Join(["a", "b"], '/') == "a/b";
    SplitJoin(["a", "b"], '/');
  }

  lemma SingleLookup(e: DirEntry, path: Path)
    requires path != [] && e.node.File?
    ensures Lookup([e], path) == if path == [e.name] then Some(e.node) else None
  {
    assert [e][1..] == [];
    assert |path| == 1 ==> path == [path[0]];
  }

  lemma OddTreeFiles()
    ensures WellFormed(ODD_TREE)
    ensures ReadFile(ODD_TREE, ["a", "b"]) == Some([])
    ensures IsFileAt(ODD_TREE, ["a\\b"])
  {
    assert WellFormed([PLAIN_ENTRY]);
    assert ODD_TREE[1..] == [ODD_ENTRY];
    assert ["a", "b"][1..] == ["b"];
    SingleLookup(PLAIN_ENTRY, ["b"]);
    SingleLookup(ODD_ENTRY, ["a\\b"]);
  }

  lemma OddTreeReported(path: Path)
    requires IsFileAt(ODD_TREE, path)
    ensures Reported(path) == "a/b"
  {
    assert ODD_TREE[1..] == [ODD_ENTRY];
    if path[0] == "a" {
      SingleLookup(PLAIN_ENTRY, path[1..]);
      assert path == ["a"] + path[1..] == ["a", "b"];
      assert ["a", "b"][1..] == ["b"];
      assert Join(path, '/') == "a/b";
      assert Slashed("a/b") == "a/b";
    } else {
      SingleLookup(ODD_ENTRY, path);
      assert Slashed("a\\b") == "a/b";
    }
  }

  // ---------- Which error a failed load reports ----------

  lemma {:induction false} FirstUnsafeIs(fs: seq<ManifestFile>, k: nat)
    requires k < |fs| && !IsSafe(fs[k].path) && forall i :: 0 <= i < k ==> IsSafe(fs[i].path)
    ensures FirstUnsafe(fs) == Some(fs[k].path)
  {
    hide IsSafe;
    if k > 0 {
      assert fs[1..][k - 1] == fs[k];
      assert forall i :: 0 <= i < k - 1 ==> fs[1..][i] == fs[i + 1];
      FirstUnsafeIs(fs[1..], k - 1);
    }
  }

  /** First of all the version, then the first unsafe path in the order of the manifest. */
  lemma ManifestFaults(sha: Hasher, strict: bool, es: seq<DirEntry>, m: Manifest, k: nat)
    ensures Loaded(sha, strict, es, None) == Err(MalformedManifest)
    ensures m.version != 1 ==> Loaded(sha, strict, es, Some(m)) == Err(UnsupportedManifestVersion(m.version, 1))
    ensures m.version == 1 && k < |m.files| && !IsSafe(m.files[k].path)
            && (forall i :: 0 <= i < k ==> IsSafe(m.files[i].path)) ==>
              Loaded(sha, strict, es, Some(m)) == Err(UnsafePath(m.files[k].path))
  {
    hide IsSafe, FirstUnsafe;
    if m.version == 1 && k < |m.files| && !IsSafe(m.files[k].path)
       && (forall i :: 0 <= i < k ==> IsSafe(m.files[i].path)) {
      FirstUnsafeIs(m.files, k);
    }
  }

  lemma {:induction false} FirstUndeclaredIs(rels: seq<string>, fs: seq<ManifestFile>, k: nat)
    requires k < |rels| && !Accounted(fs, rels[k]) && forall i :: 0 <= i < k ==> Accounted(fs, rels[i])
    ensures FirstUndeclared(rels, fs) == Some(rels[k])
  {
    if k > 0 {
      assert rels[1..][k - 1] == rels[k];
      assert forall i :: 0 <= i < k - 1 ==> rels[1..][i] == rels[i + 1];
      FirstUndeclaredIs(rels[1..], fs, k - 1);
    }
  }

  /** Then, in strict mode, the first listed file that is not accounted for. */
  lemma FirstExtraReported(sha: Hasher, es: seq<DirEntry>, m: Manifest, k: nat)
    requires m.version == 1 && AllSafe(m.files)
    requires var rels := ReportedAll(Walk([], es));
             k < |rels| && !Accounted(m.files, rels[k]) && forall i :: 0 <= i < k ==> Accounted(m.files, rels[i])
    ensures Loaded(sha, true, es, Some(m)) == Err(UnexpectedFile(ReportedAll(Walk([], es))[k]))
  {
    hide IsSafe, Walk;
    FirstUnsafeNone(m.files);
    SortKeepsMembers(m.files);
    var rels, sorted := ReportedAll(Walk([], es)), SortByPath(m.files);
    assert forall i :: 0 <= i <= k ==> (Accounted(sorted, rels[i]) <==> Accounted(m.files, rels[i]));
    FirstUndeclaredIs(rels, sorted, k);
  }

  lemma {:induction false} FirstReadFailureIs(sha: Hasher, es: seq<DirEntry>, fs: seq<ManifestFile>, k: nat)
    requires AllSafe(fs) && k < |fs| && !OnDisk(sha, es, fs[k]) && forall i :: 0 <= i < k ==> OnDisk(sha, es, fs[i])
    ensures ReadAll(sha, es, fs) == Err(
              match ReadFile(es, Split(fs[k].path, '/'))
              case None => ReadFailure(fs[k].path)
              case Some(bytes) => ChecksumMismatch(fs[k].path, fs[k].sha256, Checksum(sha, bytes)))
  {
    assert IsSafe(fs[k].path) && IsSafe(fs[0].path);
    hide IsSafe, ReadFile, Split, Checksum;
    if k > 0 {
      assert fs[1..][k - 1] == fs[k];
      assert forall i :: 0 <= i < |fs| - 1 ==> fs[1..][i] == fs[i + 1];
      FirstReadFailureIs(sha, es, fs[1..], k - 1);
      assert OnDisk(sha, es, fs[0]);
    }
  }

  /** Last the first declared file, in path order, that is missing or has another digest. */
  lemma FirstBadFileReported(sha: Hasher, strict: bool, es: seq<DirEntry>, m: Manifest, k: nat)
    requires WellFormed(es) && m.version == 1 && AllSafe(m.files)
    requires strict ==> AllAccounted(es, m.files)
    requires var fs := SortByPath(m.files);
             k < |fs| && !OnDisk(sha, es, fs[k]) && forall i :: 0 <= i < k ==> OnDisk(sha, es, fs[i])
    ensures var f := SortByPath(m.files)[k];
            Loaded(sha, strict, es, Some(m)) == Err(
              match ReadFile(es, Split(f.path, '/'))
              case None => ReadFailure(f.path)
              case Some(bytes) => ChecksumMismatch(f.path, f.sha256, Checksum(sha, bytes)))
  {
    hide IsSafe, ReadFile, Split, Checksum, OnDisk, Walk, ReadAll, SortByPath;
    FirstUnsafeNone(m.files);
    SortedSafe(m.files);
    SortKeepsMembers(m.files);
    var sorted := SortByPath(m.files);
    WalkAccounted(es, sorted);
    assert AllAccounted(es, sorted) <==> AllAccounted(es, m.files);
    FirstReadFailureIs(sha, es, sorted, k);
  }

  /** Before all that, a root without a manifest file. */
  lemma NoManifestReported(sha: Hasher, strict: bool, es: seq<DirEntry>, parse: seq<byte> -> Option<Manifest>)
    requires !IsFileAt(es, ["manifest.json"])
    ensures LoadedFromRoot(sha, strict, es, parse) == Err(ReadFailure("manifest.json"))
  {
  }
}
