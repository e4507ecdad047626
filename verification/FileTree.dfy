/** A finite directory tree, reading files by component path, and the recursive listing of its files. */
module FileTree {
  import opened Outcomes
  import opened Text
  import opened Hex

  /** `Other` is whatever is neither a directory nor a regular file; the walk skips it. */
  datatype Node = File(bytes: seq<byte>) | Dir(entries: seq<DirEntry>) | Other

  datatype DirEntry = DirEntry(name: string, node: Node)

  type Path = seq<string>

  /** What the operating system guarantees of a directory entry's name. */
  predicate IsFileName(name: string) {
    name != "" && name != "." && name != ".." && !Contains(name, '/')
  }

  predicate DistinctNames(es: seq<DirEntry>) {
    forall i, j :: 0 <= i < j < |es| ==> es[i].name != es[j].name
  }

  predicate WellFormed(es: seq<DirEntry>)
    decreases es
  {
    && DistinctNames(es)
    && (forall i :: 0 <= i < |es| ==> IsFileName(es[i].name))
    && (forall i :: 0 <= i < |es| && es[i].node.Dir? ==> WellFormed(es[i].node.entries))
  }

  /** The node that a path of components leads to. */
  function Lookup(es: seq<DirEntry>, path: Path): Option<Node>
    requires path != []
    decreases |path|, |es|
  {
    if es == [] then None
    else if es[0].name != path[0] then Lookup(es[1..], path)
    else if |path| == 1 then Some(es[0].node)
    else if es[0].node.Dir? then Lookup(es[0].node.entries, path[1..])
    else None
  }

  predicate IsFileAt(es: seq<DirEntry>, path: Path) {
    path != [] && Lookup(es, path).Some? && Lookup(es, path).value.File?
  }

  function ReadFile(es: seq<DirEntry>, path: Path): Option<seq<byte>> {
    if IsFileAt(es, path) then Some(Lookup(es, path).value.bytes) else None
  }

  /** Every file below a directory, depth first in directory order, as full paths. */
  function Walk(prefix: Path, es: seq<DirEntry>): seq<Path>
    decreases es
  {
    if es == [] then []
    else WalkNode(prefix + [es[0].name], es[0].node) + Walk(prefix, es[1..])
  }

  function WalkNode(path: Path, node: Node): seq<Path>
    decreases node
  {
    match node
    case File(_) => [path]
    case Dir(es) => Walk(path, es)
    case Other => []
  }

  lemma TailWellFormed(es: seq<DirEntry>)
    requires es != [] && WellFormed(es)
    ensures WellFormed(es[1..])
    ensures es[0].node.Dir? ==> WellFormed(es[0].node.entries)
    ensures forall i :: 0 <= i < |es[1..]| ==> es[1..][i].name != es[0].name
  {
    var tail := es[1..];
    assert forall i :: 0 <= i < |tail| ==> tail[i] == es[i + 1];
  }

  /** Everything listed lies strictly below the prefix. */
  lemma {:induction false} WalkBelow(prefix: Path, es: seq<DirEntry>, q: Path)
    requires q in Walk(prefix, es)
    ensures prefix < q
    ensures exists i :: 0 <= i < |es| && es[i].name == q[|prefix|]
    decreases es
  {
    var below := prefix + [es[0].name];
    if q in WalkNode(below, es[0].node) {
      match es[0].node
      case File(_) => assert q == below;
      case Dir(sub) =>
        WalkBelow(below, sub, q);
        assert q[|prefix|] == below[|prefix|];
      case Other =>
    } else {
      WalkBelow(prefix, es[1..], q);
      var i :| 0 <= i < |es[1..]| && es[1..][i].name == q[|prefix|];
      assert es[i + 1].name == q[|prefix|];
    }
  }

  lemma AbsentName(es: seq<DirEntry>, path: Path)
    requires path != [] && forall i :: 0 <= i < |es| ==> es[i].name != path[0]
    ensures Lookup(es, path).None?
  {
  }

  /** The walk lists exactly the paths at which a file can be read. */
  lemma {:induction false} WalkListsFiles(prefix: Path, es: seq<DirEntry>, path: Path)
    requires WellFormed(es) && path != []
    ensures prefix + path in Walk(prefix, es) <==> IsFileAt(es, path)
    decreases es
  {
    if es != [] {
      TailWellFormed(es);
      WalkListsFiles(prefix, es[1..], path);
      var q, below := prefix + path, prefix + [es[0].name];
      assert q[|prefix|] == path[0] && below[|prefix|] == es[0].name;
      if es[0].name == path[0] {
        HeadListsFiles(prefix, es, path);
        AbsentName(es[1..], path);
      } else if q in WalkNode(below, es[0].node) {
        NodeBelow(below, es[0].node, q);
      }
    }
  }

  lemma {:induction false} NodeBelow(path: Path, node: Node, q: Path)
    requires q in WalkNode(path, node)
    ensures path <= q
  {
    if node.Dir? {
      WalkBelow(path, node.entries, q);
    }
  }

  lemma {:induction false} HeadListsFiles(prefix: Path, es: seq<DirEntry>, path: Path)
    requires es != [] && WellFormed(es) && path != [] && es[0].name == path[0]
    ensures prefix + path in WalkNode(prefix + [es[0].name], es[0].node) <==> IsFileAt(es, path)
    decreases es, 0
  {
    var q, below := prefix + path, prefix + [es[0].name];
    TailWellFormed(es);
    match es[0].node
    case File(_) =>
      assert q == below <==> |path| == 1;
    case Dir(sub) =>
      if |path| == 1 {
        assert q == below;
        if q in Walk(below, sub) {
          WalkBelow(below, sub, q);
        }
      } else {
        assert q == below + path[1..];
        WalkListsFiles(below, sub, path[1..]);
      }
    case Other =>
  }

  predicate NoRepeats<T(==)>(s: seq<T>) {
    forall i, j :: 0 <= i < j < |s| ==> s[i] != s[j]
  }

  lemma NoRepeatsAppend<T>(a: seq<T>, b: seq<T>)
    requires NoRepeats(a) && NoRepeats(b)
    requires forall x :: x in a ==> x !in b
    ensures NoRepeats(a + b)
  {
    var s := a + b;
    forall i, j | 0 <= i < j < |s| ensures s[i] != s[j] {
      if i < |a| <= j {
        assert a[i] in a && b[j - |a|] in b;
      }
    }
  }

  /** The walk lists each file once. */
  lemma {:induction false} WalkNoRepeats(prefix: Path, es: seq<DirEntry>)
    requires WellFormed(es)
    ensures NoRepeats(Walk(prefix, es))
    decreases es
  {
    if es != [] {
      TailWellFormed(es);
      WalkNoRepeats(prefix, es[1..]);
      var below := prefix + [es[0].name];
      var head := WalkNode(below, es[0].node);
      if es[0].node.Dir? {
        WalkNoRepeats(below, es[0].node.entries);
      }
      forall q | q in head ensures q !in Walk(prefix, es[1..]) {
        NodeBelow(below, es[0].node, q);
        assert q[|prefix|] == below[|prefix|] == es[0].name;
        if q in Walk(prefix, es[1..]) {
          WalkBelow(prefix, es[1..], q);
        }
      }
      NoRepeatsAppend(head, Walk(prefix, es[1..]));
    }
  }
}
