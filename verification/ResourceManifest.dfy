/** Manifests of resource trees: the walk that builds one and the walk that checks one. */
module ResourceManifest {
  import opened Prelude
  import opened Digest
  import TextOrder

  datatype Node = File(bytes: seq<Byte>) | Symlink | Special | Dir(entries: map<Text, Node>)

  type Path = seq<Text>

  type Manifest = map<Text, string>

  const SLASH: Rune := 0x2F
  const MAX_ENTRIES := 4096

  /** No name in the tree is empty or holds a slash. */
  predicate WellNamed(n: Node) {
    n.Dir? ==> forall k | k in n.entries :: k != [] && SLASH !in k && WellNamed(n.entries[k])
  }

  // ----- The walk -----

  datatype Entry = Entry(path: Path, node: Node)

  function Under(name: Text, es: seq<Entry>): (r: seq<Entry>)
    ensures |r| == |es| && forall i :: 0 <= i < |r| ==> r[i] == Entry([name] + es[i].path, es[i].node)
  {
    seq(|es|, i requires 0 <= i < |es| => Entry([name] + es[i].path, es[i].node))
  }

  /** `sorted(root.rglob("*"))`: everything below `n`, parents first, names in order. Symlinks are not entered. */
  function Walk(n: Node): seq<Entry>
    decreases n, 1, 0
  {
    if n.Dir? then WalkNames(n, TextOrder.Sorted(n.entries.Keys)) else []
  }

  function WalkNames(n: Node, names: seq<Text>): seq<Entry>
    requires n.Dir? && forall k | k in names :: k in n.entries
    decreases n, 0, |names|
  {
    if names == [] then []
    else
      var child := n.entries[names[0]];
      [Entry([names[0]], child)] + Under(names[0], Walk(child)) + WalkNames(n, names[1..])
  }

  /** The node at a path, if there is one. */
  function At(n: Node, p: Path): Option<Node>
    decreases |p|
  {
    if p == [] then Some(n)
    else if n.Dir? && p[0] in n.entries then At(n.entries[p[0]], p[1..])
    else None
  }

  function FileAt(n: Node, p: Path): Option<seq<Byte>> {
    match At(n, p)
    case Some(File(b)) => Some(b)
    case _ => None
  }

  lemma {:induction false} WalkIsAt(n: Node, e: Entry)
    ensures e in Walk(n) <==> e.path != [] && At(n, e.path) == Some(e.node)
    decreases n, 1, 0
  {
    if n.Dir? {
      WalkNamesIsAt(n, TextOrder.Sorted(n.entries.Keys), e);
    } else if e.path != [] {
      assert At(n, e.path) == None;
    }
  }

  lemma {:induction false} WalkNamesIsAt(n: Node, names: seq<Text>, e: Entry)
    requires n.Dir? && forall k | k in names :: k in n.entries
    ensures e in WalkNames(n, names) <==> e.path != [] && e.path[0] in names && At(n, e.path) == Some(e.node)
    decreases n, 0, |names|
  {
    if names != [] {
      var name, child := names[0], n.entries[names[0]];
      WalkNamesIsAt(n, names[1..], e);
      if e.path != [] {
        WalkIsAt(child, Entry(e.path[1..], e.node));
      }
      assert WalkNames(n, names) == [Entry([name], child)] + Under(name, Walk(child)) + WalkNames(n, names[1..]);
      hide WalkNames, Walk;
      UnderMember(name, Walk(child), e);
      hide Under;
      FirstStep(n, name, e);
      assert names == [name] + names[1..];
    }
  }

  /** An entry at or below a child of a directory. */
  lemma FirstStep(n: Node, name: Text, e: Entry)
    requires n.Dir? && name in n.entries
    ensures e.path != [] && e.path[0] == name ==>
      (At(n, e.path) == Some(e.node) <==>
         e == Entry([name], n.entries[name])
         || (e.path[1..] != [] && At(n.entries[name], e.path[1..]) == Some(e.node)))
  {
    if e.path != [] && e.path[0] == name {
      assert e.path == [name] + e.path[1..];
    }
  }

  lemma UnderMember(name: Text, es: seq<Entry>, e: Entry)
    ensures e in Under(name, es) <==> e.path != [] && e.path[0] == name && Entry(e.path[1..], e.node) in es
  {
    if e in Under(name, es) {
      var i :| 0 <= i < |es| && Under(name, es)[i] == e;
      assert e.path[1..] == es[i].path;
    }
    if e.path != [] && e.path[0] == name && Entry(e.path[1..], e.node) in es {
      var i :| 0 <= i < |es| && es[i] == Entry(e.path[1..], e.node);
      assert e.path == [name] + e.path[1..];
      assert Under(name, es)[i] == e;
    }
  }

  // ----- Building and verifying -----

  function Rel(p: Path): Text {
    Join(p, SLASH)
  }

  /** The dictionary filled from a listing; `None` at the first symlink or special file. */
  function Scan(h: Hash, es: seq<Entry>): Option<Manifest> {
    if es == [] then Some(map[])
    else
      var m :- Scan(h, es[..|es| - 1]);
      var e := es[|es| - 1];
      match e.node
      case Symlink => None
      case Special => None
      case Dir(_) => Some(m)
      case File(bytes) => Some(m[Rel(e.path) := h(bytes)])
  }

  /** `build_resource_manifest`; `None` where it raises. */
  function Build(h: Hash, root: Node): Option<Manifest> {
    if !root.Dir? || |Walk(root)| > MAX_ENTRIES then None else Scan(h, Walk(root))
  }

  /** Any order in which the file system may list the tree. */
  ghost predicate Lists(root: Node, listing: seq<Entry>) {
    multiset(listing) == multiset(Walk(root))
  }

  /** `verify_resource_manifest` on a listing in whatever order. */
  predicate Verifies(h: Hash, root: Node, listing: seq<Entry>, manifest: Manifest) {
    root.Dir? && |manifest| <= MAX_ENTRIES && |listing| <= MAX_ENTRIES && Scan(h, listing) == Some(manifest)
  }

  lemma ScanOneMore(h: Hash, es: seq<Entry>, i: nat)
    requires i < |es| && Scan(h, es[..i]).Some?
    ensures Scan(h, es[..i + 1]) == match es[i].node
      case Symlink => None
      case Special => None
      case Dir(_) => Scan(h, es[..i])
      case File(bytes) => Some(Scan(h, es[..i]).value[Rel(es[i].path) := h(bytes)])
  {
    assert es[..i + 1][..i] == es[..i];
  }

  method BuildResourceManifest(h: Hash, root: Node) returns (r: Option<Manifest>)
    ensures r == Build(h, root)
  {
    if !root.Dir? {
      return None;
    }
    var es := Walk(root);
    var manifest: Manifest := map[];
    var count := 0;
    hide Walk, Rel;
    for i := 0 to |es|
      invariant count == i <= MAX_ENTRIES
      invariant Scan(h, es[..i]) == Some(manifest)
    {
      count := count + 1;
      if count > MAX_ENTRIES {
        return None;
      }
      ScanOneMore(h, es, i);
      match es[i].node
      case Dir(_) =>
        continue;
      case File(bytes) =>
        manifest := manifest[Rel(es[i].path) := h(bytes)];
        ScanSize(h, es[..i + 1]);
        if |manifest| > MAX_ENTRIES {
          assert false;
        }
      case _ =>
        ScanStops(h, es, i);
        return None;
    }
    assert es[..|es|] == es;
    return Some(manifest);
  }

  method VerifyResourceManifest(h: Hash, root: Node, listing: seq<Entry>, manifest: Manifest) returns (ok: bool)
    ensures ok <==> Verifies(h, root, listing, manifest)
  {
    if !root.Dir? || |manifest| > MAX_ENTRIES {
      return false;
    }
    var actual: Manifest := map[];
    var count := 0;
    for i := 0 to |listing|
      invariant count == i <= MAX_ENTRIES
      invariant Scan(h, listing[..i]) == Some(actual)
    {
      count := count + 1;
      if count > MAX_ENTRIES {
        return false;
      }
      assert listing[..i + 1][..i] == listing[..i];
      match listing[i].node
      case Dir(_) =>
        continue;
      case File(bytes) =>
        actual := actual[Rel(listing[i].path) := h(bytes)];
      case _ =>
        ScanStops(h, listing, i);
        return false;
    }
    assert listing[..|listing|] == listing;
    return actual == manifest;
  }

  // ----- What a scan collects -----

  predicate Bad(e: Entry) { e.node.Symlink? || e.node.Special? }

  lemma {:induction false} ScanStops(h: Hash, es: seq<Entry>, i: nat)
    requires i < |es| && Bad(es[i])
    ensures Scan(h, es).None?
  {
    if i < |es| - 1 {
      ScanStops(h, es[..|es| - 1], i);
    }
  }

  lemma {:induction false} ScanGoesThrough(h: Hash, es: seq<Entry>)
    requires forall e :: e in es ==> !Bad(e)
    ensures Scan(h, es).Some?
  {
    if es != [] {
      assert es[|es| - 1] in es;
      ScanGoesThrough(h, es[..|es| - 1]);
    }
  }

  lemma {:induction false} ScanSize(h: Hash, es: seq<Entry>)
    ensures Scan(h, es).Some? ==> |Scan(h, es).value| <= |es|
  {
    if es != [] {
      ScanSize(h, es[..|es| - 1]);
    }
  }

  predicate Holds(m: Manifest, k: Text, v: string) {
    k in m && m[k] == v
  }

  /** Paths whose file entries in a listing have one relative name have one node. */
  ghost predicate Unambiguous(es: seq<Entry>) {
    forall d, e :: d in es && e in es && Rel(d.path) == Rel(e.path) ==> d == e
  }

  lemma {:induction false} ScanHolds(h: Hash, es: seq<Entry>, k: Text, v: string)
    requires Unambiguous(es) && Scan(h, es).Some?
    ensures Holds(Scan(h, es).value, k, v)
      <==> exists e :: e in es && e.node.File? && Rel(e.path) == k && h(e.node.bytes) == v
  {
    hide Rel;
    if es != [] {
      var init, last := es[..|es| - 1], es[|es| - 1];
      assert es == init + [last];
      ScanHolds(h, init, k, v);
      if last.node.File? && Rel(last.path) == k {
        assert last in es;
      } else if e :| e in es && e.node.File? && Rel(e.path) == k && h(e.node.bytes) == v {
        assert e in init;
      }
    }
  }

  lemma {:induction false} WellNamedPath(n: Node, p: Path)
    requires WellNamed(n) && At(n, p).Some?
    ensures forall k :: k in p ==> SLASH !in k
    decreases |p|
  {
    if p != [] {
      WellNamedPath(n.entries[p[0]], p[1..]);
      assert p == [p[0]] + p[1..];
    }
  }

  /** Below one root a relative name stands for one path. */
  lemma WalkUnambiguous(n: Node)
    requires WellNamed(n)
    ensures Unambiguous(Walk(n))
  {
    forall d, e | d in Walk(n) && e in Walk(n) && Rel(d.path) == Rel(e.path) ensures d == e {
      WalkIsAt(n, d);
      WalkIsAt(n, e);
      WellNamedPath(n, d.path);
      WellNamedPath(n, e.path);
      SplitJoin(d.path, SLASH);
      SplitJoin(e.path, SLASH);
    }
  }

  lemma SameMembers(root: Node, listing: seq<Entry>)
    requires Lists(root, listing)
    ensures |listing| == |Walk(root)|
    ensures forall e :: e in listing <==> e in Walk(root)
  {
    assert |multiset(listing)| == |multiset(Walk(root))|;
    assert forall e :: e in listing <==> e in multiset(listing);
    assert forall e :: e in Walk(root) <==> e in multiset(Walk(root));
  }

  // ----- Main results -----

  /** Two listings with the same entries give the same manifest, or none. */
  lemma ScanOrderIrrelevant(h: Hash, xs: seq<Entry>, ys: seq<Entry>)
    requires Unambiguous(xs) && forall e :: e in xs <==> e in ys
    ensures Scan(h, xs) == Scan(h, ys)
  {
    hide Rel;
    if i :| 0 <= i < |xs| && Bad(xs[i]) {
      assert xs[i] in ys;
      var j :| 0 <= j < |ys| && ys[j] == xs[i];
      ScanStops(h, xs, i);
      ScanStops(h, ys, j);
    } else {
      ScanGoesThrough(h, xs);
      ScanGoesThrough(h, ys);
      var m, n := Scan(h, xs).value, Scan(h, ys).value;
      forall k, v ensures Holds(m, k, v) <==> Holds(n, k, v) {
        ScanHolds(h, xs, k, v);
        ScanHolds(h, ys, k, v);
      }
      SameMap(m, n);
    }
  }

  lemma SameMap(m: Manifest, n: Manifest)
    requires forall k, v :: Holds(m, k, v) <==> Holds(n, k, v)
    ensures m == n
  {
    forall k | k in m ensures k in n && m[k] == n[k] { assert Holds(m, k, m[k]); }
    forall k | k in n ensures k in m { assert Holds(n, k, n[k]); }
  }

  /** Verification succeeds with exactly the manifest that building returns, in whatever order the tree is listed. */
  lemma VerifiesExactlyWhatBuilds(h: Hash, root: Node, listing: seq<Entry>, manifest: Manifest)
    requires WellNamed(root) && Lists(root, listing)
    ensures Verifies(h, root, listing, manifest) <==> Build(h, root) == Some(manifest)
  {
    SameMembers(root, listing);
    WalkUnambiguous(root);
    ScanOrderIrrelevant(h, Walk(root), listing);
    ScanSize(h, Walk(root));
  }

  /** What a built manifest says: the digest of every file under its relative name, and nothing else. */
  lemma BuiltManifest(h: Hash, root: Node, p: Path, v: string)
    requires WellNamed(root) && Build(h, root).Some? && p != [] && forall k :: k in p ==> SLASH !in k
    ensures var m := Build(h, root).value;
      Rel(p) in m && m[Rel(p)] == v <==> FileAt(root, p).Some? && h(FileAt(root, p).value) == v
  {
    WalkUnambiguous(root);
    ScanHolds(h, Walk(root), Rel(p), v);
    if FileAt(root, p).Some? {
      WalkIsAt(root, Entry(p, At(root, p).value));
    }
    if e :| e in Walk(root) && e.node.File? && Rel(e.path) == Rel(p) && h(e.node.bytes) == v {
      WalkIsAt(root, e);
      WellNamedPath(root, e.path);
      SplitJoin(e.path, SLASH);
      SplitJoin(p, SLASH);
    }
  }

  /** Under an injective hash, equal manifests mean the same files with the same bytes. */
  lemma EqualManifestsSameFiles(h: Hash, a: Node, b: Node)
    requires CollisionFree(h) && WellNamed(a) && WellNamed(b)
    requires Build(h, a).Some? && Build(h, b).Some?
    ensures Build(h, a) == Build(h, b) <==> forall p :: FileAt(a, p) == FileAt(b, p)
  {
    hide Rel, Build;
    if Build(h, a) == Build(h, b) {
      forall p ensures FileAt(a, p) == FileAt(b, p) {
        BuildableIsDir(h, a);
        BuildableIsDir(h, b);
        if FileAt(a, p).Some? {
          FileCarriesOver(h, a, b, p);
        } else if FileAt(b, p).Some? {
          FileCarriesOver(h, b, a, p);
        }
      }
    }
    if forall p :: FileAt(a, p) == FileAt(b, p) {
      ManifestWithin(h, a, b);
      ManifestWithin(h, b, a);
      SameMap(Build(h, a).value, Build(h, b).value);
    }
  }

  lemma BuildableIsDir(h: Hash, a: Node)
    requires Build(h, a).Some?
    ensures a.Dir?
  {
  }

  lemma FileCarriesOver(h: Hash, a: Node, b: Node, p: Path)
    requires CollisionFree(h) && WellNamed(a) && WellNamed(b)
    requires Build(h, a).Some? && Build(h, a) == Build(h, b) && a.Dir? && FileAt(a, p).Some?
    ensures FileAt(b, p) == FileAt(a, p)
  {
    hide Rel, Build;
    WellNamedPath(a, p);
    BuiltManifest(h, a, p, h(FileAt(a, p).value));
    BuiltManifest(h, b, p, h(FileAt(a, p).value));
  }

  lemma ManifestWithin(h: Hash, a: Node, b: Node)
    requires WellNamed(a) && WellNamed(b) && Build(h, a).Some? && Build(h, b).Some?
    requires forall p :: FileAt(a, p) == FileAt(b, p)
    ensures var m, n := Build(h, a).value, Build(h, b).value; forall k, v :: Holds(m, k, v) ==> Holds(n, k, v)
  {
    hide Rel;
    var m, n := Build(h, a).value, Build(h, b).value;
    WalkUnambiguous(a);
    forall k, v | Holds(m, k, v) ensures Holds(n, k, v) {
      ScanHolds(h, Walk(a), k, v);
      var e :| e in Walk(a) && e.node.File? && Rel(e.path) == k && h(e.node.bytes) == v;
      WalkIsAt(a, e);
      WellNamedPath(a, e.path);
      assert FileAt(a, e.path) == FileAt(b, e.path);
      BuiltManifest(h, b, e.path, v);
    }
  }

  // ----- What a manifest does not see -----

  predicate HasFile(n: Node) {
    n.File? || (n.Dir? && exists k | k in n.entries :: HasFile(n.entries[k]))
  }

  /** The tree without its directories that hold no file. */
  function Pruned(n: Node): Node {
    if n.Dir? then Dir(map k | k in n.entries && HasFile(n.entries[k]) :: Pruned(n.entries[k])) else n
  }

  lemma {:induction false} FileSomewhere(n: Node)
    ensures HasFile(n) <==> exists p :: FileAt(n, p).Some?
  {
    if n.Dir? {
      if HasFile(n) {
        var k :| k in n.entries && HasFile(n.entries[k]);
        FileSomewhere(n.entries[k]);
        var p :| FileAt(n.entries[k], p).Some?;
        assert FileAt(n, [k] + p).Some? by { assert ([k] + p)[1..] == p; }
      }
      if p :| FileAt(n, p).Some? {
        assert p != [];
        FileSomewhere(n.entries[p[0]]);
        assert FileAt(n.entries[p[0]], p[1..]).Some?;
      }
    } else if n.File? {
      assert FileAt(n, []).Some?;
    }
  }

  /** Nothing but files and directories, anywhere. */
  predicate Plain(n: Node) {
    n.File? || (n.Dir? && forall k | k in n.entries :: Plain(n.entries[k]))
  }

  lemma ChildFiles(n: Node, k: Text, p: Path)
    requires n.Dir?
    ensures FileAt(n, [k] + p) == if k in n.entries then FileAt(n.entries[k], p) else None
  {
    assert ([k] + p)[1..] == p;
  }

  lemma {:induction false} SameFilesSamePruned(a: Node, b: Node)
    requires Plain(a) && Plain(b) && a.Dir? == b.Dir?
    requires forall p :: FileAt(a, p) == FileAt(b, p)
    ensures Pruned(a) == Pruned(b)
  {
    if a.Dir? {
      forall k ensures k in Pruned(a).entries <==> k in Pruned(b).entries {
        SameChild(a, b, k);
        SameChild(b, a, k);
      }
      forall k | k in Pruned(a).entries ensures Pruned(a).entries[k] == Pruned(b).entries[k] {
        SameChild(a, b, k);
        forall p ensures FileAt(a.entries[k], p) == FileAt(b.entries[k], p) {
          ChildFiles(a, k, p);
          ChildFiles(b, k, p);
        }
        assert FileAt(a.entries[k], []) == FileAt(b.entries[k], []);
        SameFilesSamePruned(a.entries[k], b.entries[k]);
      }
    } else {
      assert FileAt(a, []) == FileAt(b, []);
    }
  }

  lemma SameChild(a: Node, b: Node, k: Text)
    requires a.Dir? && b.Dir? && forall p :: FileAt(a, p) == FileAt(b, p)
    ensures k in a.entries && HasFile(a.entries[k]) ==> k in b.entries && HasFile(b.entries[k])
  {
    if k in a.entries && HasFile(a.entries[k]) {
      FileSomewhere(a.entries[k]);
      var p :| FileAt(a.entries[k], p).Some?;
      ChildFiles(a, k, p);
      ChildFiles(b, k, p);
      assert FileAt(b, [k] + p).Some?;
      FileSomewhere(b.entries[k]);
    }
  }

  lemma {:induction false} PrunedFiles(n: Node, p: Path)
    ensures FileAt(Pruned(n), p) == FileAt(n, p)
    decreases |p|
  {
    if n.Dir? && p != [] && p[0] in n.entries {
      PrunedFiles(n.entries[p[0]], p[1..]);
      if !HasFile(n.entries[p[0]]) {
        FileSomewhere(n.entries[p[0]]);
      }
    }
  }

  lemma {:induction false} BuildablePlain(h: Hash, n: Node, root: Node, p: Path)
    requires Build(h, root).Some? && At(root, p) == Some(n)
    ensures Plain(n)
    decreases n
  {
    if Bad(Entry(p, n)) {
      WalkIsAt(root, Entry(p, n));
      var i :| 0 <= i < |Walk(root)| && Walk(root)[i] == Entry(p, n);
      ScanStops(h, Walk(root), i);
    }
    if n.Dir? {
      forall k | k in n.entries ensures Plain(n.entries[k]) {
        AtChild(root, p, k);
        BuildablePlain(h, n.entries[k], root, p + [k]);
      }
    }
  }

  lemma {:induction false} AtChild(root: Node, p: Path, k: Text)
    requires At(root, p).Some? && At(root, p).value.Dir? && k in At(root, p).value.entries
    ensures At(root, p + [k]) == Some(At(root, p).value.entries[k])
    decreases |p|
  {
    if p == [] {
      assert p + [k] == [k] && [k][1..] == [];
    } else {
      AtChild(root.entries[p[0]], p[1..], k);
      assert (p + [k])[1..] == p[1..] + [k];
    }
  }

  /** Trees with one manifest differ in directories that hold no file, and in nothing else. */
  lemma EqualManifestsSamePruned(h: Hash, a: Node, b: Node)
    requires CollisionFree(h) && WellNamed(a) && WellNamed(b)
    requires Build(h, a).Some? && Build(h, b).Some?
    ensures Build(h, a) == Build(h, b) <==> Pruned(a) == Pruned(b)
  {
    EqualManifestsSameFiles(h, a, b);
    BuildablePlain(h, a, a, []);
    BuildablePlain(h, b, b, []);
    if forall p :: FileAt(a, p) == FileAt(b, p) {
      SameFilesSamePruned(a, b);
    }
    if Pruned(a) == Pruned(b) {
      forall p ensures FileAt(a, p) == FileAt(b, p) {
        PrunedFiles(a, p);
        PrunedFiles(b, p);
      }
    }
  }

  // ----- Which trees have a manifest, and how files are named in it -----

  /** Relative names are the names of a path with slashes between them, and no two paths share one. */
  lemma RelMeans(p: Path)
    requires p != [] && forall k :: k in p ==> 0x2F !in k
    ensures Split(Rel(p), 0x2F) == p
  {
    SplitJoin(p, SLASH);
  }

  /** No entry is listed twice. */
  lemma {:induction false} WalkOnce(n: Node)
    ensures forall i, j :: 0 <= i < j < |Walk(n)| ==> Walk(n)[i] != Walk(n)[j]
    decreases n, 1, 0
  {
    if n.Dir? {
      WalkNamesOnce(n, TextOrder.Sorted(n.entries.Keys));
    }
  }

  lemma {:induction false} WalkNamesOnce(n: Node, names: seq<Text>)
    requires n.Dir? && forall k | k in names :: k in n.entries
    requires forall i, j :: 0 <= i < j < |names| ==> names[i] != names[j]
    ensures forall i, j :: 0 <= i < j < |WalkNames(n, names)| ==> WalkNames(n, names)[i] != WalkNames(n, names)[j]
    decreases n, 0, |names|
  {
    if names != [] {
      var name, child := names[0], n.entries[names[0]];
      var a, b, c := [Entry([name], child)], Under(name, Walk(child)), WalkNames(n, names[1..]);
      assert WalkNames(n, names) == a + b + c;
      WalkOnce(child);
      WalkNamesOnce(n, names[1..]);
      hide WalkNames, Walk;
      forall e | e in b ensures |e.path| > 1 && e.path[0] == name {
        UnderMember(name, Walk(child), e);
        WalkIsAt(child, Entry(e.path[1..], e.node));
      }
      forall e | e in c ensures e.path != [] && e.path[0] != name {
        WalkNamesIsAt(n, names[1..], e);
      }
      UnderOnce(name, Walk(child));
      hide Under;
      OnceTogether(a, b);
      OnceTogether(a + b, c);
    }
  }

  lemma UnderOnce(name: Text, es: seq<Entry>)
    requires forall i, j :: 0 <= i < j < |es| ==> es[i] != es[j]
    ensures forall i, j :: 0 <= i < j < |es| ==> Under(name, es)[i] != Under(name, es)[j]
  {
    forall i | 0 <= i < |es| ensures Entry(Under(name, es)[i].path[1..], Under(name, es)[i].node) == es[i] {
      assert ([name] + es[i].path)[1..] == es[i].path;
    }
  }

  lemma OnceTogether<T>(a: seq<T>, b: seq<T>)
    requires forall i, j :: 0 <= i < j < |a| ==> a[i] != a[j]
    requires forall i, j :: 0 <= i < j < |b| ==> b[i] != b[j]
    requires forall x :: x in a ==> x !in b
    ensures forall i, j :: 0 <= i < j < |a + b| ==> (a + b)[i] != (a + b)[j]
  {
    forall i, j | 0 <= i < j < |a + b| ensures (a + b)[i] != (a + b)[j] {
      if i < |a| && j >= |a| {
        assert a[i] in a && b[j - |a|] in b;
      }
    }
  }

  /** A manifest is built of a directory with at most 4096 entries below it, all of them files and directories. */
  lemma BuildsExactly(h: Hash, root: Node)
    ensures Build(h, root).Some? <==> root.Dir? && Plain(root) && |Walk(root)| <= 4096
  {
    if Build(h, root).Some? {
      BuildablePlain(h, root, root, []);
    }
    if Plain(root) {
      forall e | e in Walk(root) ensures !Bad(e) {
        WalkIsAt(root, e);
        PlainBelow(root, e.path);
      }
      ScanGoesThrough(h, Walk(root));
    }
  }

  lemma {:induction false} PlainBelow(n: Node, p: Path)
    requires Plain(n) && At(n, p).Some?
    ensures Plain(At(n, p).value)
    decreases |p|
  {
    if p != [] {
      PlainBelow(n.entries[p[0]], p[1..]);
    }
  }
}
