/** The bytes that identify an installed skill tree.

    `directory_digest` hashes one record per file and directory, sorted by path. What
    is proved here is about the hashed bytes, not about the hash.
 */
module TreeDigest {
  import opened Options
  import opened Texts
  import opened Orders
  import opened FileTree

  datatype Content = Folder | Bytes(bytes: string)

  // ---- one record -----------------------------------------------------------------

  const U64: nat := 0x1_0000_0000_0000_0000

  function Pow256(k: nat): nat { if k == 0 then 1 else 256 * Pow256(k - 1) }

  /** `n` in `k` bytes, most significant first. */
  function BigEndian(n: nat, k: nat): (bytes: string)
    ensures |bytes| == k
  {
    if k == 0 then "" else BigEndian(n / 256, k - 1) + [(n % 256) as char]
  }

  lemma {:induction false} BigEndianInjective(m: nat, n: nat, k: nat)
    requires m < Pow256(k) && n < Pow256(k) && BigEndian(m, k) == BigEndian(n, k)
    ensures m == n
    decreases k
  {
    if k == 0 {
    } else {
      var a, b := BigEndian(m, k), BigEndian(n, k);
      assert a[..k - 1] == BigEndian(m / 256, k - 1) && b[..k - 1] == BigEndian(n / 256, k - 1);
      assert a[k - 1] == (m % 256) as char && b[k - 1] == (n % 256) as char;
      BigEndianInjective(m / 256, n / 256, k - 1);
    }
  }

  lemma U64Fits()
    ensures Pow256(8) == U64
  {
    assert Pow256(4) == 0x1_0000_0000;
    assert Pow256(6) == 256 * Pow256(5) && Pow256(5) == 256 * Pow256(4);
  }

  /** A length and the bytes it counts. */
  function Counted(bytes: string): string { BigEndian(|bytes|, 8) + bytes }

  function Record(path: string, content: Content): string {
    var body := if content.Folder? then "" else content.bytes;
    [if content.Folder? then 'D' else 'F'] + Counted(path) + Counted(body)
  }

  predicate Fits(path: string, content: Content) {
    |path| < U64 && (content.Bytes? ==> |content.bytes| < U64)
  }

  /** A counted text ends where its count says. */
  lemma CountedPrefix(a: string, b: string, restA: string, restB: string)
    requires |a| < U64 && |b| < U64 && Counted(a) + restA == Counted(b) + restB
    ensures a == b && restA == restB
  {
    U64Fits();
    var s, t := Counted(a) + restA, Counted(b) + restB;
    assert s[..8] == BigEndian(|a|, 8) && t[..8] == BigEndian(|b|, 8);
    BigEndianInjective(|a|, |b|, 8);
    assert s[8..8 + |a|] == a && t[8..8 + |b|] == b;
    assert s[8 + |a|..] == restA && t[8 + |b|..] == restB;
  }

  lemma RecordShape(p: string, c: Content, rest: string)
    ensures Record(p, c) + rest ==
            [if c.Folder? then 'D' else 'F'] +
            (Counted(p) + (Counted(if c.Folder? then "" else c.bytes) + rest))
  {
  }

  /** A record ends where its counts say, and says what it was made from. */
  lemma RecordPrefix(p: string, c: Content, q: string, d: Content, restA: string, restB: string)
    requires Fits(p, c) && Fits(q, d) && Record(p, c) + restA == Record(q, d) + restB
    ensures p == q && c == d && restA == restB
  {
    RecordShape(p, c, restA);
    RecordShape(q, d, restB);
    hide Counted, Record;
    var x, y := if c.Folder? then "" else c.bytes, if d.Folder? then "" else d.bytes;
    var k, l := [if c.Folder? then 'D' else 'F'], [if d.Folder? then 'D' else 'F'];
    var s, t := Counted(p) + (Counted(x) + restA), Counted(q) + (Counted(y) + restB);
    assert (k + s)[0] == (l + t)[0] && (k + s)[1..] == s && (l + t)[1..] == t;
    CountedPrefix(p, q, Counted(x) + restA, Counted(y) + restB);
    CountedPrefix(x, y, restA, restB);
  }

  // ---- all records -------------------------------------------------------------------

  type Contents = map<string, Content>

  function Encode(paths: seq<string>, contents: Contents): string
    requires forall i :: 0 <= i < |paths| ==> paths[i] in contents
  {
    if paths == [] then "" else Record(paths[0], contents[paths[0]]) + Encode(paths[1..], contents)
  }

  ghost predicate AllFit(contents: Contents) { forall p :: p in contents ==> Fits(p, contents[p]) }

  lemma {:induction false} EncodeInjective(p: seq<string>, c: Contents, q: seq<string>, d: Contents)
    requires (forall i :: 0 <= i < |p| ==> p[i] in c) && (forall i :: 0 <= i < |q| ==> q[i] in d)
    requires AllFit(c) && AllFit(d) && Encode(p, c) == Encode(q, d)
    ensures p == q && forall i :: 0 <= i < |p| ==> c[p[i]] == d[p[i]]
    decreases |p|
  {
    if p != [] && q != [] {
      RecordPrefix(p[0], c[p[0]], q[0], d[q[0]], Encode(p[1..], c), Encode(q[1..], d));
      EncodeInjective(p[1..], c, q[1..], d);
      assert p == [p[0]] + p[1..] && q == [q[0]] + q[1..];
    }
  }

  /** `hashed` is what is hashed for these contents: the records in path order. */
  ghost predicate Hashed(contents: Contents, hashed: string) {
    exists paths :: Listing(TextLe, paths, contents.Keys) && InOrder(paths, contents) && hashed == Encode(paths, contents)
  }

  ghost predicate InOrder(paths: seq<string>, contents: Contents) {
    forall i :: 0 <= i < |paths| ==> paths[i] in contents
  }

  /** Equal contents and equal hashed bytes are the same thing. */
  lemma HashedIffEqual(c: Contents, d: Contents, x: string, y: string)
    requires AllFit(c) && AllFit(d) && Hashed(c, x) && Hashed(d, y)
    ensures x == y <==> c == d
  {
    hide TextLe, Record, Fits;
    var p :| Listing(TextLe, p, c.Keys) && InOrder(p, c) && x == Encode(p, c);
    var q :| Listing(TextLe, q, d.Keys) && InOrder(q, d) && y == Encode(q, d);
    if x == y {
      EncodeInjective(p, c, q, d);
      assert c.Keys == Elements(p) == d.Keys;
      forall n | n in c ensures c[n] == d[n] { assert n in Elements(p); }
    }
    if c == d {
      TextOrders();
      ListingUnique(TextLe, p, q, c.Keys);
    }
  }

  // ---- the contents of a directory -------------------------------------------------------

  /** What a digest sees of a node; links and special files are refused. */
  function Shown(node: Option<Node>): Option<Content> {
    match node
    case Some(File(bytes)) => Some(Bytes(bytes))
    case Some(Dir(_)) => Some(Folder)
    case _ => None
  }

  /** Something below `dir` is a link or a special file, or has a name that is not UTF-8. */
  ghost predicate Refused(dir: Node) {
    exists path :: RefusedAt(dir, path)
  }

  ghost predicate RefusedAt(dir: Node, path: Path) {
    path != [] && At(dir, path).Some? && (Shown(At(dir, path)).None? || !IsUtf8(path[|path| - 1]))
  }

  /** The paths below `dir` and their contents, `dir` lying at `prefix`. */
  function DirContents(prefix: Path, dir: Node, n: nat): Contents
    requires dir.Dir? && n <= |dir.entries|
    decreases dir, 0, n
  {
    if n == 0 then map[] else DirContents(prefix, dir, n - 1) + EntryContents(prefix, dir, n - 1)
  }

  function EntryContents(prefix: Path, dir: Node, i: nat): Contents
    requires dir.Dir? && i < |dir.entries|
    decreases dir, 0, i
  {
    var e := dir.entries[i];
    var path := prefix + [e.name];
    match e.node
    case File(bytes) => map[Join(path) := Bytes(bytes)]
    case Dir(entries) => map[Join(path) := Folder] + DirContents(path, e.node, |entries|)
    case _ => map[]
  }

  /** `p` is the text of a path below `dir` that shows `content`. */
  ghost predicate ShownAt(prefix: Path, dir: Node, rest: Path, p: string, content: Content) {
    rest != [] && p == Join(prefix + rest) && Shown(At(dir, rest)) == Some(content)
  }

  ghost predicate ValidPath(path: Path) { forall i :: 0 <= i < |path| ==> ValidName(path[i]) }

  /** Distinct paths have distinct texts. */
  lemma JoinInjective(a: Path, b: Path)
    requires a != [] && b != [] && ValidPath(a) && ValidPath(b) && Join(a) == Join(b)
    ensures a == b
  {
    SplitJoin(a);
    SplitJoin(b);
  }

  /** Everything collected from the first `n` entries is shown below one of them. */
  lemma {:induction false} CollectedIsShown(prefix: Path, dir: Node, n: nat, p: string) returns (rest: Path)
    requires WellFormed(dir) && dir.Dir? && n <= |dir.entries| && p in DirContents(prefix, dir, n)
    ensures ShownAt(prefix, dir, rest, p, DirContents(prefix, dir, n)[p])
    ensures exists i :: 0 <= i < n && rest[0] == dir.entries[i].name
    decreases dir, 0, n
  {
    if p in EntryContents(prefix, dir, n - 1) {
      rest := EntryIsShown(prefix, dir, n - 1, p);
    } else {
      rest := CollectedIsShown(prefix, dir, n - 1, p);
    }
  }

  lemma {:induction false} EntryIsShown(prefix: Path, dir: Node, i: nat, p: string) returns (rest: Path)
    requires WellFormed(dir) && dir.Dir? && i < |dir.entries| && p in EntryContents(prefix, dir, i)
    ensures ShownAt(prefix, dir, rest, p, EntryContents(prefix, dir, i)[p]) && rest[0] == dir.entries[i].name
    decreases dir, 0, i
  {
    var e := dir.entries[i];
    var path := prefix + [e.name];
    if e.node.Dir? && p in DirContents(path, e.node, |e.node.entries|) {
      var below := CollectedIsShown(path, e.node, |e.node.entries|, p);
      rest := [e.name] + below;
      AtEntry(dir, i, below);
      assert prefix + rest == path + below;
    } else {
      rest := [e.name];
      AtEntry(dir, i, []);
      assert [e.name] + [] == [e.name];
    }
  }

  /** Everything shown below the first `n` entries is collected. */
  lemma {:induction false} ShownIsCollected(prefix: Path, dir: Node, n: nat, rest: Path, content: Content)
    requires WellFormed(dir) && dir.Dir? && n <= |dir.entries| && ValidPath(prefix)
    requires rest != [] && Shown(At(dir, rest)) == Some(content)
    requires exists i :: 0 <= i < n && rest[0] == dir.entries[i].name
    ensures Join(prefix + rest) in DirContents(prefix, dir, n)
    ensures DirContents(prefix, dir, n)[Join(prefix + rest)] == content
    decreases dir, 0, n
  {
    var p := Join(prefix + rest);
    var i :| 0 <= i < n && rest[0] == dir.entries[i].name;
    if i == n - 1 {
      ShownInEntry(prefix, dir, n - 1, rest, content);
    } else {
      ShownIsCollected(prefix, dir, n - 1, rest, content);
      if p in EntryContents(prefix, dir, n - 1) {
        var other := EntryIsShown(prefix, dir, n - 1, p);
        SameText(prefix, dir, rest, other);
      }
    }
  }

  lemma SameText(prefix: Path, dir: Node, a: Path, b: Path)
    requires WellFormed(dir) && ValidPath(prefix) && a != [] && b != []
    requires At(dir, a).Some? && At(dir, b).Some? && Join(prefix + a) == Join(prefix + b)
    ensures a == b
  {
    AtValidNames(dir, a);
    AtValidNames(dir, b);
    JoinInjective(prefix + a, prefix + b);
    assert (prefix + a)[|prefix|..] == a && (prefix + b)[|prefix|..] == b;
  }

  lemma {:induction false} ShownInEntry(prefix: Path, dir: Node, i: nat, rest: Path, content: Content)
    requires WellFormed(dir) && dir.Dir? && i < |dir.entries| && ValidPath(prefix)
    requires rest != [] && rest[0] == dir.entries[i].name && Shown(At(dir, rest)) == Some(content)
    ensures Join(prefix + rest) in EntryContents(prefix, dir, i)
    ensures EntryContents(prefix, dir, i)[Join(prefix + rest)] == content
    decreases dir, 0, i
  {
    var e, below := dir.entries[i], rest[1..];
    var path := prefix + [e.name];
    AtEntry(dir, i, below);
    assert rest == [e.name] + below;
    if below == [] {
      assert prefix + rest == path;
      if e.node.Dir? && Join(path) in DirContents(path, e.node, |e.node.entries|) {
        var other := CollectedIsShown(path, e.node, |e.node.entries|, Join(path));
        AtValidNames(e.node, other);
        JoinInjective(path, path + other);
      }
    } else {
      var j := AtThrough(e.node, below);
      ShownIsCollected(path, e.node, |e.node.entries|, below, content);
      assert prefix + rest == path + below;
    }
  }

  /** `contents` shows exactly what lies below `root`. */
  ghost predicate IsContents(root: Node, contents: Contents) {
    && (forall p :: p in contents ==> exists path :: ShownAt([], root, path, p, contents[p]))
    && (forall path :: path != [] && Shown(At(root, path)).Some? ==>
          Join(path) in contents && contents[Join(path)] == Shown(At(root, path)).value)
  }

  lemma DirContentsOf(root: Node)
    requires WellFormed(root) && root.Dir?
    ensures IsContents(root, DirContents([], root, |root.entries|))
  {
    var contents := DirContents([], root, |root.entries|);
    forall p | p in contents ensures exists path :: ShownAt([], root, path, p, contents[p]) {
      var path := CollectedIsShown([], root, |root.entries|, p);
    }
    forall path: Path | path != [] && Shown(At(root, path)).Some?
      ensures Join(path) in contents && contents[Join(path)] == Shown(At(root, path)).value
    {
      var i := AtThrough(root, path);
      ShownIsCollected([], root, |root.entries|, path, Shown(At(root, path)).value);
      assert [] + path == path;
    }
  }

  // ---- the digest ------------------------------------------------------------------------

  class Collector {
    var entries: Contents

    constructor ()
      ensures entries == map[]
    {
      entries := map[];
    }

    /** Add every entry below `dir`, in enumeration order. */
    method Visit(prefix: Path, dir: Node) returns (ok: bool)
      requires WellFormed(dir) && dir.Dir?
      modifies this
      decreases dir
      ensures ok <==> !Refused(dir)
      ensures ok ==> entries == old(entries) + DirContents(prefix, dir, |dir.entries|)
    {
      hide DirContents, EntryContents, Refused, Join;
      ghost var before := entries;
      DirContentsEmpty(prefix, dir);
      assert before + map[] == before;
      for i := 0 to |dir.entries|
        invariant entries == before + DirContents(prefix, dir, i)
        invariant forall j :: 0 <= j < i ==> !RefusedEntry(dir.entries[j])
      {
        var e := dir.entries[i];
        var path := prefix + [e.name];
        ghost var earlier := DirContents(prefix, dir, i);
        DirContentsSnoc(prefix, dir, i);
        if !IsUtf8(e.name) {
          RefusedBelow(dir, i);
          return false;
        }
        match e.node
        case Dir(below) =>
          entries := entries[Join(path) := Folder];
          ok := Visit(path, e.node);
          if !ok {
            RefusedBelow(dir, i);
            return false;
          }
          Merge(before, earlier, Join(path), Folder, DirContents(path, e.node, |below|));
        case File(bytes) =>
          entries := entries[Join(path) := Bytes(bytes)];
          Merge(before, earlier, Join(path), Bytes(bytes), map[]);
        case _ =>
          RefusedBelow(dir, i);
          return false;
      }
      NoneRefused(dir);
      return true;
    }
  }

  lemma DirContentsEmpty(prefix: Path, dir: Node)
    requires dir.Dir?
    ensures DirContents(prefix, dir, 0) == map[]
  {
  }

  lemma DirContentsSnoc(prefix: Path, dir: Node, i: nat)
    requires dir.Dir? && i < |dir.entries|
    ensures var e := dir.entries[i];
            var path := prefix + [e.name];
            DirContents(prefix, dir, i + 1) == DirContents(prefix, dir, i) +
              match e.node
              case File(bytes) => map[Join(path) := Bytes(bytes)] + map[]
              case Dir(below) => map[Join(path) := Folder] + DirContents(path, e.node, |below|)
              case _ => map[]
  {
    hide Join;
    var e := dir.entries[i];
    if e.node.File? {
      var one := map[Join(prefix + [e.name]) := Bytes(e.node.bytes)];
      assert one + map[] == one;
    }
  }

  lemma Merge(before: Contents, earlier: Contents, p: string, content: Content, below: Contents)
    ensures (before + earlier)[p := content] + below == before + (earlier + (map[p := content] + below))
    ensures (before + earlier)[p := content] + map[] == (before + earlier)[p := content]
  {
  }

  ghost predicate RefusedEntry(e: Entry) {
    !IsUtf8(e.name) || e.node.Link? || e.node.Special? || (e.node.Dir? && Refused(e.node))
  }

  lemma RefusedBelow(dir: Node, i: nat)
    requires WellFormed(dir) && dir.Dir? && i < |dir.entries| && RefusedEntry(dir.entries[i])
    ensures Refused(dir)
  {
    hide IsUtf8;
    var e := dir.entries[i];
    var below: Path := [];
    if e.node.Dir? && IsUtf8(e.name) {
      below :| RefusedAt(e.node, below);
    }
    AtEntry(dir, i, below);
    var path := [e.name] + below;
    assert path[|path| - 1] == if below == [] then e.name else below[|below| - 1];
    assert RefusedAt(dir, path);
  }

  lemma NoneRefused(dir: Node)
    requires WellFormed(dir) && dir.Dir? && forall i :: 0 <= i < |dir.entries| ==> !RefusedEntry(dir.entries[i])
    ensures !Refused(dir)
  {
    hide IsUtf8;
    forall path: Path ensures !RefusedAt(dir, path) {
      if path != [] && At(dir, path).Some? {
        var i := AtThrough(dir, path);
        var node, below := dir.entries[i].node, path[1..];
        assert !RefusedEntry(dir.entries[i]) && At(dir, path) == At(node, below);
        assert below == [] ==> At(node, below) == Some(node);
        assert below != [] ==> node.Dir? && !RefusedAt(node, below) && below[|below| - 1] == path[|path| - 1];
      }
    }
  }

  /** The bytes hashed for a tree, or a refusal when it holds a link, a special file or a name that is not UTF-8. */
  method HashedBytes(root: Node) returns (hashed: Option<string>)
    requires WellFormed(root) && root.Dir?
    ensures hashed.Some? <==> !Refused(root)
    ensures hashed.Some? ==> Hashed(DirContents([], root, |root.entries|), hashed.value)
  {
    var collector := new Collector();
    var ok := collector.Visit([], root);
    if !ok { return None; }
    var contents := collector.entries;
    assert contents == DirContents([], root, |root.entries|);
    hashed := None;
    var bytes := HashContents(contents);
    return Some(bytes);
  }

  /** The records of the sorted paths, one after another. */
  method HashContents(contents: Contents) returns (bytes: string)
    ensures Hashed(contents, bytes)
  {
    TextOrders();
    hide TextLe, Record;
    var paths := Sort(TextLe, contents.Keys);
    forall i | 0 <= i < |paths| ensures paths[i] in contents { assert paths[i] in Elements(paths); }
    assert InOrder(paths, contents);
    bytes := "";
    assert paths[0..] == paths && bytes + Encode(paths, contents) == Encode(paths, contents);
    for i := 0 to |paths|
      invariant bytes + Encode(paths[i..], contents) == Encode(paths, contents)
    {
      assert paths[i..][1..] == paths[i + 1..] && paths[i..][0] == paths[i];
      var record := Record(paths[i], contents[paths[i]]);
      assert bytes + (record + Encode(paths[i + 1..], contents)) == bytes + record + Encode(paths[i + 1..], contents);
      bytes := bytes + record;
    }
    assert paths[|paths|..] == [] && bytes + "" == bytes;
  }

  predicate SameShown(a: Option<Node>, b: Option<Node>) { Shown(a) == Shown(b) }

  /** Same paths, same entry types, same file bytes. */
  ghost predicate SameTree(a: Node, b: Node) {
    forall path :: path != [] ==> SameShown(At(a, path), At(b, path))
  }

  /** Two trees hash the same bytes exactly when they are the same tree. The order in
      which either directory lists its entries does not matter. */
  lemma SameBytesSameTree(a: Node, b: Node, x: string, y: string)
    requires WellFormed(a) && WellFormed(b) && a.Dir? && b.Dir?
    requires AllFit(DirContents([], a, |a.entries|)) && AllFit(DirContents([], b, |b.entries|))
    requires Hashed(DirContents([], a, |a.entries|), x) && Hashed(DirContents([], b, |b.entries|), y)
    requires !Refused(a) && !Refused(b)
    ensures x == y <==> SameTree(a, b)
  {
    hide Hashed, AllFit, DirContents, IsContents, SameTree, Refused;
    var c, d := DirContents([], a, |a.entries|), DirContents([], b, |b.entries|);
    HashedIffEqual(c, d, x, y);
    DirContentsOf(a);
    DirContentsOf(b);
    if SameTree(a, b) {
      ContentsIncluded(a, b, c, d);
      SameTreeSymmetric(a, b);
      ContentsIncluded(b, a, d, c);
      assert c == d;
    }
    if c == d { SameContentsSameTree(a, b, c); }
  }

  lemma SameTreeSymmetric(a: Node, b: Node)
    requires SameTree(a, b)
    ensures SameTree(b, a)
  {
    hide At;
    forall path: Path | path != [] ensures SameShown(At(b, path), At(a, path)) {
      assert SameShown(At(a, path), At(b, path));
    }
  }

  lemma ContentsIncluded(a: Node, b: Node, c: Contents, d: Contents)
    requires IsContents(a, c) && IsContents(b, d) && SameTree(a, b)
    ensures forall p :: p in c ==> p in d && d[p] == c[p]
  {
    hide At, Shown, Join, IsContents;
    forall p | p in c ensures p in d && d[p] == c[p] {
      var path := ShownSomewhere(a, c, p);
      assert [] + path == path;
      assert SameShown(At(a, path), At(b, path));
      ContentsHave(b, d, path);
    }
  }

  lemma ContentsHave(b: Node, d: Contents, path: Path)
    requires IsContents(b, d) && path != [] && Shown(At(b, path)).Some?
    ensures Join(path) in d && d[Join(path)] == Shown(At(b, path)).value
  {
    hide At, Shown, Join, ShownAt;
  }

  lemma SameContentsSameTree(a: Node, b: Node, contents: Contents)
    requires WellFormed(a) && WellFormed(b) && IsContents(a, contents) && IsContents(b, contents)
    requires !Refused(a) && !Refused(b)
    ensures SameTree(a, b)
  {
    hide At, Shown, IsContents, WellFormed;
    forall path: Path | path != [] ensures SameShown(At(a, path), At(b, path)) {
      SameContentsShow(a, b, contents, path);
      SameContentsShow(b, a, contents, path);
    }
  }

  lemma SameContentsShow(a: Node, b: Node, contents: Contents, path: Path)
    requires WellFormed(a) && WellFormed(b) && IsContents(a, contents) && IsContents(b, contents) && path != []
    ensures Shown(At(a, path)).Some? ==> SameShown(At(a, path), At(b, path))
    ensures Shown(At(a, path)).None? && Shown(At(b, path)).None? ==> SameShown(At(a, path), At(b, path))
  {
    hide At, Shown, Join, WellFormed, IsContents;
    if Shown(At(a, path)).Some? {
      ContentsHave(a, contents, path);
      var other := ShownSomewhere(b, contents, Join(path));
      ShownIsSome(a, path);
      assert [] + other == other;
      AtValidNames(a, path);
      AtValidNames(b, other);
      JoinInjective(path, other);
    }
  }

  lemma ShownIsSome(a: Node, path: Path)
    requires Shown(At(a, path)).Some?
    ensures At(a, path).Some?
  {
  }

  lemma ShownSomewhere(b: Node, contents: Contents, p: string) returns (other: Path)
    requires IsContents(b, contents) && p in contents
    ensures ShownAt([], b, other, p, contents[p]) && At(b, other).Some?
  {
    hide At, Join;
    other :| ShownAt([], b, other, p, contents[p]);
  }

  // ---- the bytes as they are hashed -------------------------------------------------------------

  /** The number a byte string denotes, most significant byte first. */
  function Denoted(bytes: string): nat {
    if bytes == "" then 0 else 256 * Denoted(bytes[..|bytes| - 1]) + bytes[|bytes| - 1] as nat
  }

  lemma {:induction false} BigEndianDenotes(n: nat, k: nat)
    requires n < Pow256(k)
    ensures Denoted(BigEndian(n, k)) == n
    ensures forall i :: 0 <= i < k ==> BigEndian(n, k)[i] as nat < 256
    decreases k
  {
    if k == 0 {
    } else {
      BigEndianDenotes(n / 256, k - 1);
      var bytes := BigEndian(n, k);
      assert bytes[..k - 1] == BigEndian(n / 256, k - 1);
    }
  }

  /** A record is a letter for the type, then the path's length in eight bytes and the path, then
      the content's length in eight bytes and the content; a directory has none. */
  lemma RecordIs(path: string, content: Content) returns (a: string, b: string)
    requires Fits(path, content)
    ensures |a| == 8 && Denoted(a) == |path| && |b| == 8 && Denoted(b) == if content.Folder? then 0 else |content.bytes|
    ensures Record(path, content) == if content.Folder? then "D" + a + path + b else "F" + a + path + b + content.bytes
  {
    var body := if content.Folder? then "" else content.bytes;
    a, b := BigEndian(|path|, 8), BigEndian(|body|, 8);
    U64Fits();
    BigEndianDenotes(|path|, 8);
    BigEndianDenotes(|body|, 8);
  }
}
