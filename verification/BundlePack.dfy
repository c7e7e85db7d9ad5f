/** Packing a whole bundle, and what a pack does not depend on. */
module BundlePack {
  import opened Options
  import opened Texts
  import opened Orders
  import opened FileTree
  import opened Bundle

  // ---- packing --------------------------------------------------------------------

  /** Read the ignore file, if the bundle has one, line by line. */
  method LoadExclusions(root: Node) returns (ex: Option<Exclusions>)
    requires WellFormed(root) && root.Dir?
    ensures ex == Load(root)
  {
    var found := 0;
    while found < |root.entries| && root.entries[found].name != IGNORE_FILE
      invariant 0 <= found <= |root.entries|
      invariant forall j :: 0 <= j < found ==> root.entries[j].name != IGNORE_FILE
    {
      found := found + 1;
    }
    if found == |root.entries| {
      assert At(root, [IGNORE_FILE]).None?;
      return Some(BUILT_IN);
    }
    AtEntry(root, found, []);
    assert [IGNORE_FILE] + [] == [IGNORE_FILE];
    match root.entries[found].node
    case Link => return None;
    case File(text) =>
      if !IsUtf8(text) { return None; }
      var lines := Split(text, '\n');
      var all := BUILT_IN;
      for i := 0 to |lines|
        invariant Extend(all, lines[i..]) == Extend(BUILT_IN, lines)
      {
        assert lines[i..][1..] == lines[i + 1..];
        all := ExtendLine(all, lines[i]);
      }
      return Some(all);
    case _ => return Some(BUILT_IN);
  }

  /** The archive of `root` under its own exclusions. */
  ghost predicate IsArchive(root: Node, archive: seq<Packed>) {
    && root.Dir? && Load(root).Some? && !LinkSurvives(Load(root).value, [], root)
    && Packs(Load(root).value, [], root, EntryNames(root), archive)
  }

  ghost predicate Packable(root: Node) {
    root.Dir? && Load(root).Some? && !LinkSurvives(Load(root).value, [], root)
  }

  method Pack(root: Node) returns (archive: Option<seq<Packed>>)
    requires WellFormed(root)
    ensures archive.Some? <==> Packable(root)
    ensures archive.Some? ==> IsArchive(root, archive.value)
  {
    hide Packs, Load, LinkSurvives;
    if !root.Dir? { return None; }
    var ex := LoadExclusions(root);
    if ex.None? { return None; }
    var builder := new Builder();
    var ok := builder.AppendDir([], root, ex.value);
    if !ok { return None; }
    assert builder.files[0..] == builder.files;
    return Some(builder.files);
  }

  // ---- what an archive holds --------------------------------------------------------

  /** The pruned walk keeps exactly the files no prefix of whose path is excluded. */
  lemma ArchiveHolds(root: Node, archive: seq<Packed>, path: Path, bytes: string)
    requires WellFormed(root) && IsArchive(root, archive)
    ensures Packed(path, bytes) in archive <==>
            path != [] && At(root, path) == Some(File(bytes)) &&
            forall n :: 0 <= n <= |path| ==> !IsExcluded(Load(root).value, path[..n])
  {
    hide Load, IsExcluded, TextsLe;
    var ex, f := Load(root).value, Packed(path, bytes);
    assert path[..|path|] == path && [] + path == path;
    if path != [] && At(root, path) == Some(File(bytes)) && !IsExcluded(ex, path) {
      var i := AtThrough(root, path);
      assert Survives(ex, [], root, path, File(bytes));
    }
    if f in archive {
      assert PackedFrom(ex, [], root, EntryNames(root), f);
      assert f.path[0..] == path;
      forall n | 0 <= n <= |path| ensures !IsExcluded(ex, path[..n]) { PrefixExcluded(ex, path, n); }
    }
  }

  lemma PrefixExcluded(ex: Exclusions, path: Path, n: nat)
    requires n <= |path|
    ensures IsExcluded(ex, path[..n]) ==> IsExcluded(ex, path)
  {
    if IsExcluded(ex, path[..n]) {
      ExcludedBelow(ex, path[..n], path[n..]);
      assert path[..n] + path[n..] == path;
    }
  }

  /** Extracting an archive writes its files in order; no later file replaces an earlier one. */
  method Unpack(archive: seq<Packed>) returns (files: map<Path, string>)
    requires AscendingPaths(archive)
    ensures forall path, bytes :: (path in files && files[path] == bytes) <==> Packed(path, bytes) in archive
  {
    files := map[];
    for i := 0 to |archive|
      invariant forall path, bytes :: (path in files && files[path] == bytes) <==> Packed(path, bytes) in archive[..i]
      invariant forall path :: path in files ==> exists j :: 0 <= j < i && archive[j].path == path
    {
      assert forall j :: 0 <= j < i ==> PathBefore(archive[j].path, archive[i].path);
      assert archive[i].path !in files;
      assert archive[..i + 1] == archive[..i] + [archive[i]];
      files := files[archive[i].path := archive[i].bytes];
    }
    assert archive[..|archive|] == archive;
  }

  predicate PackedBefore(a: Packed, b: Packed) {
    if a.path == b.path then TextLe(a.bytes, b.bytes) else TextsLe(a.path, b.path)
  }

  const PackedLe: (Packed, Packed) -> bool := (a, b) => PackedBefore(a, b)

  /** Two archives with the same files are the same archive. */
  lemma ArchiveUnique(a: seq<Packed>, b: seq<Packed>)
    requires AscendingPaths(a) && AscendingPaths(b) && forall f :: f in a <==> f in b
    ensures a == b
  {
    TextOrders();
    assert TotalOrder(PackedLe) by { hide TextLe, TextsLe; }
    hide TextLe, TextsLe;
    assert Ascending(PackedLe, a) && Ascending(PackedLe, b);
    assert Elements(a) == Elements(b);
    ListingUnique(PackedLe, a, b, Elements(a));
  }

  // ---- what a pack does not depend on --------------------------------------------------

  /** What packing can see at a path. */
  ghost function Leaf(root: Node, path: Path): Option<Node> {
    match At(root, path)
    case Some(File(bytes)) => Some(File(bytes))
    case Some(Link) => Some(Link)
    case _ => None
  }

  /** The two bundles agree wherever `ex` excludes nothing. */
  ghost predicate AgreeOutside(ex: Exclusions, a: Node, b: Node) {
    forall path :: path != [] && !IsExcluded(ex, path) ==> Leaf(a, path) == Leaf(b, path)
  }

  lemma LoadFromLeaf(a: Node, b: Node)
    requires Leaf(a, [IGNORE_FILE]) == Leaf(b, [IGNORE_FILE])
    ensures Load(a) == Load(b)
  {
    hide At;
  }

  lemma SurvivesAlike(ex: Exclusions, a: Node, b: Node, path: Path, node: Node)
    requires AgreeOutside(ex, a, b) && Survives(ex, [], a, path, node) && (node.File? || node.Link?)
    ensures Survives(ex, [], b, path, node)
  {
    hide IsExcluded;
    assert [] + path == path;
    assert Leaf(a, path) == Leaf(b, path);
  }

  lemma AgreeSymmetric(ex: Exclusions, a: Node, b: Node)
    requires AgreeOutside(ex, a, b)
    ensures AgreeOutside(ex, b, a)
  {
    hide IsExcluded, Leaf;
  }

  lemma PackableAlike(a: Node, b: Node)
    requires a.Dir? && b.Dir? && Load(a) == Load(b) && Packable(a) && AgreeOutside(Load(a).value, a, b)
    ensures Packable(b)
  {
    hide Load;
    var ex := Load(a).value;
    AgreeSymmetric(ex, a, b);
    if rest :| Survives(ex, [], b, rest, Link) { SurvivesAlike(ex, b, a, rest, Link); }
  }

  lemma ArchiveIncludes(a: Node, b: Node, archiveA: seq<Packed>, archiveB: seq<Packed>, f: Packed)
    requires WellFormed(a) && WellFormed(b) && Load(a) == Load(b) && Load(a).Some?
    requires AgreeOutside(Load(a).value, a, b)
    requires IsArchive(a, archiveA) && IsArchive(b, archiveB) && f in archiveA
    ensures f in archiveB
  {
    var ex := Load(a).value;
    ArchiveHolds(a, archiveA, f.path, f.bytes);
    ArchiveHolds(b, archiveB, f.path, f.bytes);
    hide Load, IsExcluded, At;
    assert f.path[..|f.path|] == f.path;
    assert Leaf(a, f.path) == Leaf(b, f.path);
  }

  /** Bundles that agree outside the exclusions, ignore file included, pack alike: both are
      refused, or both give the same archive, entry by entry. */
  lemma PackAlike(a: Node, b: Node, archiveA: seq<Packed>, archiveB: seq<Packed>)
    requires WellFormed(a) && WellFormed(b) && a.Dir? && b.Dir?
    requires Leaf(a, [IGNORE_FILE]) == Leaf(b, [IGNORE_FILE])
    requires Load(a).Some? ==> AgreeOutside(Load(a).value, a, b)
    ensures Packable(a) <==> Packable(b)
    ensures IsArchive(a, archiveA) && IsArchive(b, archiveB) ==> archiveA == archiveB
  {
    LoadFromLeaf(a, b);
    if Load(a).Some? {
      AgreeSymmetric(Load(a).value, a, b);
      hide Load, AgreeOutside, Survives, PackedFrom, PathBefore;
      if Packable(a) { PackableAlike(a, b); }
      if Packable(b) { PackableAlike(b, a); }
      if IsArchive(a, archiveA) && IsArchive(b, archiveB) {
        forall f ensures f in archiveA <==> f in archiveB {
          if f in archiveA { ArchiveIncludes(a, b, archiveA, archiveB, f); }
          if f in archiveB { ArchiveIncludes(b, a, archiveB, archiveA, f); }
        }
        ArchiveUnique(archiveA, archiveB);
      }
    }
  }

  /** Writing under the state directory never changes a later pack. */
  lemma StateNeverPacked(a: Node, b: Node, archiveA: seq<Packed>, archiveB: seq<Packed>)
    requires WellFormed(a) && WellFormed(b) && a.Dir? && b.Dir?
    requires forall path :: ".curie" !in path ==> Leaf(a, path) == Leaf(b, path)
    ensures Packable(a) <==> Packable(b)
    ensures IsArchive(a, archiveA) && IsArchive(b, archiveB) ==> archiveA == archiveB
  {
    assert ".curie" !in [IGNORE_FILE];
    if Load(a).Some? {
      var ex := Load(a).value;
      assert ".curie" in ex.names by { LoadNames(a); }
      forall path: Path | path != [] && !IsExcluded(ex, path) ensures Leaf(a, path) == Leaf(b, path) {
        NameExcludes(ex, path, ".curie");
      }
    }
    hide Load, AgreeOutside, Leaf;
    PackAlike(a, b, archiveA, archiveB);
  }

  lemma NameExcludes(ex: Exclusions, path: Path, name: string)
    ensures name in path && name in ex.names ==> IsExcluded(ex, path)
  {
  }

  lemma LoadNames(root: Node)
    requires Load(root).Some?
    ensures EXCLUDED_NAMES <= Load(root).value.names && [] !in Load(root).value.paths
  {
    match At(root, [IGNORE_FILE])
    case Some(File(text)) => ExtendPaths(BUILT_IN, Split(text, '\n'));
    case _ =>
  }

  // ---- a clean status ---------------------------------------------------------------------

  /** The path an entry of `git status --porcelain -z` names, below the bundle. */
  function StatusPath(prefix: Path, entry: string): Option<Path> {
    if |entry| < 3 || !IsUtf8(entry[3..]) then None
    else
      var path := Normal(Split(entry[3..], '/'));
      if prefix <= path then Some(path[|prefix|..]) else None
  }

  predicate CleanEntry(ex: Exclusions, prefix: Path, entry: string) {
    entry == "" ||
    var path := StatusPath(prefix, entry);
    path.Some? && path.value != [IGNORE_FILE] && IsExcluded(ex, path.value)
  }

  /** No change that the status lists can affect the packed bundle. */
  method StatusIsClean(root: Node, prefix: Path, status: string) returns (clean: bool)
    requires WellFormed(root) && root.Dir?
    ensures clean <==> IsClean(root, prefix, status)
  {
    var ex := LoadExclusions(root);
    if ex.None? { return false; }
    var entries := Split(status, '\U{0}');
    for i := 0 to |entries|
      invariant forall j :: 0 <= j < i ==> CleanEntry(ex.value, prefix, entries[j])
    {
      if !CleanEntry(ex.value, prefix, entries[i]) { return false; }
    }
    return true;
  }

  ghost predicate IsClean(root: Node, prefix: Path, status: string) {
    Load(root).Some? &&
    forall i :: 0 <= i < |Split(status, '\U{0}')| ==> CleanEntry(Load(root).value, prefix, Split(status, '\U{0}')[i])
  }

  /** Some entry names `path`, or a directory above it that the status lists as a whole. */
  ghost predicate ListedIn(prefix: Path, status: string, path: Path) {
    exists i :: 0 <= i < |Split(status, '\U{0}')| && NamesAbove(prefix, Split(status, '\U{0}')[i], path)
  }

  predicate NamesAbove(prefix: Path, entry: string, path: Path) {
    |entry| >= 3 && prefix <= Normal(Split(entry[3..], '/')) && Normal(Split(entry[3..], '/'))[|prefix|..] <= path
  }

  /** If the status lists every difference, a clean status means the working tree and the
      committed tree pack to the same archive. */
  lemma CleanPacksCommitted(working: Node, committed: Node, prefix: Path, status: string,
                            archiveW: seq<Packed>, archiveC: seq<Packed>)
    requires WellFormed(working) && WellFormed(committed) && working.Dir? && committed.Dir?
    requires IsClean(working, prefix, status)
    requires forall path :: Leaf(working, path) != Leaf(committed, path) ==> ListedIn(prefix, status, path)
    ensures Packable(working) <==> Packable(committed)
    ensures IsArchive(working, archiveW) && IsArchive(committed, archiveC) ==> archiveW == archiveC
  {
    var ex := Load(working).value;
    LoadNames(working);
    hide Load, Leaf, StatusPath, Split;
    forall path: Path | path != [] && !IsExcluded(ex, path) ensures Leaf(working, path) == Leaf(committed, path) {
      ListedIsExcluded(working, prefix, status, path);
    }
    IgnoreFileNotListed(working, prefix, status);
    PackAlike(working, committed, archiveW, archiveC);
  }

  lemma ListedIsExcluded(root: Node, prefix: Path, status: string, path: Path)
    requires IsClean(root, prefix, status)
    ensures ListedIn(prefix, status, path) ==> IsExcluded(Load(root).value, path)
  {
    hide Load, StatusPath, Split, IsExcluded;
    if ListedIn(prefix, status, path) {
      var entry := ListedEntry(root, prefix, status, path);
      var above := StatusPath(prefix, entry).value;
      PrefixExcluded(Load(root).value, path, |above|);
      assert path[..|above|] == above;
    }
  }

  lemma IgnoreFileNotListed(root: Node, prefix: Path, status: string)
    requires IsClean(root, prefix, status)
    ensures !ListedIn(prefix, status, [IGNORE_FILE])
  {
    LoadNames(root);
    hide Load, StatusPath, Split;
    forall path: Path | path <= [IGNORE_FILE] && path != [IGNORE_FILE]
      ensures !IsExcluded(Load(root).value, path)
    {
      assert |path| == 0;
    }
    if ListedIn(prefix, status, [IGNORE_FILE]) {
      var entry := ListedEntry(root, prefix, status, [IGNORE_FILE]);
    }
  }

  lemma ListedEntry(root: Node, prefix: Path, status: string, path: Path) returns (entry: string)
    requires IsClean(root, prefix, status) && ListedIn(prefix, status, path)
    ensures CleanEntry(Load(root).value, prefix, entry) && entry != ""
    ensures StatusPath(prefix, entry).Some? && StatusPath(prefix, entry).value <= path
  {
    var i :| 0 <= i < |Split(status, '\U{0}')| && NamesAbove(prefix, Split(status, '\U{0}')[i], path);
    entry := Split(status, '\U{0}')[i];
  }

  // ---- what a status says -----------------------------------------------------------------------

  /** A clean status consists of entries each of which names, after two letters and a space, an
      excluded path below the bundle that is not the ignore file. */
  lemma CleanIs(root: Node, prefix: Path, status: string)
    ensures IsClean(root, prefix, status) <==>
            && Load(root).Some?
            && forall entry :: entry in Split(status, '\U{0}') && entry != "" ==>
                 && |entry| >= 3 && IsUtf8(entry[3..])
                 && exists path :: Normal(Split(entry[3..], '/')) == prefix + path
                                   && path != [".curieignore"] && IsExcluded(Load(root).value, path)
  {
    if Load(root).Some? {
      var ex, entries := Load(root).value, Split(status, '\U{0}');
      forall entry ensures CleanEntry(ex, prefix, entry) <==>
          entry == "" || (|entry| >= 3 && IsUtf8(entry[3..])
                          && exists path :: Normal(Split(entry[3..], '/')) == prefix + path
                                            && path != [".curieignore"] && IsExcluded(ex, path))
      {
        EntryIs(ex, prefix, entry);
      }
      hide CleanEntry, IsUtf8, Normal, IsExcluded, Split;
      if IsClean(root, prefix, status) {
        forall entry | entry in entries ensures CleanEntry(ex, prefix, entry) {
          var i :| 0 <= i < |entries| && entries[i] == entry;
        }
      }
      if forall entry :: entry in entries ==> CleanEntry(ex, prefix, entry) {
        forall i | 0 <= i < |entries| ensures CleanEntry(ex, prefix, entries[i]) { assert entries[i] in entries; }
      }
    }
  }

  lemma EntryIs(ex: Exclusions, prefix: Path, entry: string)
    ensures CleanEntry(ex, prefix, entry) <==>
            entry == "" || (|entry| >= 3 && IsUtf8(entry[3..])
                            && exists path :: Normal(Split(entry[3..], '/')) == prefix + path
                                              && path != [".curieignore"] && IsExcluded(ex, path))
  {
    hide IsUtf8, Normal, IsExcluded, Split;
    if |entry| >= 3 {
      var named := Normal(Split(entry[3..], '/'));
      if prefix <= named { assert named == prefix + named[|prefix|..]; }
      forall path | named == prefix + path ensures prefix <= named && named[|prefix|..] == path { }
    }
  }

  /** A status lists a path when an entry names it or something above it. */
  lemma ListedIs(prefix: Path, status: string, path: Path)
    ensures ListedIn(prefix, status, path) <==>
            exists entry, above :: entry in Split(status, '\U{0}') && |entry| >= 3
                                   && Normal(Split(entry[3..], '/')) == prefix + above && above <= path
  {
    hide Normal, Split;
    var entries := Split(status, '\U{0}');
    if i :| 0 <= i < |entries| && NamesAbove(prefix, entries[i], path) {
      var named := Normal(Split(entries[i][3..], '/'));
      assert entries[i] in entries && named == prefix + named[|prefix|..];
    }
    if entry, above :| entry in entries && |entry| >= 3 && Normal(Split(entry[3..], '/')) == prefix + above && above <= path {
      var i :| 0 <= i < |entries| && entries[i] == entry;
      assert (prefix + above)[|prefix|..] == above;
      assert NamesAbove(prefix, entries[i], path);
    }
  }
}
