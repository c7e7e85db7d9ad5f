/** Packing a plugin bundle: the ignore file, the pruned walk and the archive it builds. */
module Bundle {
  import opened Options
  import opened Texts
  import opened Orders
  import opened FileTree

  // ---- exclusions -----------------------------------------------------------------

  const IGNORE_FILE := ".curieignore"

  const EXCLUDED_NAMES: set<string> := {
    IGNORE_FILE, ".curie", ".git", ".venv", "venv", "node_modules", "__pycache__", ".mypy_cache", ".pytest_cache"
  }

  /** Bare names match any component, paths match themselves and what is below them. */
  datatype Exclusions = Exclusions(names: set<string>, paths: set<Path>)

  predicate IsExcluded(ex: Exclusions, path: Path) {
    || (exists i :: 0 <= i < |path| && path[i] in ex.names)
    || (exists n :: 0 <= n <= |path| && path[..n] in ex.paths)
  }

  /** What is below an excluded path is excluded. */
  lemma ExcludedBelow(ex: Exclusions, path: Path, rest: Path)
    requires IsExcluded(ex, path)
    ensures IsExcluded(ex, path + rest)
  {
    if i :| 0 <= i < |path| && path[i] in ex.names {
      assert (path + rest)[i] == path[i];
    } else {
      var n :| 0 <= n <= |path| && path[..n] in ex.paths;
      assert (path + rest)[..n] == path[..n];
    }
  }

  /** How many bytes the blank at the front of a UTF-8 text takes: a character with Unicode's
      White_Space property. 0 when there is none. */
  function BlankLength(text: string): (n: nat)
    ensures n <= |text|
  {
    if text == "" then 0
    else if text[0] == ' ' || '\U{9}' <= text[0] <= '\U{d}' then 1
    else if |text| >= 2 && text[0] == '\U{c2}' && (text[1] == '\U{85}' || text[1] == '\U{a0}') then 2
    else if |text| >= 3 && IsWideBlank(text[..3]) then 3
    else 0
  }

  /** U+1680, U+2000 to U+200A, U+2028, U+2029, U+202F, U+205F and U+3000. */
  predicate IsWideBlank(bytes: string)
    requires |bytes| == 3
  {
    || bytes == "\U{e1}\U{9a}\U{80}" || bytes == "\U{e2}\U{81}\U{9f}" || bytes == "\U{e3}\U{80}\U{80}"
    || (bytes[..2] == "\U{e2}\U{80}"
        && ('\U{80}' <= bytes[2] <= '\U{8a}' || bytes[2] == '\U{a8}' || bytes[2] == '\U{a9}' || bytes[2] == '\U{af}'))
  }

  /** How many bytes the blank at the end of a text takes. */
  function BlankAtEnd(text: string): (n: nat)
    ensures n <= |text|
  {
    if |text| >= 1 && BlankLength(text[|text| - 1..]) == 1 then 1
    else if |text| >= 2 && BlankLength(text[|text| - 2..]) == 2 then 2
    else if |text| >= 3 && BlankLength(text[|text| - 3..]) == 3 then 3
    else 0
  }

  function Trim(text: string): string
    decreases |text|
  {
    var front, end := BlankLength(text), BlankAtEnd(text);
    if front > 0 then Trim(text[front..]) else if end > 0 then Trim(text[..|text| - end]) else text
  }

  function TrimSlashes(text: string): string {
    if text != "" && text[|text| - 1] == '/' then TrimSlashes(text[..|text| - 1]) else text
  }

  /** The components of a relative path; `None` when it is rooted or has a `.` in front or a `..`. */
  function Components(pattern: string): Option<Path> {
    if pattern == "" || pattern[0] == '/' then None
    else
      var pieces := Split(pattern, '/');
      if pieces[0] == "." || ".." in pieces then None else Some(Normal(pieces))
  }

  /** Empty and `.` pieces inside a path name nothing. */
  function Normal(pieces: seq<string>): Path {
    if pieces == [] then []
    else (if pieces[0] == "" || pieces[0] == "." then [] else [pieces[0]]) + Normal(pieces[1..])
  }

  function ExtendLine(ex: Exclusions, line: string): Exclusions {
    var pattern := TrimSlashes(Trim(line));
    if pattern == "" || pattern[0] == '#' || Components(pattern).None? then ex
    else if '/' in pattern then ex.(paths := ex.paths + {Components(pattern).value})
    else ex.(names := ex.names + {pattern})
  }

  function Extend(ex: Exclusions, lines: seq<string>): (r: Exclusions)
    ensures ex.names <= r.names && ex.paths <= r.paths
    decreases |lines|
  {
    if lines == [] then ex else Extend(ExtendLine(ex, lines[0]), lines[1..])
  }

  const BUILT_IN := Exclusions(EXCLUDED_NAMES, {})

  /** Every declared path has a component, so the bundle root itself is never excluded. */
  lemma {:induction false} ExtendPaths(ex: Exclusions, lines: seq<string>)
    requires [] !in ex.paths
    ensures [] !in Extend(ex, lines).paths
    decreases |lines|
  {
    if lines == [] {
    } else {
      var pattern := TrimSlashes(Trim(lines[0]));
      if Components(pattern).Some? { assert Components(pattern).value != []; }
      ExtendPaths(ExtendLine(ex, lines[0]), lines[1..]);
    }
  }

  /** The exclusions of a bundle; an ignore file that is linked or not UTF-8 is refused. */
  ghost function Load(root: Node): Option<Exclusions> {
    match At(root, [IGNORE_FILE])
    case Some(Link) => None
    case Some(File(text)) => if IsUtf8(text) then Some(Extend(BUILT_IN, Split(text, '\n'))) else None
    case _ => Some(BUILT_IN)
  }

  // ---- the walk ---------------------------------------------------------------------

  datatype Packed = Packed(path: Path, bytes: string)

  /** `rest` names `node` below `dir` and survives the exclusions under `prefix`. */
  ghost predicate Survives(ex: Exclusions, prefix: Path, dir: Node, rest: Path, node: Node) {
    rest != [] && At(dir, rest) == Some(node) && !IsExcluded(ex, prefix + rest)
  }

  ghost predicate PathBefore(a: Path, b: Path) { a != b && TextsLe(a, b) }

  ghost predicate AscendingPaths(files: seq<Packed>) {
    forall i, j :: 0 <= i < j < |files| ==> PathBefore(files[i].path, files[j].path)
  }

  /** `files` are the surviving files below `dir` whose first component is in `heads`. */
  ghost predicate Packs(ex: Exclusions, prefix: Path, dir: Node, heads: set<string>, files: seq<Packed>) {
    && AscendingPaths(files)
    && (forall f :: f in files ==> PackedFrom(ex, prefix, dir, heads, f))
    && (forall rest, bytes :: Survives(ex, prefix, dir, rest, File(bytes)) && rest[0] in heads ==>
          Packed(prefix + rest, bytes) in files)
  }

  ghost predicate PackedFrom(ex: Exclusions, prefix: Path, dir: Node, heads: set<string>, f: Packed) {
    |prefix| < |f.path| && f.path[..|prefix|] == prefix && f.path[|prefix|] in heads
    && Survives(ex, prefix, dir, f.path[|prefix|..], File(f.bytes))
  }

  ghost predicate LinkSurvives(ex: Exclusions, prefix: Path, dir: Node) {
    exists rest :: Survives(ex, prefix, dir, rest, Link)
  }

  function EntryNames(dir: Node): set<string>
    requires dir.Dir?
  {
    set i | 0 <= i < |dir.entries| :: dir.entries[i].name
  }

  ghost predicate LinkBelow(ex: Exclusions, prefix: Path, dir: Node, head: string) {
    exists rest :: Survives(ex, prefix, dir, rest, Link) && rest[0] == head
  }

  /** Files are archived in directory order, links that survive are refused. */
  class Builder {
    var files: seq<Packed>

    constructor ()
      ensures files == []
    {
      files := [];
    }

    /** Append the files below `dir`, which lies at `prefix` under the bundle root. */
    method AppendDir(prefix: Path, dir: Node, ex: Exclusions) returns (ok: bool)
      requires WellFormed(dir) && dir.Dir?
      modifies this
      decreases dir, 1
      ensures ok <==> !LinkSurvives(ex, prefix, dir)
      ensures ok ==> |files| >= |old(files)| && files[..|old(files)|] == old(files)
                     && Packs(ex, prefix, dir, EntryNames(dir), files[|old(files)|..])
    {
      TextOrders();
      hide TextLe, Packs, LinkBelow;
      var names := Sort(TextLe, EntryNames(dir));
      ghost var start, added := files, [];
      PacksNothing(ex, prefix, dir);
      assert Elements(names[..0]) == {};
      for k := 0 to |names|
        invariant files == start + added
        invariant Packs(ex, prefix, dir, Elements(names[..k]), added)
        invariant forall n :: n in names[..k] ==> !LinkBelow(ex, prefix, dir, n)
      {
        assert names[k] in Elements(names);
        var i :| 0 <= i < |dir.entries| && dir.entries[i].name == names[k];
        ghost var before := files;
        ok := AppendEntry(prefix, dir, i, ex);
        if !ok {
          LinkBelowSurvives(ex, prefix, dir, names[k]);
          return false;
        }
        ghost var more := files[|before|..];
        assert files == start + (added + more);
        PacksConcat(ex, prefix, dir, Elements(names[..k]), added, names[k], more);
        assert Elements(names[..k + 1]) == Elements(names[..k]) + {names[k]};
        added := added + more;
      }
      assert names[..|names|] == names;
      assert files[|start|..] == added;
      NoLinkSurvives(ex, prefix, dir);
      return true;
    }

    /** Append what one entry contributes. */
    method AppendEntry(prefix: Path, dir: Node, i: nat, ex: Exclusions) returns (ok: bool)
      requires WellFormed(dir) && dir.Dir? && i < |dir.entries|
      modifies this
      decreases dir, 0
      ensures ok <==> !LinkBelow(ex, prefix, dir, dir.entries[i].name)
      ensures ok ==> |files| >= |old(files)| && files[..|old(files)|] == old(files)
                     && Packs(ex, prefix, dir, {dir.entries[i].name}, files[|old(files)|..])
    {
      hide Packs, LinkBelow, LinkSurvives, IsExcluded;
      var entry := dir.entries[i];
      var path := prefix + [entry.name];
      ghost var before := files;
      if IsExcluded(ex, path) {
        ExcludedEntry(ex, prefix, dir, i);
        assert files[|before|..] == [];
        return true;
      }
      match entry.node
      case Link =>
        LinkEntry(ex, prefix, dir, i);
        return false;
      case Dir(_) =>
        ok := AppendDir(path, entry.node, ex);
        LinkInDirectory(ex, prefix, dir, i);
        if ok { DirectoryEntry(ex, prefix, dir, i, files[|before|..]); }
      case File(bytes) =>
        files := files + [Packed(path, bytes)];
        FileEntry(ex, prefix, dir, i);
        assert files[|before|..] == [Packed(path, bytes)];
        return true;
      case Special =>
        SpecialEntry(ex, prefix, dir, i);
        assert files[|before|..] == [];
        return true;
    }
  }

  // ---- one entry ------------------------------------------------------------------------

  lemma PacksNothing(ex: Exclusions, prefix: Path, dir: Node)
    ensures Packs(ex, prefix, dir, {}, [])
  {
  }

  lemma LinkBelowSurvives(ex: Exclusions, prefix: Path, dir: Node, head: string)
    requires LinkBelow(ex, prefix, dir, head)
    ensures LinkSurvives(ex, prefix, dir)
  {
  }

  lemma NoLinkSurvives(ex: Exclusions, prefix: Path, dir: Node)
    requires WellFormed(dir) && dir.Dir? && forall n :: n in EntryNames(dir) ==> !LinkBelow(ex, prefix, dir, n)
    ensures !LinkSurvives(ex, prefix, dir)
  {
    if rest :| Survives(ex, prefix, dir, rest, Link) {
      var i := AtThrough(dir, rest);
      assert LinkBelow(ex, prefix, dir, rest[0]);
    }
  }

  /** What survives through entry `i` is the entry itself or lies below it. */
  lemma ThroughEntry(dir: Node, i: nat, rest: Path)
    requires WellFormed(dir) && dir.Dir? && i < |dir.entries| && rest != [] && rest[0] == dir.entries[i].name
    ensures At(dir, rest) == At(dir.entries[i].node, rest[1..])
    ensures forall prefix: Path :: prefix + rest == prefix + [rest[0]] + rest[1..]
  {
    AtEntry(dir, i, rest[1..]);
    assert [rest[0]] + rest[1..] == rest;
  }

  lemma ExcludedEntry(ex: Exclusions, prefix: Path, dir: Node, i: nat)
    requires WellFormed(dir) && dir.Dir? && i < |dir.entries| && IsExcluded(ex, prefix + [dir.entries[i].name])
    ensures Packs(ex, prefix, dir, {dir.entries[i].name}, []) && !LinkBelow(ex, prefix, dir, dir.entries[i].name)
  {
    hide IsExcluded;
    var name := dir.entries[i].name;
    forall rest: Path, node: Node | rest != [] && rest[0] == name ensures !Survives(ex, prefix, dir, rest, node) {
      ThroughEntry(dir, i, rest);
      ExcludedBelow(ex, prefix + [name], rest[1..]);
    }
  }

  lemma LinkEntry(ex: Exclusions, prefix: Path, dir: Node, i: nat)
    requires WellFormed(dir) && dir.Dir? && i < |dir.entries| && !IsExcluded(ex, prefix + [dir.entries[i].name])
    requires dir.entries[i].node.Link?
    ensures LinkBelow(ex, prefix, dir, dir.entries[i].name)
  {
    hide IsExcluded;
    ThroughEntry(dir, i, [dir.entries[i].name]);
    assert Survives(ex, prefix, dir, [dir.entries[i].name], Link);
  }

  lemma SpecialEntry(ex: Exclusions, prefix: Path, dir: Node, i: nat)
    requires WellFormed(dir) && dir.Dir? && i < |dir.entries| && dir.entries[i].node.Special?
    ensures Packs(ex, prefix, dir, {dir.entries[i].name}, []) && !LinkBelow(ex, prefix, dir, dir.entries[i].name)
  {
    hide IsExcluded;
    forall rest: Path, node: Node | rest != [] && rest[0] == dir.entries[i].name && !node.Special?
      ensures !Survives(ex, prefix, dir, rest, node)
    {
      ThroughEntry(dir, i, rest);
    }
  }

  lemma FileEntry(ex: Exclusions, prefix: Path, dir: Node, i: nat)
    requires WellFormed(dir) && dir.Dir? && i < |dir.entries| && !IsExcluded(ex, prefix + [dir.entries[i].name])
    requires dir.entries[i].node.File?
    ensures var name := dir.entries[i].name;
            && Packs(ex, prefix, dir, {name}, [Packed(prefix + [name], dir.entries[i].node.bytes)])
            && !LinkBelow(ex, prefix, dir, name)
  {
    hide IsExcluded;
    var name, f := dir.entries[i].name, Packed(prefix + [dir.entries[i].name], dir.entries[i].node.bytes);
    forall rest: Path, node: Node | Survives(ex, prefix, dir, rest, node) && rest[0] == name
      ensures rest == [name] && node == dir.entries[i].node
    {
      ThroughEntry(dir, i, rest);
      assert rest == [rest[0]] + rest[1..];
    }
    ThroughEntry(dir, i, [name]);
    assert f.path[..|prefix|] == prefix && f.path[|prefix|..] == [name];
    assert PackedFrom(ex, prefix, dir, {name}, f);
  }

  lemma LinkInDirectory(ex: Exclusions, prefix: Path, dir: Node, i: nat)
    requires WellFormed(dir) && dir.Dir? && i < |dir.entries| && dir.entries[i].node.Dir?
    ensures var e := dir.entries[i];
            LinkSurvives(ex, prefix + [e.name], e.node) <==> LinkBelow(ex, prefix, dir, e.name)
  {
    hide IsExcluded;
    var e := dir.entries[i];
    if rest :| Survives(ex, prefix + [e.name], e.node, rest, Link) {
      var longer := [e.name] + rest;
      AtEntry(dir, i, rest);
      assert prefix + longer == prefix + [e.name] + rest;
      assert Survives(ex, prefix, dir, longer, Link);
    }
    if rest :| Survives(ex, prefix, dir, rest, Link) && rest[0] == e.name {
      ThroughEntry(dir, i, rest);
      assert Survives(ex, prefix + [e.name], e.node, rest[1..], Link);
    }
  }

  lemma PackedFromEntry(ex: Exclusions, prefix: Path, dir: Node, i: nat, f: Packed)
    requires WellFormed(dir) && dir.Dir? && i < |dir.entries| && dir.entries[i].node.Dir?
    requires PackedFrom(ex, prefix + [dir.entries[i].name], dir.entries[i].node, EntryNames(dir.entries[i].node), f)
    ensures PackedFrom(ex, prefix, dir, {dir.entries[i].name}, f)
  {
    hide IsExcluded, WellFormed;
    var e := dir.entries[i];
    var path := prefix + [e.name];
    var rest := f.path[|path|..];
    AtEntry(dir, i, rest);
    assert f.path[|prefix|..] == [e.name] + rest;
    assert f.path[..|prefix|] == path[..|prefix|] == prefix;
    assert prefix + ([e.name] + rest) == path + rest;
  }

  lemma DirectoryEntry(ex: Exclusions, prefix: Path, dir: Node, i: nat, more: seq<Packed>)
    requires WellFormed(dir) && dir.Dir? && i < |dir.entries| && dir.entries[i].node.Dir?
    requires Packs(ex, prefix + [dir.entries[i].name], dir.entries[i].node, EntryNames(dir.entries[i].node), more)
    ensures Packs(ex, prefix, dir, {dir.entries[i].name}, more)
  {
    hide IsExcluded, AscendingPaths;
    var e := dir.entries[i];
    var path := prefix + [e.name];
    forall f | f in more ensures PackedFrom(ex, prefix, dir, {e.name}, f) {
      assert PackedFrom(ex, path, e.node, EntryNames(e.node), f);
      PackedFromEntry(ex, prefix, dir, i, f);
    }
    hide PackedFrom;
    forall rest, bytes | Survives(ex, prefix, dir, rest, File(bytes)) && rest[0] == e.name
      ensures Packed(prefix + rest, bytes) in more
    {
      ThroughEntry(dir, i, rest);
      var j := AtThrough(e.node, rest[1..]);
      assert Survives(ex, path, e.node, rest[1..], File(bytes));
    }
  }

  // ---- order of the archive ----------------------------------------------------------------

  /** Paths that first differ at one component are ordered by it. */
  lemma {:induction false} OrderedAt(prefix: Path, a: Path, b: Path)
    requires a != [] && b != [] && a[0] != b[0] && TextLe(a[0], b[0])
    ensures PathBefore(prefix + a, prefix + b)
    decreases |prefix|
  {
    hide TextLe;
    if prefix == [] {
      assert prefix + a == a && prefix + b == b;
      assert LexLe(TextLe, a, b);
    } else {
      assert (prefix + a)[1..] == prefix[1..] + a && (prefix + b)[1..] == prefix[1..] + b;
      OrderedAt(prefix[1..], a, b);
      assert TextsLe(prefix[1..] + a, prefix[1..] + b) == LexLe(TextLe, prefix[1..] + a, prefix[1..] + b);
    }
  }

  lemma PacksConcat(ex: Exclusions, prefix: Path, dir: Node, heads: set<string>, added: seq<Packed>,
                    head: string, more: seq<Packed>)
    requires Packs(ex, prefix, dir, heads, added) && Packs(ex, prefix, dir, {head}, more)
    requires forall h :: h in heads ==> h != head && TextLe(h, head)
    ensures Packs(ex, prefix, dir, heads + {head}, added + more)
  {
    hide TextLe, TextsLe, Survives;
    forall f | f in added + more ensures PackedFrom(ex, prefix, dir, heads + {head}, f) {
      assert if f in added then PackedFrom(ex, prefix, dir, heads, f) else PackedFrom(ex, prefix, dir, {head}, f);
    }
    forall i, j | 0 <= i < j < |added + more| ensures PathBefore((added + more)[i].path, (added + more)[j].path) {
      if i < |added| && |added| <= j {
        var f, g := added[i], more[j - |added|];
        assert f in added && g in more;
        assert PackedFrom(ex, prefix, dir, heads, f) && PackedFrom(ex, prefix, dir, {head}, g);
        var n := |prefix|;
        assert f.path == prefix + f.path[n..] && g.path == prefix + g.path[n..];
        OrderedAt(prefix, f.path[n..], g.path[n..]);
      }
    }
  }
}
