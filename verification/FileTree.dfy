/** Directory trees as the packers read them.

    Names and contents are byte strings, one `char` per byte. A directory lists its
    entries in some enumeration order; `At` looks a path up whatever that order is.
 */
module FileTree {
  import opened Options
  import opened Texts

  datatype Node = File(bytes: string) | Dir(entries: seq<Entry>) | Link | Special

  datatype Entry = Entry(name: string, node: Node)

  /** A relative path as its components. */
  type Path = seq<string>

  predicate ValidName(name: string) { name != "" && '/' !in name && name != "." && name != ".." }

  /** Entry names are single components and differ from each other, at every depth. */
  predicate WellFormed(node: Node) {
    node.Dir? ==>
      && (forall i :: 0 <= i < |node.entries| ==>
            ValidName(node.entries[i].name) && WellFormed(node.entries[i].node))
      && (forall i, j :: 0 <= i < j < |node.entries| ==> node.entries[i].name != node.entries[j].name)
  }

  /** What `path` names below `node`. */
  ghost function At(node: Node, path: Path): Option<Node>
    decreases path
  {
    if path == [] then Some(node)
    else if i :| node.Dir? && 0 <= i < |node.entries| && node.entries[i].name == path[0] then
      At(node.entries[i].node, path[1..])
    else None
  }

  lemma AtEntry(dir: Node, i: nat, rest: Path)
    requires WellFormed(dir) && dir.Dir? && i < |dir.entries|
    ensures At(dir, [dir.entries[i].name] + rest) == At(dir.entries[i].node, rest)
  {
    var path := [dir.entries[i].name] + rest;
    assert path[1..] == rest;
    var j :| 0 <= j < |dir.entries| && dir.entries[j].name == path[0]
             && At(dir, path) == At(dir.entries[j].node, path[1..]);
  }

  /** A path below a directory goes through one of its entries. */
  lemma AtThrough(dir: Node, path: Path) returns (i: nat)
    requires WellFormed(dir) && dir.Dir? && path != [] && At(dir, path).Some?
    ensures i < |dir.entries| && dir.entries[i].name == path[0]
    ensures At(dir, path) == At(dir.entries[i].node, path[1..])
  {
    i :| 0 <= i < |dir.entries| && dir.entries[i].name == path[0]
         && At(dir, path) == At(dir.entries[i].node, path[1..]);
  }

  /** Every component of a path that names something is a valid name. */
  lemma {:induction false} AtValidNames(node: Node, path: Path)
    requires WellFormed(node) && At(node, path).Some?
    ensures forall i :: 0 <= i < |path| ==> ValidName(path[i])
    decreases path
  {
    if path == [] {
    } else {
      var i := AtThrough(node, path);
      AtValidNames(node.entries[i].node, path[1..]);
    }
  }

  // ---- paths as texts ------------------------------------------------------------

  /** The pieces of `text` between occurrences of `c`. */
  function Split(text: string, c: char): (pieces: seq<string>)
    ensures pieces != [] && forall i :: 0 <= i < |pieces| ==> c !in pieces[i]
    decreases |text|
  {
    var n := Find(text, c);
    if n == |text| then [text] else [text[..n]] + Split(text[n + 1..], c)
  }

  /** A path as text, its components separated by slashes. */
  function Join(path: Path): string
    requires path != []
  {
    if |path| == 1 then path[0] else path[0] + ['/'] + Join(path[1..])
  }

  /** Splitting a joined path gives its components back, so joining loses nothing. */
  lemma {:induction false} SplitJoin(path: Path)
    requires path != [] && forall i :: 0 <= i < |path| ==> '/' !in path[i]
    ensures Split(Join(path), '/') == path
    decreases |path|
  {
    if |path| == 1 {
      FindNone(path[0], '/');
    } else {
      var rest := Join(path[1..]);
      FindIs(path[0], '/', rest);
      assert Join(path)[..|path[0]|] == path[0] && Join(path)[|path[0]| + 1..] == rest;
      SplitJoin(path[1..]);
    }
  }

  /** A directory's entries have valid names, each another one, and are well formed themselves. */
  lemma {:induction false} WellFormedIs(node: Node)
    requires node.Dir?
    ensures WellFormed(node) <==>
            && (forall e :: e in node.entries ==> ValidName(e.name) && WellFormed(e.node))
            && |NameSet(node.entries)| == |node.entries|
  {
    var entries := node.entries;
    NamesCounted(entries);
    if WellFormed(node) {
      forall e | e in entries ensures ValidName(e.name) && WellFormed(e.node) {
        var i :| 0 <= i < |entries| && entries[i] == e;
      }
    }
  }

  function NameSet(entries: seq<Entry>): set<string> { set i | 0 <= i < |entries| :: entries[i].name }

  predicate Apart(entries: seq<Entry>) {
    forall i, j :: 0 <= i < j < |entries| ==> entries[i].name != entries[j].name
  }

  lemma {:induction false} NamesCounted(entries: seq<Entry>)
    ensures |NameSet(entries)| <= |entries| && (|NameSet(entries)| == |entries| <==> Apart(entries))
    decreases |entries|
  {
    if entries == [] {
    } else {
      var n := |entries| - 1;
      NamesCounted(entries[..n]);
      OneMoreName(entries);
      hide NameSet, Apart;
    }
  }

  lemma OneMoreName(entries: seq<Entry>)
    requires entries != []
    ensures var n := |entries| - 1;
            && NameSet(entries) == NameSet(entries[..n]) + {entries[n].name}
            && (Apart(entries) <==> Apart(entries[..n]) && entries[n].name !in NameSet(entries[..n]))
  {
  }
}
