/** Pinning the chart's first-party images: locating the digest lines and rewriting them. */
module ChartDigests {
  import opened Options
  import opened ChartLines

  const PREFIX := "ghcr.io/curie-eng/curie-"

  /** Where a published image lives: under `top`, then `block`. */
  datatype Image = Image(name: string, top: string, block: string, repositoryKey: string)

  const IMAGES: seq<Image> := [
    Image("api", "api", "image", "repository"),
    Image("dispatcher", "dispatcher", "image", "repository"),
    Image("mail-adapter", "mailAdapter", "image", "repository"),
    Image("worker", "worker", "image", "repository"),
    Image("ui", "ui", "image", "repository"),
    Image("runner", "agentSandbox", "runner", "image")
  ]

  function Repository(image: Image): string { PREFIX + image.name }

  // ---- children of a block ------------------------------------------------------------

  /** The first content line of a range, or its end. */
  function FirstContent(shapes: seq<Shape>, start: nat, end: nat): (i: nat)
    requires start <= end <= |shapes|
    ensures start <= i <= end && (i < end ==> shapes[i].content)
    ensures forall j :: start <= j < i ==> !shapes[j].content
    decreases end - start
  {
    if start == end || shapes[start].content then start else FirstContent(shapes, start + 1, end)
  }

  /** Line `i` is a direct child key of the range: content at the indent of its first content. */
  predicate IsChild(shapes: seq<Shape>, start: nat, end: nat, i: nat)
    requires start <= end <= |shapes|
  {
    && start <= i < end && shapes[i].content && shapes[i].key.Some?
    && shapes[i].indent == shapes[FirstContent(shapes, start, end)].indent
  }

  /** `children` maps each direct child key to its line. */
  ghost predicate IsChildMap(shapes: seq<Shape>, start: nat, end: nat, children: map<string, nat>)
    requires start <= end <= |shapes|
  {
    && (forall k :: k in children ==> IsChild(shapes, start, end, children[k]) && shapes[children[k]].key == Some(k))
    && (forall i: nat :: IsChild(shapes, start, end, i) ==>
          shapes[i].key.value in children && children[shapes[i].key.value] == i)
  }

  /** The child map of a range; nothing when two of its children share a key. */
  ghost function ChildKeysOf(shapes: seq<Shape>, start: nat, end: nat): Option<map<string, nat>>
    requires start <= end <= |shapes|
  {
    if c :| IsChildMap(shapes, start, end, c) then Some(c) else None
  }

  lemma ChildMapUnique(shapes: seq<Shape>, start: nat, end: nat, c: map<string, nat>)
    requires start <= end <= |shapes| && IsChildMap(shapes, start, end, c)
    ensures ChildKeysOf(shapes, start, end) == Some(c)
  {
    var d := ChildKeysOf(shapes, start, end).value;
    assert IsChildMap(shapes, start, end, d);
    assert c == d;
  }

  function ShapesOf(lines: seq<string>): (shapes: seq<Shape>)
    ensures |shapes| == |lines| && forall i :: 0 <= i < |lines| ==> shapes[i] == ShapeOf(lines[i])
  {
    seq(|lines|, i requires 0 <= i < |lines| => ShapeOf(lines[i]))
  }

  /** What the scan knows in front of line `i`: the children so far and the block's indent. */
  ghost predicate Scanned(shapes: seq<Shape>, start: nat, end: nat, i: nat, indent: Option<nat>, found: map<string, nat>)
    requires start <= i <= end <= |shapes|
  {
    var first := FirstContent(shapes, start, end);
    && (if i <= first then indent == None else indent == Some(shapes[first].indent))
    && (forall k :: k in found ==>
          found[k] < i && IsChild(shapes, start, end, found[k]) && shapes[found[k]].key == Some(k))
    && (forall j: nat :: j < i && IsChild(shapes, start, end, j) ==>
          shapes[j].key.value in found && found[shapes[j].key.value] == j)
  }

  /** Map each direct child key of the range to its line; nothing when a key appears twice. */
  method ChildKeys(lines: seq<string>, start: nat, end: nat) returns (children: Option<map<string, nat>>)
    requires start <= end <= |lines|
    ensures children == ChildKeysOf(ShapesOf(lines), start, end)
  {
    hide FirstContent, IsContent, IndentOf, KeyLineOf, IsChildMap, Scanned;
    ghost var shapes := ShapesOf(lines);
    var indent: Option<nat> := None;
    var found: map<string, nat> := map[];
    ScanStart(shapes, start, end);
    for i := start to end
      invariant Scanned(shapes, start, end, i, indent, found)
    {
      var line := lines[i];
      ghost var before := indent;
      assert shapes[i] == ShapeOf(line);
      if IsContent(line) && indent.None? { indent := Some(IndentOf(line)); }
      ScanStep(shapes, start, end, i, before, found);
      if IsContent(line) && indent == Some(IndentOf(line)) {
        var keyLine := KeyLineOf(line);
        if keyLine.Some? {
          if keyLine.value.key in found {
            NoChildMap(shapes, start, end, i, before, found);
            return None;
          }
          found := found[keyLine.value.key := i];
        }
      }
    }
    ScanEnd(shapes, start, end, indent, found);
    ChildMapUnique(shapes, start, end, found);
    return Some(found);
  }

  lemma ScanStart(shapes: seq<Shape>, start: nat, end: nat)
    requires start <= end <= |shapes|
    ensures Scanned(shapes, start, end, start, None, map[])
  {
    hide FirstContent;
  }

  /** The block's indent after line `i` has been seen. */
  function IndentAfter(shape: Shape, indent: Option<nat>): Option<nat> {
    if shape.content && indent.None? then Some(shape.indent) else indent
  }

  lemma ScanStep(shapes: seq<Shape>, start: nat, end: nat, i: nat, indent: Option<nat>, found: map<string, nat>)
    requires start <= i < end <= |shapes| && Scanned(shapes, start, end, i, indent, found)
    ensures var s, after := shapes[i], IndentAfter(shapes[i], indent);
            && (IsChild(shapes, start, end, i) <==> s.content && s.key.Some? && after == Some(s.indent))
            && (!IsChild(shapes, start, end, i) ==> Scanned(shapes, start, end, i + 1, after, found))
            && (IsChild(shapes, start, end, i) && s.key.value !in found ==>
                 Scanned(shapes, start, end, i + 1, after, found[s.key.value := i]))
  {
    hide FirstContent;
    var first := FirstContent(shapes, start, end);
    assert i < first ==> !shapes[i].content;
    assert i == first ==> shapes[i].content;
  }

  lemma ScanEnd(shapes: seq<Shape>, start: nat, end: nat, indent: Option<nat>, found: map<string, nat>)
    requires start <= end <= |shapes| && Scanned(shapes, start, end, end, indent, found)
    ensures IsChildMap(shapes, start, end, found)
  {
    hide FirstContent;
  }

  /** A second child with a known key leaves no child map. */
  lemma NoChildMap(shapes: seq<Shape>, start: nat, end: nat, i: nat, indent: Option<nat>, found: map<string, nat>)
    requires start <= i < end <= |shapes| && Scanned(shapes, start, end, i, indent, found)
    requires IsChild(shapes, start, end, i) && shapes[i].key.value in found
    ensures ChildKeysOf(shapes, start, end) == None
  {
    hide FirstContent, IsChildMap;
    forall c ensures !IsChildMap(shapes, start, end, c) {
      TwoLines(shapes, start, end, c, i, found[shapes[i].key.value]);
    }
  }

  lemma TwoLines(shapes: seq<Shape>, start: nat, end: nat, c: map<string, nat>, i: nat, j: nat)
    requires start <= end <= |shapes| && i != j
    requires IsChild(shapes, start, end, i) && IsChild(shapes, start, end, j) && shapes[i].key == shapes[j].key
    ensures !IsChildMap(shapes, start, end, c)
  {
  }

  // ---- blocks ---------------------------------------------------------------------------

  /** The first content line from `i` on that is indented no deeper than `indent`. */
  function FirstShallow(shapes: seq<Shape>, i: nat, indent: nat): (end: nat)
    requires i <= |shapes|
    ensures i <= end <= |shapes|
    ensures forall j :: i <= j < end ==> !(shapes[j].content && shapes[j].indent <= indent)
    ensures end < |shapes| ==> shapes[end].content && shapes[end].indent <= indent
    decreases |shapes| - i
  {
    if i == |shapes| || (shapes[i].content && shapes[i].indent <= indent) then i else FirstShallow(shapes, i + 1, indent)
  }

  function BlockEndOf(shapes: seq<Shape>, header: nat): (end: nat)
    requires header < |shapes|
    ensures header < end <= |shapes|
  {
    FirstShallow(shapes, header + 1, shapes[header].indent)
  }

  method BlockEnd(lines: seq<string>, header: nat) returns (end: nat)
    requires header < |lines|
    ensures end == BlockEndOf(ShapesOf(lines), header)
  {
    ghost var shapes := ShapesOf(lines);
    end := header + 1;
    while end < |lines| && !(IsContent(lines[end]) && IndentOf(lines[end]) <= IndentOf(lines[header]))
      invariant header < end <= |lines|
      invariant FirstShallow(shapes, end, shapes[header].indent) == BlockEndOf(shapes, header)
    {
      end := end + 1;
    }
  }

  // ---- locating an image ------------------------------------------------------------------

  /** The line of a child key, if the range has one and repeats none. */
  ghost function Child(shapes: seq<Shape>, start: nat, end: nat, key: string): (i: Option<nat>)
    requires start <= end <= |shapes|
    ensures i.Some? ==> start <= i.value < end && IsChild(shapes, start, end, i.value) && shapes[i.value].key == Some(key)
  {
    var children := ChildKeysOf(shapes, start, end);
    if children.Some? && key in children.value then Some(children.value[key]) else None
  }

  /** The header line of the image's block: through its top key, then its block key. */
  ghost function Header(shapes: seq<Shape>, image: Image): (h: Option<nat>)
    ensures h.Some? ==> h.value < |shapes|
  {
    var top := Child(shapes, 0, |shapes|, image.top);
    if top.None? then None else Child(shapes, top.value + 1, BlockEndOf(shapes, top.value), image.block)
  }

  /** The line of a field of the image's block. */
  ghost function Field(shapes: seq<Shape>, image: Image, key: string): (i: Option<nat>)
    ensures i.Some? ==> i.value < |shapes| && shapes[i.value].key == Some(key)
  {
    var h := Header(shapes, image);
    if h.None? then None else Child(shapes, h.value + 1, BlockEndOf(shapes, h.value), key)
  }

  /** What locating an image finds: its digest line and the repository its block names. */
  datatype Located = Located(digest: nat, repository: string)

  ghost function LocatedIn(lines: seq<string>, image: Image): (found: Option<Located>)
    ensures found.Some? ==> found.value.digest < |lines|
  {
    var shapes := ShapesOf(lines);
    var r, d := Field(shapes, image, image.repositoryKey), Field(shapes, image, "digest");
    if r.None? || d.None? then None
    else Some(Located(d.value, ScalarOf(KeyLineOf(lines[r.value]).value.rest)))
  }

  /** The header line of the image's block. */
  method FindBlock(lines: seq<string>, image: Image) returns (header: Option<nat>)
    ensures header == Header(ShapesOf(lines), image)
  {
    hide ChildKeysOf, BlockEndOf, ShapeOf, FirstContent;
    ghost var shapes := ShapesOf(lines);
    var tops := ChildKeys(lines, 0, |lines|);
    if tops.None? || image.top !in tops.value { return None; }
    var top := tops.value[image.top];
    assert Child(shapes, 0, |lines|, image.top) == Some(top);
    var end := BlockEnd(lines, top);
    var blocks := ChildKeys(lines, top + 1, end);
    if blocks.None? || image.block !in blocks.value { return None; }
    return Some(blocks.value[image.block]);
  }

  method Locate(lines: seq<string>, image: Image) returns (found: Option<Located>)
    ensures found == LocatedIn(lines, image)
  {
    hide ChildKeysOf, BlockEndOf, IsContent, IndentOf, KeyLineOf, FirstContent, ScalarOf, Header;
    ghost var shapes := ShapesOf(lines);
    var header := FindBlock(lines, image);
    if header.None? { return None; }
    var end := BlockEnd(lines, header.value);
    var fields := ChildKeys(lines, header.value + 1, end);
    if fields.None? || image.repositoryKey !in fields.value || "digest" !in fields.value { return None; }
    assert Field(shapes, image, "digest") == Some(fields.value["digest"]);
    var r := fields.value[image.repositoryKey];
    assert Field(shapes, image, image.repositoryKey) == Some(r);
    assert shapes[r] == ShapeOf(lines[r]);
    return Some(Located(fields.value["digest"], ScalarOf(KeyLineOf(lines[r]).value.rest)));
  }

  // ---- different images, different lines ---------------------------------------------------

  /** A field lies inside the block of its image's top key. */
  lemma FieldWithin(shapes: seq<Shape>, image: Image, key: string) returns (top: nat)
    requires Field(shapes, image, key).Some?
    ensures Child(shapes, 0, |shapes|, image.top) == Some(top)
    ensures top < Field(shapes, image, key).value < BlockEndOf(shapes, top)
  {
    hide ChildKeysOf, FirstShallow;
    top := Child(shapes, 0, |shapes|, image.top).value;
    var end := BlockEndOf(shapes, top);
    var header := Child(shapes, top + 1, end, image.block).value;
    NestedBlock(shapes, top, header);
    assert Field(shapes, image, key) == Child(shapes, header + 1, BlockEndOf(shapes, header), key);
  }

  /** A block nested under a deeper header ends no later than the block around it. */
  lemma NestedBlock(shapes: seq<Shape>, outer: nat, inner: nat)
    requires outer < inner < |shapes| && inner < BlockEndOf(shapes, outer) && shapes[inner].content
    ensures BlockEndOf(shapes, inner) <= BlockEndOf(shapes, outer)
  {
    hide FirstShallow;
    var end := BlockEndOf(shapes, outer);
    assert shapes[inner].indent > shapes[outer].indent;
    assert end < |shapes| ==> shapes[end].content && shapes[end].indent <= shapes[outer].indent;
  }

  /** Blocks of two top keys do not overlap. */
  lemma TopBlocksApart(shapes: seq<Shape>, a: nat, b: nat)
    requires IsChild(shapes, 0, |shapes|, a) && IsChild(shapes, 0, |shapes|, b) && a < b
    ensures BlockEndOf(shapes, a) <= b
  {
    hide FirstShallow;
  }

  lemma FieldsDiffer(shapes: seq<Shape>, a: Image, b: Image, key: string)
    requires a.top != b.top && Field(shapes, a, key).Some? && Field(shapes, b, key).Some?
    ensures Field(shapes, a, key) != Field(shapes, b, key)
  {
    hide Field, ChildKeysOf, BlockEndOf, IsChild;
    var i := FieldWithin(shapes, a, key);
    var j := FieldWithin(shapes, b, key);
    assert i != j;
    if i < j { TopBlocksApart(shapes, i, j); } else { TopBlocksApart(shapes, j, i); }
  }

  lemma TopsDiffer(i: nat, j: nat)
    requires i < j < |IMAGES|
    ensures IMAGES[i].top != IMAGES[j].top
  {
  }

  // ---- pinning lines ---------------------------------------------------------------------------

  /** The image's digest can be pinned: its block is found, names the image's repository, and
      its digest line parses and is empty. */
  ghost predicate Ready(lines: seq<string>, image: Image) {
    var found := LocatedIn(lines, image);
    && found.Some? && found.value.repository == Repository(image)
    && DigestLineOf(lines[found.value.digest]).Some?
    && ScalarOf(DigestLineOf(lines[found.value.digest]).value.value) == ""
  }

  ghost function DigestAt(lines: seq<string>, image: Image): (i: nat)
    requires Ready(lines, image)
    ensures i < |lines| && DigestLineOf(lines[i]).Some?
  {
    LocatedIn(lines, image).value.digest
  }

  /** The line that pins `image`. */
  ghost function EditOf(lines: seq<string>, image: Image, digests: map<string, string>): string
    requires Ready(lines, image) && image.name in digests
  {
    PinnedLine(DigestLineOf(lines[DigestAt(lines, image)]).value, digests[image.name])
  }

  ghost predicate AllReady(lines: seq<string>) { forall i :: 0 <= i < |IMAGES| ==> Ready(lines, IMAGES[i]) }

  ghost predicate AllDigests(digests: map<string, string>) {
    forall i :: 0 <= i < |IMAGES| ==> IMAGES[i].name in digests && IsDigest(digests[IMAGES[i].name])
  }

  /** `pinned` is `lines` with exactly the digest line of each image rewritten. */
  ghost predicate IsPinned(lines: seq<string>, digests: map<string, string>, pinned: seq<string>) {
    && AllReady(lines) && AllDigests(digests) && |pinned| == |lines|
    && (forall i :: 0 <= i < |IMAGES| ==> pinned[DigestAt(lines, IMAGES[i])] == EditOf(lines, IMAGES[i], digests))
    && (forall k :: 0 <= k < |lines| && (forall i :: 0 <= i < |IMAGES| ==> k != DigestAt(lines, IMAGES[i])) ==>
          pinned[k] == lines[k])
  }

  /** The lines to rewrite, or nothing when some image cannot be pinned. */
  method CollectEdits(lines: seq<string>, digests: map<string, string>) returns (edits: Option<map<nat, string>>)
    requires AllDigests(digests)
    ensures edits.Some? <==> AllReady(lines)
    ensures edits.Some? ==> forall i :: 0 <= i < |IMAGES| ==>
              DigestAt(lines, IMAGES[i]) in edits.value &&
              edits.value[DigestAt(lines, IMAGES[i])] == EditOf(lines, IMAGES[i], digests)
    ensures edits.Some? ==> forall k :: k in edits.value ==>
              exists i :: 0 <= i < |IMAGES| && k == DigestAt(lines, IMAGES[i])
  {
    hide LocatedIn, DigestLineOf, ScalarOf, PinnedLine;
    var found: map<nat, string> := map[];
    var ok := true;
    for n := 0 to |IMAGES|
      invariant ok <==> forall i :: 0 <= i < n ==> Ready(lines, IMAGES[i])
      invariant ok ==> forall i :: 0 <= i < n ==>
                  DigestAt(lines, IMAGES[i]) in found &&
                  found[DigestAt(lines, IMAGES[i])] == EditOf(lines, IMAGES[i], digests)
      invariant ok ==> forall k :: k in found ==> exists i :: 0 <= i < n && k == DigestAt(lines, IMAGES[i])
    {
      var image := IMAGES[n];
      var located := Locate(lines, image);
      if located.None? || located.value.repository != Repository(image) {
        ok := false;
      } else {
        var m := DigestLineOf(lines[located.value.digest]);
        if m.None? || ScalarOf(m.value.value) != "" {
          ok := false;
        } else {
          assert Ready(lines, image) && DigestAt(lines, image) == located.value.digest;
          if ok { EarlierLinesDiffer(lines, n); }
          found := found[located.value.digest := PinnedLine(m.value, digests[image.name])];
        }
      }
    }
    return if ok then Some(found) else None;
  }

  lemma DigestField(lines: seq<string>, image: Image)
    requires Ready(lines, image)
    ensures Field(ShapesOf(lines), image, "digest") == Some(DigestAt(lines, image))
  {
    hide Field, ScalarOf, DigestLineOf, KeyLineOf;
  }

  lemma EarlierLinesDiffer(lines: seq<string>, n: nat)
    requires n < |IMAGES| && forall i :: 0 <= i <= n ==> Ready(lines, IMAGES[i])
    ensures forall i :: 0 <= i < n ==> DigestAt(lines, IMAGES[i]) != DigestAt(lines, IMAGES[n])
  {
    hide Ready, DigestAt, Field, LocatedIn;
    forall i | 0 <= i < n ensures DigestAt(lines, IMAGES[i]) != DigestAt(lines, IMAGES[n]) {
      TopsDiffer(i, n);
      DigestField(lines, IMAGES[i]);
      DigestField(lines, IMAGES[n]);
      FieldsDiffer(ShapesOf(lines), IMAGES[i], IMAGES[n], "digest");
    }
  }
}
