/** Pinning the chart's values: the rewritten lines, what reading them again finds, and the text. */
module ChartPin {
  import opened Options
  import opened ChartLines
  import opened ChartDigests

  // ---- what a pin leaves as it was ------------------------------------------------------

  /** Line `k` is the digest line of some chart image. */
  ghost predicate IsDigestLine(lines: seq<string>, k: nat)
    requires AllReady(lines)
  {
    exists i :: 0 <= i < |IMAGES| && k == DigestAt(lines, IMAGES[i])
  }

  /** Line by line: a digest line is the pinned form of what it was, any other line is itself. */
  lemma PinnedAt(lines: seq<string>, digests: map<string, string>, pinned: seq<string>, k: nat)
    returns (d: string)
    requires IsPinned(lines, digests, pinned) && k < |lines|
    ensures !IsDigestLine(lines, k) ==> pinned[k] == lines[k]
    ensures IsDigestLine(lines, k) ==>
              && IsDigest(d) && DigestLineOf(lines[k]).Some?
              && pinned[k] == PinnedLine(DigestLineOf(lines[k]).value, d)
              && ScalarOf(DigestLineOf(lines[k]).value.value) == ""
  {
    hide LocatedIn, DigestLineOf, ScalarOf, PinnedLine, IsDigest;
    d := "";
    if IsDigestLine(lines, k) {
      var i :| 0 <= i < |IMAGES| && k == DigestAt(lines, IMAGES[i]);
      d := digests[IMAGES[i].name];
      assert Ready(lines, IMAGES[i]);
    }
  }

  /** Every line keeps its shape, so the block structure of the file is the same. */
  lemma ShapesKept(lines: seq<string>, digests: map<string, string>, pinned: seq<string>)
    requires IsPinned(lines, digests, pinned)
    ensures ShapesOf(pinned) == ShapesOf(lines)
  {
    hide IsPinned, ShapeOf, DigestLineOf, ScalarOf, PinnedLine, IsDigest, IsDigestLine;
    assert AllReady(lines) && |pinned| == |lines| by { PinnedParts(lines, digests, pinned); }
    forall k | 0 <= k < |lines| ensures ShapeOf(pinned[k]) == ShapeOf(lines[k]) {
      var d := PinnedAt(lines, digests, pinned, k);
      if IsDigestLine(lines, k) { PinnedKeepsShape(lines[k], d); }
    }
  }

  lemma PinnedParts(lines: seq<string>, digests: map<string, string>, pinned: seq<string>)
    requires IsPinned(lines, digests, pinned)
    ensures AllReady(lines) && AllDigests(digests) && |pinned| == |lines|
  {
  }

  /** Locating finds the same index and repository after the pin, for the chart's images and
      any other block whose repository field is not itself called `digest`. */
  lemma LocatedKept(lines: seq<string>, digests: map<string, string>, pinned: seq<string>, image: Image)
    requires IsPinned(lines, digests, pinned) && image.repositoryKey != "digest"
    ensures LocatedIn(pinned, image) == LocatedIn(lines, image)
  {
    hide IsPinned, ShapeOf, DigestLineOf, ScalarOf, PinnedLine, IsDigest, KeyLineOf, IsDigestLine, Field;
    PinnedParts(lines, digests, pinned);
    ShapesKept(lines, digests, pinned);
    var r := Field(ShapesOf(lines), image, image.repositoryKey);
    if r.Some? {
      var d := PinnedAt(lines, digests, pinned, r.value);
      if IsDigestLine(lines, r.value) {
        DigestShape(lines[r.value]);
        assert false;
      }
    }
  }

  /** The digest line of each image reads back as its digest, with indent, comment and line
      ending as they were. */
  lemma ReadsBack(lines: seq<string>, digests: map<string, string>, pinned: seq<string>, image: Image)
    requires IsPinned(lines, digests, pinned) && image in IMAGES
    ensures var k := DigestAt(lines, image);
            && LocatedIn(pinned, image) == LocatedIn(lines, image)
            && DigestLineOf(pinned[k]).Some? && DigestLineOf(lines[k]).Some?
            && var was, now := DigestLineOf(lines[k]).value, DigestLineOf(pinned[k]).value;
            && ScalarOf(was.value) == "" && ScalarOf(now.value) == digests[image.name]
            && now.indent == was.indent && now.comment == was.comment && now.eol == was.eol
  {
    hide LocatedIn, DigestLineOf, ScalarOf, PinnedLine, IsDigest, Quoted;
    var i :| 0 <= i < |IMAGES| && IMAGES[i] == image;
    assert image.repositoryKey != "digest";
    var k, d := DigestAt(lines, image), digests[image.name];
    var m := DigestLineOf(lines[k]).value;
    assert pinned[k] == PinnedLine(m, d);
    DigestLineShape(lines[k]);
    PinnedReadsBack(m, d);
    QuotedScalar(d);
    LocatedKept(lines, digests, pinned, image);
  }

  /** A line changes exactly when it is a digest line, and no two images share one. */
  lemma ChangesExactlyDigestLines(lines: seq<string>, digests: map<string, string>, pinned: seq<string>)
    requires IsPinned(lines, digests, pinned)
    ensures |pinned| == |lines|
    ensures forall k :: 0 <= k < |lines| ==> (pinned[k] != lines[k] <==> IsDigestLine(lines, k))
    ensures forall i, j :: 0 <= i < j < |IMAGES| ==> DigestAt(lines, IMAGES[i]) != DigestAt(lines, IMAGES[j])
  {
    hide LocatedIn, DigestLineOf, ScalarOf, PinnedLine, IsDigest, Ready, DigestAt;
    forall k | 0 <= k < |lines| ensures pinned[k] != lines[k] <==> IsDigestLine(lines, k) {
      if IsDigestLine(lines, k) {
        var i :| 0 <= i < |IMAGES| && k == DigestAt(lines, IMAGES[i]);
        ReadsBack(lines, digests, pinned, IMAGES[i]);
        DigestNotEmpty(digests[IMAGES[i].name]);
      } else {
        var d := PinnedAt(lines, digests, pinned, k);
      }
    }
    forall j | 0 <= j < |IMAGES| ensures forall i :: 0 <= i < j ==> DigestAt(lines, IMAGES[i]) != DigestAt(lines, IMAGES[j]) {
      EarlierLinesDiffer(lines, j);
    }
  }

  lemma DigestNotEmpty(d: string)
    ensures IsDigest(d) ==> d != ""
  {
  }

  /** No image of a pinned file can be pinned again. */
  lemma SecondPinRefuses(lines: seq<string>, digests: map<string, string>, pinned: seq<string>, image: Image)
    requires IsPinned(lines, digests, pinned) && image in IMAGES
    ensures !Ready(pinned, image)
  {
    ReadsBack(lines, digests, pinned, image);
    hide LocatedIn, DigestLineOf, ScalarOf, PinnedLine, IsDigest;
    var i :| 0 <= i < |IMAGES| && IMAGES[i] == image;
    DigestNotEmpty(digests[image.name]);
  }

  /** The specification leaves one result. */
  lemma PinnedUnique(lines: seq<string>, digests: map<string, string>, a: seq<string>, b: seq<string>)
    requires IsPinned(lines, digests, a) && IsPinned(lines, digests, b)
    ensures a == b
  {
    hide EditOf, DigestAt, Ready;
    forall k | 0 <= k < |lines| ensures a[k] == b[k] {
      if exists i :: 0 <= i < |IMAGES| && k == DigestAt(lines, IMAGES[i]) {
        var i :| 0 <= i < |IMAGES| && k == DigestAt(lines, IMAGES[i]);
      }
    }
  }

  // ---- the edit -----------------------------------------------------------------------------

  /** Replace the edited lines. */
  method ApplyEdits(lines: seq<string>, edits: map<nat, string>) returns (pinned: seq<string>)
    ensures |pinned| == |lines|
    ensures forall k :: 0 <= k < |lines| ==> pinned[k] == if k in edits then edits[k] else lines[k]
  {
    pinned := [];
    for i := 0 to |lines|
      invariant |pinned| == i
      invariant forall k :: 0 <= k < i ==> pinned[k] == if k in edits then edits[k] else lines[k]
    {
      pinned := pinned + [if i in edits then edits[i] else lines[i]];
    }
  }

  /** Rewrite the digest lines and read every one back. The read-back refuses nothing: the
      result is refused only for an image that could not be pinned in the first place. */
  method PinLines(lines: seq<string>, digests: map<string, string>) returns (pinned: Option<seq<string>>)
    requires AllDigests(digests)
    ensures pinned.Some? <==> AllReady(lines)
    ensures pinned.Some? ==> IsPinned(lines, digests, pinned.value)
  {
    hide LocatedIn, DigestLineOf, ScalarOf, PinnedLine, IsDigest, Ready, DigestAt, EditOf;
    var edits := CollectEdits(lines, digests);
    if edits.None? { return None; }
    var result := ApplyEdits(lines, edits.value);
    assert IsPinned(lines, digests, result);
    for n := 0 to |IMAGES| {
      var image := IMAGES[n];
      ReadsBack(lines, digests, result, image);
      LocatedAt(lines, image);
      var found := Locate(result, image);
      var m := DigestLineOf(result[found.value.digest]);
      if found.value.digest !in edits.value || m.None? || ScalarOf(m.value.value) != digests[image.name] {
        assert false;
        return None;
      }
    }
    return Some(result);
  }

  lemma LocatedAt(lines: seq<string>, image: Image)
    requires Ready(lines, image)
    ensures LocatedIn(lines, image).Some? && LocatedIn(lines, image).value.digest == DigestAt(lines, image)
  {
    hide LocatedIn;
  }
}
