/** The pinner's `--image name=repository@digest` arguments. */
module ChartArgs {
  import opened Options
  import opened Texts
  import opened ChartLines
  import opened ChartDigests

  /** The argument that supplies digest `d` for `image`. */
  function Argument(image: Image, d: string): string {
    image.name + "=" + (Repository(image) + "@" + d)
  }

  /** Exactly one well-formed argument per chart image and no other, giving `digests`. */
  ghost predicate Supplies(raw: seq<string>, digests: map<string, string>) {
    && AllDigests(digests)
    && digests.Keys == ImageNames()
    && (forall j :: 0 <= j < |raw| ==> ForSomeImage(raw[j], digests))
    && (forall image :: image in IMAGES ==> exists j :: 0 <= j < |raw| && raw[j] == Argument(image, digests[image.name]))
    && (forall i, j :: 0 <= i < j < |raw| ==> raw[i] != raw[j])
  }

  ghost predicate ForSomeImage(arg: string, digests: map<string, string>) {
    exists image :: image in IMAGES && image.name in digests && arg == Argument(image, digests[image.name])
  }

  function ImageNames(): set<string> { set image | image in IMAGES :: image.name }

  // ---- one argument -----------------------------------------------------------------------

  /** The image of that name, if the chart has one. */
  function ImageNamed(name: string): (image: Option<Image>)
    ensures image.Some? ==> image.value in IMAGES && image.value.name == name
    ensures image.None? ==> forall i :: 0 <= i < |IMAGES| ==> IMAGES[i].name != name
  {
    if i: nat :| i < |IMAGES| && IMAGES[i].name == name then NamesDiffer(i, name); Some(IMAGES[i]) else None
  }

  lemma NamesDiffer(i: nat, name: string)
    requires i < |IMAGES| && IMAGES[i].name == name
    ensures forall j: nat :: j < |IMAGES| && IMAGES[j].name == name ==> j == i
  {
    NamesAreDistinct();
  }

  lemma NamesAreDistinct()
    ensures forall i, j :: 0 <= i < j < |IMAGES| ==> IMAGES[i].name != IMAGES[j].name
  {
  }

  datatype Supply = Supply(image: Image, digest: string)

  /** What follows the name: the image's repository, an `@`, and a digest. */
  function ReadReference(image: Image, reference: string): Option<string> {
    var n := Find(reference, '@');
    if n == |reference| || reference[..n] != Repository(image) || !IsDigest(reference[n + 1..]) then None
    else Some(reference[n + 1..])
  }

  function ReadArgument(arg: string): Option<Supply> {
    var n := Find(arg, '=');
    if n == |arg| || n == 0 || ImageNamed(arg[..n]).None? then None
    else
      var image := ImageNamed(arg[..n]).value;
      var d := ReadReference(image, arg[n + 1..]);
      if d.None? then None else Some(Supply(image, d.value))
  }

  lemma PlainNames(image: Image)
    requires image in IMAGES
    ensures '=' !in image.name && image.name != "" && '@' !in Repository(image)
  {
    var i :| 0 <= i < |IMAGES| && IMAGES[i] == image;
    PlainName(i);
  }

  lemma PlainName(i: nat)
    requires i < |IMAGES|
    ensures '=' !in IMAGES[i].name && IMAGES[i].name != "" && '@' !in IMAGES[i].name && '@' !in PREFIX
  {
  }

  /** Reading an argument succeeds exactly on the well-formed ones. */
  lemma ReadsArguments(arg: string, image: Image, d: string)
    ensures ReadArgument(arg) == Some(Supply(image, d)) <==> image in IMAGES && IsDigest(d) && arg == Argument(image, d)
  {
    hide Find, IsDigest, ImageNamed, Repository, ReadReference;
    var n := Find(arg, '=');
    if ReadArgument(arg) == Some(Supply(image, d)) {
      ReferenceIs(image, arg[n + 1..], d);
      assert arg == arg[..n] + "=" + arg[n + 1..];
    }
    if image in IMAGES && IsDigest(d) && arg == Argument(image, d) {
      PlainNames(image);
      var reference := Repository(image) + "@" + d;
      FindIs(image.name, '=', reference);
      assert arg[..n] == image.name && arg[n + 1..] == reference;
      NamedIs(image);
      ReferenceIs(image, reference, d);
    }
  }

  lemma NamedIs(image: Image)
    requires image in IMAGES
    ensures ImageNamed(image.name) == Some(image)
  {
    hide ImageNamed;
    var i :| 0 <= i < |IMAGES| && IMAGES[i] == image;
    NamesDiffer(i, image.name);
  }

  lemma ReferenceIs(image: Image, reference: string, d: string)
    requires image in IMAGES
    ensures ReadReference(image, reference) == Some(d) <==>
            IsDigest(d) && reference == Repository(image) + "@" + d
  {
    hide Find, IsDigest, Repository;
    PlainNames(image);
    var n := Find(reference, '@');
    if ReadReference(image, reference) == Some(d) {
      assert reference == reference[..n] + "@" + reference[n + 1..];
    }
    if reference == Repository(image) + "@" + d {
      FindIs(Repository(image), '@', d);
      assert reference[..n] == Repository(image) && reference[n + 1..] == d;
    }
  }

  // ---- all arguments --------------------------------------------------------------------------

  /** Read all `--image` arguments. Every argument must be well formed and name a chart image,
      every image must be named, and none twice. */
  method ParseImageArgs(raw: seq<string>) returns (digests: Option<map<string, string>>)
    ensures digests.Some? ==> Supplies(raw, digests.value)
    ensures digests.None? ==> forall d :: !Supplies(raw, d)
  {
    hide ReadArgument, IsDigest, Find, ImageNamed, Supplies, Argument, Tallied;
    var ok := true;
    var seen: map<string, nat> := map[];
    var found: map<string, string> := map[];
    TallyNothing();
    assert raw[..0] == [];
    for n := 0 to |raw|
      invariant Tallied(raw[..n], ok, seen, found)
    {
      TallyStep(raw[..n], raw[n], ok, seen, found);
      var arg := raw[n];
      var eq := Find(arg, '=');
      var named := eq != |arg| && eq != 0;
      if named {
        seen := seen[arg[..eq] := if arg[..eq] in seen then seen[arg[..eq]] + 1 else 1];
      }
      var supply := ReadArgument(arg);
      if supply.Some? {
        found := found[supply.value.image.name := supply.value.digest];
      } else {
        ok := false;
      }
      assert raw[..n + 1] == raw[..n] + [arg];
    }
    assert raw[..|raw|] == raw;
    var repeated := exists name :: name in seen && seen[name] > 1;
    var missing := exists i :: 0 <= i < |IMAGES| && IMAGES[i].name !in seen;
    Decide(raw, ok, seen, found);
    return if ok && !repeated && !missing then Some(found) else None;
  }

  /** The name an argument starts with. */
  function NameOf(arg: string): Option<string> {
    var n := Find(arg, '=');
    if n == |arg| || n == 0 then None else Some(arg[..n])
  }

  predicate Named(args: seq<string>, name: string) {
    exists j :: 0 <= j < |args| && NameOf(args[j]) == Some(name)
  }

  predicate NamedTwice(args: seq<string>, name: string) {
    exists i, j :: 0 <= i < j < |args| && NameOf(args[i]) == Some(name) && NameOf(args[j]) == Some(name)
  }

  predicate Gives(args: seq<string>, name: string, digest: string) {
    exists j :: 0 <= j < |args| && IsSupply(args[j], name, digest)
  }

  predicate IsSupply(arg: string, name: string, digest: string) {
    var s := ReadArgument(arg);
    s.Some? && s.value.image.name == name && s.value.digest == digest
  }

  /** What the loop knows after `args`. */
  ghost predicate Tallied(args: seq<string>, ok: bool, seen: map<string, nat>, found: map<string, string>) {
    && (ok <==> forall j :: 0 <= j < |args| ==> ReadArgument(args[j]).Some?)
    && Counts(args, seen) && Finds(args, found)
  }

  ghost predicate Counts(args: seq<string>, seen: map<string, nat>) {
    && (forall name :: name in seen <==> Named(args, name))
    && (forall name :: name in seen ==> seen[name] > 0 && (seen[name] > 1 <==> NamedTwice(args, name)))
  }

  ghost predicate Finds(args: seq<string>, found: map<string, string>) {
    && (forall name :: name in found ==> Gives(args, name, found[name]))
    && (forall j :: 0 <= j < |args| && ReadArgument(args[j]).Some? ==> ReadArgument(args[j]).value.image.name in found)
  }

  function Seen(seen: map<string, nat>, arg: string): map<string, nat> {
    var name := NameOf(arg);
    if name.None? then seen
    else seen[name.value := if name.value in seen then seen[name.value] + 1 else 1]
  }

  function Found(found: map<string, string>, arg: string): map<string, string> {
    var s := ReadArgument(arg);
    if s.None? then found else found[s.value.image.name := s.value.digest]
  }

  lemma TallyNothing()
    ensures Tallied([], true, map[], map[])
  {
  }

  lemma TallyStep(args: seq<string>, arg: string, ok: bool, seen: map<string, nat>, found: map<string, string>)
    requires Tallied(args, ok, seen, found)
    ensures Tallied(args + [arg], ok && ReadArgument(arg).Some?, Seen(seen, arg), Found(found, arg))
  {
    hide ReadArgument, Seen, Found, Counts, Finds;
    var more := args + [arg];
    assert more[|args|] == arg && forall j :: 0 <= j < |args| ==> more[j] == args[j];
    CountStep(args, arg, seen);
    FindStep(args, arg, found);
  }

  lemma CountStep(args: seq<string>, arg: string, seen: map<string, nat>)
    requires Counts(args, seen)
    ensures Counts(args + [arg], Seen(seen, arg))
  {
    hide NameOf, Named, NamedTwice;
    var more := args + [arg];
    forall name ensures Named(more, name) <==> Named(args, name) || NameOf(arg) == Some(name) {
      NamedStep(args, arg, name);
    }
    forall name
      ensures NamedTwice(more, name) <==> NamedTwice(args, name) || (Named(args, name) && NameOf(arg) == Some(name))
    {
      NamedTwiceStep(args, arg, name);
    }
    NamedOnce(args);
  }

  lemma FindStep(args: seq<string>, arg: string, found: map<string, string>)
    requires Finds(args, found)
    ensures Finds(args + [arg], Found(found, arg))
  {
    hide ReadArgument, Gives;
    var more := args + [arg];
    assert more[|args|] == arg && forall j :: 0 <= j < |args| ==> more[j] == args[j];
    forall name, d ensures Gives(more, name, d) <==> Gives(args, name, d) || IsSupply(arg, name, d) {
      GivesStep(args, arg, name, d);
    }
  }

  lemma NamedOnce(args: seq<string>)
    ensures forall name :: NamedTwice(args, name) ==> Named(args, name)
  {
    hide NameOf;
  }

  lemma NamedStep(args: seq<string>, arg: string, name: string)
    ensures Named(args + [arg], name) <==> Named(args, name) || NameOf(arg) == Some(name)
  {
    hide NameOf;
    var more := args + [arg];
    assert more[|args|] == arg && forall j :: 0 <= j < |args| ==> more[j] == args[j];
  }

  lemma NamedTwiceStep(args: seq<string>, arg: string, name: string)
    ensures NamedTwice(args + [arg], name) <==> NamedTwice(args, name) || (Named(args, name) && NameOf(arg) == Some(name))
  {
    hide NameOf;
    var more := args + [arg];
    assert more[|args|] == arg && forall j :: 0 <= j < |args| ==> more[j] == args[j];
    if NamedTwice(args, name) {
      var i, j :| 0 <= i < j < |args| && NameOf(args[i]) == Some(name) && NameOf(args[j]) == Some(name);
      assert NameOf(more[i]) == Some(name) && NameOf(more[j]) == Some(name);
    }
    if Named(args, name) && NameOf(arg) == Some(name) {
      var i :| 0 <= i < |args| && NameOf(args[i]) == Some(name);
      assert NameOf(more[i]) == Some(name) && NameOf(more[|args|]) == Some(name);
    }
  }

  lemma GivesStep(args: seq<string>, arg: string, name: string, d: string)
    ensures Gives(args + [arg], name, d) <==> Gives(args, name, d) || IsSupply(arg, name, d)
  {
    hide IsSupply;
    var more := args + [arg];
    assert more[|args|] == arg && forall j :: 0 <= j < |args| ==> more[j] == args[j];
  }

  // ---- the verdict ------------------------------------------------------------------------------

  lemma ArgumentName(image: Image, d: string)
    requires image in IMAGES
    ensures NameOf(Argument(image, d)) == Some(image.name)
  {
    PlainNames(image);
    FindIs(image.name, '=', Repository(image) + "@" + d);
    var arg := Argument(image, d);
    hide Repository;
    assert arg[..|image.name|] == image.name;
  }

  lemma SameName(a: Image, b: Image)
    requires a in IMAGES && b in IMAGES && a.name == b.name
    ensures a == b
  {
    NamedIs(a);
    NamedIs(b);
  }

  /** The source's three refusals: a malformed argument, a repeated name, a missing image. */
  ghost predicate Refused(raw: seq<string>) {
    || (exists j :: 0 <= j < |raw| && ReadArgument(raw[j]).None?)
    || (exists name :: NamedTwice(raw, name))
    || (exists image :: image in IMAGES && !Named(raw, image.name))
  }

  /** Where an argument of a complete supply comes from. */
  lemma SupplyAt(raw: seq<string>, d: map<string, string>, j: nat) returns (image: Image)
    requires Supplies(raw, d) && j < |raw|
    ensures IsChartImage(image) && image.name in d && raw[j] == Argument(image, d[image.name])
    ensures ReadArgument(raw[j]).Some? && NameOf(raw[j]) == Some(image.name)
  {
    hide ReadArgument, NameOf, Argument, IsDigest, IMAGES;
    assert ForSomeImage(raw[j], d);
    image :| image in IMAGES && image.name in d && raw[j] == Argument(image, d[image.name]);
    var i :| 0 <= i < |IMAGES| && IMAGES[i] == image;
    ReadsArguments(raw[j], image, d[image.name]);
    ArgumentName(image, d[image.name]);
  }

  lemma SupplyDistinct(raw: seq<string>, d: map<string, string>, i: nat, j: nat)
    requires Supplies(raw, d) && i < j < |raw|
    ensures raw[i] != raw[j]
  {
  }

  predicate IsChartImage(image: Image) { image in IMAGES }

  lemma SuppliedOnce(raw: seq<string>, d: map<string, string>, name: string)
    requires Supplies(raw, d)
    ensures !NamedTwice(raw, name)
  {
    hide ReadArgument, NameOf, Argument, Supplies, IMAGES;
    if NamedTwice(raw, name) {
      var i, j :| 0 <= i < j < |raw| && NameOf(raw[i]) == Some(name) && NameOf(raw[j]) == Some(name);
      var a := SupplyAt(raw, d, i);
      var b := SupplyAt(raw, d, j);
      SameName(a, b);
      SupplyDistinct(raw, d, i, j);
    }
  }

  lemma SuppliedAll(raw: seq<string>, d: map<string, string>, image: Image)
    requires Supplies(raw, d) && image in IMAGES
    ensures Named(raw, image.name)
  {
    hide NameOf, Argument, IsDigest;
    var j :| 0 <= j < |raw| && raw[j] == Argument(image, d[image.name]);
    ArgumentName(image, d[image.name]);
  }

  lemma RefusedIsNotSupplied(raw: seq<string>, d: map<string, string>)
    requires Supplies(raw, d)
    ensures !Refused(raw)
  {
    hide ReadArgument, NameOf, Argument, IsDigest, NamedTwice, Named, IMAGES, Supplies;
    forall j | 0 <= j < |raw| ensures ReadArgument(raw[j]).Some? {
      var image := SupplyAt(raw, d, j);
    }
    forall image | image in IMAGES ensures Named(raw, image.name) { SuppliedAll(raw, d, image); }
    forall name ensures !NamedTwice(raw, name) { SuppliedOnce(raw, d, name); }
  }

  lemma AcceptedIsSupplied(raw: seq<string>, seen: map<string, nat>, found: map<string, string>)
    requires Tallied(raw, true, seen, found) && !Refused(raw)
    ensures Supplies(raw, found)
  {
    hide NameOf, Argument, IsDigest, ReadArgument, Tallied, Refused, ImageNames, IMAGES;
    forall image | image in IMAGES
      ensures image.name in found && IsDigest(found[image.name])
    {
      var j := NamedAt(raw, image);
      FoundAt(raw, seen, found, j);
    }
    assert AllDigests(found);
    forall j | 0 <= j < |raw|
      ensures ForSomeImage(raw[j], found)
    {
      FoundAt(raw, seen, found, j);
    }
    forall image | image in IMAGES
      ensures exists j :: 0 <= j < |raw| && raw[j] == Argument(image, found[image.name])
    {
      var j := NamedAt(raw, image);
      FoundAt(raw, seen, found, j);
    }
    FoundNames(raw, seen, found);
    forall i, j | 0 <= i < j < |raw| ensures raw[i] != raw[j] { ArgumentsDiffer(raw, i, j); }
  }

  lemma FoundNames(raw: seq<string>, seen: map<string, nat>, found: map<string, string>)
    requires Tallied(raw, true, seen, found) && !Refused(raw)
    ensures found.Keys == ImageNames()
  {
    hide NameOf, Argument, IsDigest, ReadArgument, IMAGES, Refused, Named, NamedTwice;
    forall name | name in found ensures name in ImageNames() {
      assert Gives(raw, name, found[name]);
      var j :| 0 <= j < |raw| && IsSupply(raw[j], name, found[name]);
      FoundAt(raw, seen, found, j);
    }
    forall name | name in ImageNames() ensures name in found {
      var image :| image in IMAGES && image.name == name;
      var j := NamedAt(raw, image);
      FoundAt(raw, seen, found, j);
    }
  }

  lemma ArgumentsDiffer(raw: seq<string>, i: nat, j: nat)
    requires i < j < |raw| && !Refused(raw)
    ensures raw[i] != raw[j]
  {
    hide NameOf, Argument, IsDigest, ReadArgument, IMAGES;
    var s := ReadArgument(raw[i]).value;
    ReadsArguments(raw[i], s.image, s.digest);
    ArgumentName(s.image, s.digest);
    if raw[i] == raw[j] { TwiceAt(raw, i, j, s.image.name); }
  }

  lemma TwiceAt(raw: seq<string>, i: nat, j: nat, name: string)
    requires i < j < |raw| && NameOf(raw[i]) == Some(name) && NameOf(raw[j]) == Some(name)
    ensures NamedTwice(raw, name)
  {
    hide NameOf;
  }

  /** Without repeats, the digest found for an argument's image is the argument's. */
  lemma FoundAt(raw: seq<string>, seen: map<string, nat>, found: map<string, string>, j: nat)
    requires Tallied(raw, true, seen, found) && !Refused(raw) && j < |raw|
    ensures ReadArgument(raw[j]).Some?
    ensures var s := ReadArgument(raw[j]).value;
            s.image in IMAGES && raw[j] == Argument(s.image, s.digest) && s.image.name in found
            && found[s.image.name] == s.digest && IsDigest(s.digest)
  {
    hide NameOf, Argument, IsDigest, ReadArgument, Named, NamedTwice;
    var s := ReadArgument(raw[j]).value;
    ReadsArguments(raw[j], s.image, s.digest);
    var name := s.image.name;
    assert Gives(raw, name, found[name]);
    var k :| 0 <= k < |raw| && IsSupply(raw[k], name, found[name]);
    var t := ReadArgument(raw[k]).value;
    ReadsArguments(raw[k], t.image, t.digest);
    ArgumentName(s.image, s.digest);
    ArgumentName(t.image, t.digest);
    if k < j { TwiceAt(raw, k, j, name); } else if j < k { TwiceAt(raw, j, k, name); }
  }

  /** A named image has an argument that is its own. */
  lemma NamedAt(raw: seq<string>, image: Image) returns (j: nat)
    requires image in IMAGES && !Refused(raw)
    ensures j < |raw| && ReadArgument(raw[j]).Some? && ReadArgument(raw[j]).value.image == image
  {
    hide NameOf, Argument, IsDigest, ReadArgument;
    assert Named(raw, image.name);
    j :| 0 <= j < |raw| && NameOf(raw[j]) == Some(image.name);
    var s := ReadArgument(raw[j]).value;
    ReadsArguments(raw[j], s.image, s.digest);
    ArgumentName(s.image, s.digest);
    SameName(s.image, image);
  }

  lemma Decide(raw: seq<string>, ok: bool, seen: map<string, nat>, found: map<string, string>)
    requires Tallied(raw, ok, seen, found)
    ensures var repeated := exists name :: name in seen && seen[name] > 1;
            var missing := exists i :: 0 <= i < |IMAGES| && IMAGES[i].name !in seen;
            if ok && !repeated && !missing then Supplies(raw, found) else forall d :: !Supplies(raw, d)
  {
    hide ReadArgument, Supplies, Named, NamedTwice, Gives;
    var repeated := exists name :: name in seen && seen[name] > 1;
    var missing := exists i :: 0 <= i < |IMAGES| && IMAGES[i].name !in seen;
    NamedOnce(raw);
    assert Refused(raw) <==> !ok || repeated || missing;
    if Refused(raw) {
      forall d ensures !Supplies(raw, d) {
        if Supplies(raw, d) { RefusedIsNotSupplied(raw, d); }
      }
    } else {
      AcceptedIsSupplied(raw, seen, found);
    }
  }
}
