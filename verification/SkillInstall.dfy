/** Installing and upgrading bundled skills over a file system whose calls may fail.

    The digest of a tree is an arbitrary function; `TreeDigest` is about the bytes it is
    computed from.
 */
module SkillInstall {

  import opened Options
  import opened Sets

  /** The files and directories below a skill's own directory. */
  datatype Tree = Tree(files: map<string, string>, folders: set<string>)

  /** What stands at a destination: a directory, with links or special files in it or not,
      or something else. */
  datatype Dest = Directory(tree: Tree, links: bool) | NotDirectory

  /** A bundled skill and the digests of the trees earlier releases shipped. */
  datatype Skill = Skill(name: string, files: map<string, string>, previous: set<string>)

  datatype Status = Installed | Unchanged | Upgraded

  /** `Retained` names the backup that still holds the previous tree. */
  datatype Outcome = Done(status: Status) | Conflict | Failed | Retained(backup: nat)

  type Skills = map<string, Dest>

  function Parents(path: string): set<string> { set i | 0 < i < |path| && path[i] == '/' :: path[..i] }

  /** The tree that writing files creates: the files and the directories they need. */
  function TreeOf(files: map<string, string>): Tree {
    Tree(files, set p, d | p in files && d in Parents(p) :: d)
  }

  function New(skill: Skill): Dest { Directory(TreeOf(skill.files), false) }

  /** The destination holds every file of the skill; other files do not matter. */
  predicate Identical(dest: Dest, files: map<string, string>) {
    dest.Directory? && forall p :: p in files ==> p in dest.tree.files && dest.tree.files[p] == files[p]
  }

  function NameSet(skills: seq<Skill>): set<string> { set i | 0 <= i < |skills| :: skills[i].name }

  predicate DistinctNames(skills: seq<Skill>) {
    forall i, j :: 0 <= i < j < |skills| ==> skills[i].name != skills[j].name
  }

  predicate InCatalog(digest: Tree -> string, dest: Dest, previous: set<string>) {
    dest.Directory? && !dest.links && digest(dest.tree) in previous
  }

  ghost predicate AllCatalogued(digest: Tree -> string, moved: seq<(Dest, set<string>)>) {
    forall i :: 0 <= i < |moved| ==> InCatalog(digest, moved[i].0, moved[i].1)
  }

  /** The directory that holds the skills of one coding agent. */
  class Disk {
    const digest: Tree -> string
    var installed: Skills
    /** Temporary directories beside the skills: staged trees and moved-aside ones. */
    var temps: map<nat, Dest>
    /** How many file-system calls have been made, and the numbers of those that fail. */
    var calls: nat
    const failing: set<nat>
    /** Everything moved out of a destination, with the digests it was checked against. */
    ghost var moved: seq<(Dest, set<string>)>

    constructor (digest: Tree -> string, installed: Skills, failing: set<nat>)
      ensures this.digest == digest && this.installed == installed && this.failing == failing && calls == 0
      ensures temps == map[] && moved == []
    {
      this.digest, this.installed, this.failing, calls := digest, installed, failing, 0;
      temps, moved := map[], [];
    }

    /** The outcome of one file-system call. */
    method Call() returns (ok: bool)
      modifies this`calls
      ensures calls == old(calls) + 1 && (ok <==> old(calls) !in failing)
    {
      ok := calls !in failing;
      calls := calls + 1;
    }

    /** No further call fails. */
    predicate Calm()
      reads this
    {
      forall i :: i in failing ==> i < calls
    }

    /** Of the calls from `start` on, the one after `n` others fails, and no other. */
    predicate OnlyFails(start: nat, n: nat) {
      start + n in failing && forall i :: i in failing && i >= start ==> i == start + n
    }

    predicate Catalogued(dest: Dest, previous: set<string>) { InCatalog(digest, dest, previous) }

    /** The destination is free, already current, or an unmodified earlier release. */
    predicate Acceptable(skills: Skills, skill: Skill) {
      skill.name in skills ==>
        Identical(skills[skill.name], skill.files) || Catalogued(skills[skill.name], skill.previous)
    }

    /** What an install without failures leaves. */
    function After(skills: Skills, skill: Skill): Skills {
      if skill.name in skills && Identical(skills[skill.name], skill.files) then skills
      else skills[skill.name := New(skill)]
    }

    ghost predicate OnlyCataloguedMoved()
      reads this
    {
      AllCatalogued(digest, moved)
    }

    /** How many calls come before the reads of the comparison. */
    static const READ: nat := 1

    /** Look at the destination: refuse a conflict, else say what there is to do. A file that
        cannot be read makes the destination look different, and is no failure. */
    method Inspect(skill: Skill) returns (outcome: Outcome)
      modifies this`calls
      ensures outcome.Done? || outcome.Conflict? || outcome.Failed?
      ensures outcome.Done? ==> ToDo(skill, outcome.status, installed)
      ensures calls >= old(calls)
      ensures outcome == Seen(skill, installed, old(calls))
      ensures old(Calm()) ==> (outcome.Done? <==> Acceptable(installed, skill)) && !outcome.Failed?
      ensures old(Calm()) && outcome == Done(Upgraded) ==> !Identical(installed[skill.name], skill.files)
      ensures ToDo(skill, Unchanged, installed) && old(calls) !in failing && old(calls) + READ !in failing ==>
                outcome == Done(Unchanged) && calls == old(calls) + READ + 1
      ensures ToDo(skill, Upgraded, installed) && OnlyFails(old(calls), READ) ==> outcome == Done(Upgraded) && Calm()
    {
      var ok := Call();
      if !ok { return Failed; }
      if skill.name !in installed { return Done(Installed); }
      if installed[skill.name].NotDirectory? { return Conflict; }
      var readable := Call();
      if readable && Identical(installed[skill.name], skill.files) { return Done(Unchanged); }
      ok := Call();
      if !ok { return Failed; }
      if !Catalogued(installed[skill.name], skill.previous) { return Conflict; }
      return Done(Upgraded);
    }

    predicate Fails(n: nat) { n in failing }

    predicate NoneFails(from: nat, end: nat) { forall n :: from <= n < end ==> !Fails(n) }

    /** What an inspection whose first call is number `n` comes to: looking for the destination,
        comparing its files, and failing that computing its digest. */
    function Seen(skill: Skill, skills: Skills, n: nat): Outcome {
      if Fails(n) then Failed
      else if skill.name !in skills then Done(Installed)
      else if skills[skill.name].NotDirectory? then Conflict
      else if Identical(skills[skill.name], skill.files) && !Fails(n + 1) then Done(Unchanged)
      else if Fails(n + 2) then Failed
      else if Catalogued(skills[skill.name], skill.previous) then Done(Upgraded)
      else Conflict
    }

    predicate ToDo(skill: Skill, status: Status, before: Skills) {
      match status
      case Installed => skill.name !in before
      case Unchanged => skill.name in before && Identical(before[skill.name], skill.files)
      case Upgraded => skill.name in before && Catalogued(before[skill.name], skill.previous)
    }

    /** Write every file of the skill, and the directories it needs, into a fresh directory
        beside the destination. */
    method Stage(skill: Skill, id: nat) returns (ok: bool)
      requires id !in temps
      modifies this`calls, this`temps
      ensures ok ==> temps == old(temps)[id := New(skill)]
      ensures !ok ==> temps == old(temps)
      ensures calls >= old(calls) && (old(Calm()) ==> ok)
      ensures ok <==> NoneFails(old(calls), old(calls) + 1 + |skill.files.Keys|)
      ensures ok ==> calls == old(calls) + 1 + |skill.files.Keys|
    {
      hide TreeOf, Without, Parents;
      ok := Call();
      if !ok {
        assert Fails(calls - 1);
        return;
      }
      var before, written := temps, Tree(map[], {});
      temps := temps[id := Directory(written, false)];
      var rest := skill.files.Keys;
      NothingWritten(skill.files);
      while rest != {}
        invariant rest <= skill.files.Keys
        invariant written == TreeOf(Without(skill.files, rest))
        invariant temps == before[id := Directory(written, false)]
        invariant calls == old(calls) + 1 + |skill.files.Keys| - |rest|
        invariant NoneFails(old(calls), calls)
        decreases rest
      {
        var p :| p in rest;
        OneLess(rest, p);
        SubsetSize(rest, skill.files.Keys);
        ok := Call();
        if !ok {
          assert Fails(calls - 1);
          temps := temps - {id};
          TakeOut(before, id, Directory(written, false));
          return;
        }
        OneWritten(skill.files, rest, p);
        written := Tree(written.files[p := skill.files[p]], written.folders + Parents(p));
        temps := temps[id := Directory(written, false)];
        rest := rest - {p};
      }
      return true;
    }

    /** Publish a staged tree at a free destination, or give up. */
    method PublishNew(skill: Skill) returns (outcome: Outcome)
      modifies this`calls, this`installed
      ensures outcome == Done(Installed) || outcome == Conflict || outcome == Failed
      ensures outcome.Done? ==> skill.name !in old(installed) && installed == old(installed)[skill.name := New(skill)]
      ensures !outcome.Done? ==> installed == old(installed)
      ensures calls >= old(calls) && (old(Calm()) && skill.name !in old(installed) ==> outcome.Done?)
      ensures outcome == if Fails(old(calls)) then Failed else if skill.name in old(installed) then Conflict
                         else if Fails(old(calls) + 1) then Failed else Done(Installed)
    {
      var ok := Call();
      if !ok { return Failed; }
      if skill.name in installed { return Conflict; }
      ok := Call();
      if !ok { return Failed; }
      installed := installed[skill.name := New(skill)];
      return Done(Installed);
    }

    /** Read the destination again before it is moved: others may have changed it. */
    method Recheck(skill: Skill) returns (outcome: Outcome)
      modifies this`calls
      ensures outcome == Done(Upgraded) || outcome == Conflict || outcome == Failed
      ensures outcome.Done? ==> ToDo(skill, Upgraded, installed)
      ensures calls >= old(calls) && (old(Calm()) && ToDo(skill, Upgraded, installed) ==> outcome.Done?)
      ensures outcome == if Fails(old(calls)) || skill.name !in installed || installed[skill.name].NotDirectory? then Failed
                         else if Catalogued(installed[skill.name], skill.previous) then Done(Upgraded) else Conflict
    {
      var ok := Call();
      if !ok || skill.name !in installed || installed[skill.name].NotDirectory? { return Failed; }
      return if Catalogued(installed[skill.name], skill.previous) then Done(Upgraded) else Conflict;
    }

    /** Move the previous tree into a fresh backup directory. */
    method MoveAside(skill: Skill) returns (backup: Option<nat>)
      requires ToDo(skill, Upgraded, installed) && OnlyCataloguedMoved()
      modifies this
      ensures OnlyCataloguedMoved()
      ensures backup.None? ==> installed == old(installed) && temps == old(temps)
      ensures backup.Some? ==>
                && installed == old(installed) - {skill.name} && backup.value !in old(temps)
                && temps == old(temps)[backup.value := old(installed)[skill.name]]
      ensures moved == if backup.Some? then old(moved) + [(old(installed)[skill.name], skill.previous)] else old(moved)
      ensures backup.Some? <==> !Fails(old(calls)) && !Fails(old(calls) + 1)
      ensures backup.Some? ==> calls == old(calls) + 2
      ensures calls >= old(calls) && (old(Calm()) ==> backup.Some?)
    {
      var ok := Call();
      if !ok { return None; }
      var id := Fresh();
      ok := Call();
      if !ok { return None; }
      moved := moved + [(installed[skill.name], skill.previous)];
      temps := temps[id := installed[skill.name]];
      installed := installed - {skill.name};
      return Some(id);
    }

    /** Publish the staged tree; if that fails put the previous tree back, and if that fails
        too, keep the backup. */
    method Replace(skill: Skill) returns (outcome: Outcome)
      requires ToDo(skill, Upgraded, installed) && OnlyCataloguedMoved()
      modifies this
      ensures OnlyCataloguedMoved()
      ensures outcome == Done(Upgraded) || outcome == Failed || outcome.Retained?
      ensures outcome.Done? ==> installed == old(installed)[skill.name := New(skill)] && temps == old(temps)
      ensures outcome.Failed? ==> installed == old(installed) && temps == old(temps)
      ensures outcome.Retained? ==>
                && installed == old(installed) - {skill.name} && outcome.backup !in old(temps)
                && temps == old(temps)[outcome.backup := old(installed)[skill.name]]
      ensures calls >= old(calls) && (old(Calm()) ==> outcome.Done?)
      ensures outcome.Done? <==> !Fails(old(calls)) && !Fails(old(calls) + 1) && !Fails(old(calls) + 2)
      ensures outcome.Retained? <==>
                !Fails(old(calls)) && !Fails(old(calls) + 1) && Fails(old(calls) + 2) && Fails(old(calls) + 3)
    {
      hide InCatalog, AllCatalogued, New;
      ghost var before, others := installed, temps;
      var backup := MoveAside(skill);
      if backup.None? { return Failed; }
      PutBack(before, skill.name, New(skill));
      PutBack(before, skill.name, before[skill.name]);
      TakeOut(others, backup.value, before[skill.name]);
      var ok := Call();
      if ok {
        installed, temps := installed[skill.name := New(skill)], temps - {backup.value};
        return Done(Upgraded);
      }
      ok := Call();
      if !ok { return Retained(backup.value); }
      installed, temps := installed[skill.name := temps[backup.value]], temps - {backup.value};
      return Failed;
    }

    /** A name no temporary directory has. */
    method Fresh() returns (id: nat)
      ensures id !in temps
    {
      id := 0;
      ghost var seen: set<nat> := {};
      while id in temps
        invariant seen <= temps.Keys && |seen| == id && forall k :: k in seen ==> k < id
        decreases |temps.Keys| - id
      {
        SubsetSize(seen + {id}, temps.Keys);
        seen := seen + {id};
        id := id + 1;
      }
    }

    /** Put a staged tree in place after a last look at the destination. */
    method Publish(skill: Skill, upgrade: bool) returns (outcome: Outcome)
      requires OnlyCataloguedMoved()
      modifies this
      ensures OnlyCataloguedMoved()
      ensures outcome.Done? ==> Published(skill, outcome.status, old(installed), installed) && temps == old(temps)
      ensures outcome.Done? ==> outcome.status == if upgrade then Upgraded else Installed
      ensures outcome.Conflict? || outcome.Failed? ==> installed == old(installed) && temps == old(temps)
      ensures outcome.Retained? ==>
                && skill.name in old(installed) && Catalogued(old(installed)[skill.name], skill.previous)
                && installed == old(installed) - {skill.name} && outcome.backup !in old(temps)
                && temps == old(temps)[outcome.backup := old(installed)[skill.name]]
      ensures calls >= old(calls) && (Fails(old(calls)) ==> outcome.Failed?)
      ensures old(Calm()) && ToDo(skill, if upgrade then Upgraded else Installed, old(installed)) ==> outcome.Done?
    {
      hide InCatalog, AllCatalogued, New, Identical;
      var ok := Call();
      if !ok { return Failed; }
      if upgrade {
        outcome := Recheck(skill);
        if outcome.Done? { outcome := Replace(skill); }
      } else {
        outcome := PublishNew(skill);
      }
    }

    /** Install one skill. `meanwhile`, if given, is what others have made of the
        destinations by the time staging is over; `seen` is what this call acted on. */
    method Install(skill: Skill, dryRun: bool, meanwhile: Option<Skills>) returns (outcome: Outcome, ghost seen: Skills)
      requires OnlyCataloguedMoved()
      modifies this
      ensures OnlyCataloguedMoved()
      ensures seen == old(installed) || (!dryRun && meanwhile == Some(seen))
      ensures outcome.Done? ==> Acceptable(old(installed), skill)
      ensures dryRun ==> installed == seen && temps == old(temps) && !outcome.Retained?
      ensures outcome.Conflict? || outcome.Failed? ==> installed == seen && temps == old(temps)
      ensures outcome.Done? && !dryRun ==> Published(skill, outcome.status, seen, installed) && temps == old(temps)
      ensures outcome.Retained? ==>
                && skill.name in seen && Catalogued(seen[skill.name], skill.previous)
                && installed == seen - {skill.name} && outcome.backup !in old(temps)
                && temps == old(temps)[outcome.backup := seen[skill.name]]
      ensures calls >= old(calls)
      ensures old(Calm()) && meanwhile.None? ==> (outcome.Done? <==> Acceptable(old(installed), skill)) && !outcome.Failed?
      ensures old(Calm()) && meanwhile.None? && outcome.Done? && !dryRun ==> installed == After(old(installed), skill)
      ensures ToDo(skill, Unchanged, old(installed)) && old(calls) !in failing && old(calls) + READ !in failing ==>
                outcome == Done(Unchanged) && calls == old(calls) + READ + 1
      ensures ToDo(skill, Upgraded, old(installed)) && OnlyFails(old(calls), READ) && meanwhile.None? ==>
                outcome == Done(Upgraded) && Calm()
    {
      hide InCatalog, AllCatalogued, New, Identical, Seen, NoneFails;
      seen := installed;
      outcome := Inspect(skill);
      if !outcome.Done? || dryRun || outcome.status == Unchanged { return; }
      var upgrade := outcome.status == Upgraded;
      var ok := Call();
      if !ok { return Failed, seen; }
      var id := Fresh();
      ok := Stage(skill, id);
      if !ok { return Failed, seen; }
      if meanwhile.Some? {
        installed := meanwhile.value;
        seen := installed;
      }
      TakeOut(old(temps), id, New(skill));
      outcome := Publish(skill, upgrade);
      temps := temps - {id};
      if outcome.Retained? { TakeOutOther(old(temps), id, New(skill), outcome.backup, seen[skill.name]); }
    }

    /** A successful call: nothing to do, a new tree, or a catalogued tree replaced whole. */
    ghost predicate Published(skill: Skill, status: Status, before: Skills, after: Skills) {
      match status
      case Unchanged => skill.name in before && Identical(before[skill.name], skill.files) && after == before
      case Installed => skill.name !in before && after == before[skill.name := New(skill)]
      case Upgraded =>
        && skill.name in before && Catalogued(before[skill.name], skill.previous)
        && after == before[skill.name := New(skill)]
    }

    // ---- a set of skills --------------------------------------------------------------

    predicate AllCurrent(before: Skills, skills: seq<Skill>) {
      forall i :: 0 <= i < |skills| ==> ToDo(skills[i], Unchanged, before)
    }

    /** Every destination counts as current, that of skill `k` is an earlier release too, and of
        the calls from `start` on only the read for comparing it fails, after the preview of all
        skills and the install of the first `k`. */
    predicate ReadFails(skills: seq<Skill>, before: Skills, start: nat, k: nat) {
      && k < |skills| && AllCurrent(before, skills) && ToDo(skills[k], Upgraded, before)
      && OnlyFails(start, (READ + 1) * (|skills| + k) + READ)
    }

    /** The dry pass over a set, which changes nothing and stops at the first conflict. */
    method InspectAll(skills: seq<Skill>) returns (outcome: Outcome)
      requires OnlyCataloguedMoved()
      modifies this
      ensures OnlyCataloguedMoved() && installed == old(installed) && temps == old(temps) && !outcome.Retained?
      ensures calls >= old(calls)
      ensures outcome.Done? ==> AllAcceptable(installed, skills)
      ensures old(Calm()) ==> (outcome.Done? <==> AllAcceptable(installed, skills))
      ensures forall k: nat :: ReadFails(skills, installed, old(calls), k) ==>
                outcome.Done? && calls == old(calls) + (READ + 1) * |skills|
    {
      hide InCatalog, AllCatalogued, New, Identical;
      ghost var before, others, start := installed, temps, calls;
      outcome := Done(Unchanged);
      for i := 0 to |skills|
        invariant installed == before && temps == others && OnlyCataloguedMoved() && outcome.Done?
        invariant forall j :: 0 <= j < i ==> Acceptable(before, skills[j])
        invariant calls >= start
        invariant forall k: nat :: ReadFails(skills, before, start, k) ==> calls == start + (READ + 1) * i
      {
        ghost var seen;
        assert forall k: nat :: ReadFails(skills, before, start, k) ==> ToDo(skills[i], Unchanged, before);
        outcome, seen := Install(skills[i], true, None);
        if !outcome.Done? { return; }
      }
    }

    /** Preview every skill, then install them in order, stopping at the first failure. */
    method InstallSet(skills: seq<Skill>, dryRun: bool) returns (outcome: Outcome)
      requires OnlyCataloguedMoved() && DistinctNames(skills)
      modifies this
      ensures OnlyCataloguedMoved()
      ensures dryRun || !AllAcceptable(old(installed), skills) ==> installed == old(installed) && temps == old(temps)
      ensures outcome.Done? ==> AllAcceptable(old(installed), skills)
      ensures Resumable(skills, old(installed), installed)
      ensures !outcome.Retained? ==> temps == old(temps) && old(installed).Keys <= installed.Keys
      ensures outcome.Retained? ==> exists k :: 0 <= k < |skills| && Kept(skills[k], outcome.backup, old(installed), old(temps))
      ensures outcome.Done? && !dryRun ==> forall i :: 0 <= i < |skills| ==> Current(skills[i])
      ensures old(Calm()) ==> (outcome.Done? <==> AllAcceptable(old(installed), skills))
      ensures old(Calm()) && outcome.Done? && !dryRun ==> installed == AfterAll(old(installed), skills)
      ensures !dryRun ==> forall k: nat :: ReadFails(skills, old(installed), old(calls), k) ==>
                outcome.Done? && installed == old(installed)[skills[k].name := New(skills[k])]
    {
      hide InCatalog, AllCatalogued, New, Identical;
      ghost var before, others, calm, start := installed, temps, Calm(), calls;
      outcome := InspectAll(skills);
      if !outcome.Done? || dryRun { return; }
      assert skills[..0] == [];
      for i := 0 to |skills|
        invariant outcome.Done? && temps == others && OnlyCataloguedMoved() && before.Keys <= installed.Keys
        invariant forall j :: 0 <= j < i ==> Current(skills[j])
        invariant forall j :: i <= j < |skills| ==> Untouched(before, installed, skills[j].name)
        invariant Resumable(skills, before, installed)
        invariant calls >= start && (calm ==> installed == AfterAll(before, skills[..i]))
        invariant forall k: nat :: ReadFails(skills, before, start, k) ==> ReadSoFar(skills, before, start, i, k)
      {
        ghost var now := installed;
        assert Acceptable(now, skills[i]);
        forall k: nat | ReadFails(skills, before, start, k) ensures ReadNext(skills, i, k) {
          ReadComes(skills, before, start, i, k);
        }
        ghost var seen;
        outcome, seen := Install(skills[i], false, None);
        NewIsIdentical(skills[i]);
        StaysResumable(skills, before, now, installed, i);
        if !outcome.Done? {
          if outcome.Retained? { assert Kept(skills[i], outcome.backup, before, others); }
          return;
        }
        assert skills[..i + 1][..i] == skills[..i];
      }
      assert skills[..|skills|] == skills;
    }

    /** After `i` installs, that one read has failed and cost skill `k` its old tree, or is to come. */
    predicate ReadSoFar(skills: seq<Skill>, before: Skills, start: nat, i: nat, k: nat)
      requires k < |skills|
      reads this
    {
      if i <= k then calls == start + (READ + 1) * (|skills| + i) && installed == before
      else Calm() && installed == before[skills[k].name := New(skills[k])]
    }

    /** What the install of skill `i` meets: it goes smoothly but for the one read. */
    predicate ReadNext(skills: seq<Skill>, i: nat, k: nat)
      requires i < |skills|
      reads this
    {
      && ToDo(skills[i], Unchanged, installed)
      && (i < k ==> calls !in failing && calls + READ !in failing)
      && (i == k ==> ToDo(skills[i], Upgraded, installed) && OnlyFails(calls, READ))
    }

    lemma ReadComes(skills: seq<Skill>, before: Skills, start: nat, i: nat, k: nat)
      requires i < |skills| && DistinctNames(skills)
      requires ReadFails(skills, before, start, k) && ReadSoFar(skills, before, start, i, k)
      ensures ReadNext(skills, i, k)
    {
      hide InCatalog, Identical, New;
      if i < k {
        assert calls + READ < start + ((READ + 1) * (|skills| + k) + READ);
      } else if i == k {
        assert calls + READ == start + ((READ + 1) * (|skills| + k) + READ);
      }
    }

    /** Only this skill's destination has been emptied, and the backup holds what it held. */
    ghost predicate Kept(skill: Skill, backup: nat, before: Skills, others: map<nat, Dest>)
      reads this
    {
      && skill.name in before && backup !in others && temps == others[backup := before[skill.name]]
      && before.Keys - {skill.name} <= installed.Keys
    }

    /** Nothing is lost: what stood at the destination is in the backup, and all else where it was. */
    lemma KeptHolds(skill: Skill, backup: nat, before: Skills, others: map<nat, Dest>)
      requires Kept(skill, backup, before, others)
      ensures skill.name in before && backup in temps && temps[backup] == before[skill.name] && backup !in others
      ensures forall id :: id in others ==> id in temps && temps[id] == others[id]
      ensures forall n :: n in before && n != skill.name ==> n in installed
    {
    }

    predicate AllAcceptable(before: Skills, skills: seq<Skill>) {
      forall i :: 0 <= i < |skills| ==> Acceptable(before, skills[i])
    }

    predicate Current(skill: Skill)
      reads this
    {
      skill.name in installed && Identical(installed[skill.name], skill.files)
    }

    /** What installing all skills without failures leaves. */
    function AfterAll(before: Skills, skills: seq<Skill>): Skills {
      if skills == [] then before else After(AfterAll(before, skills[..|skills| - 1]), skills[|skills| - 1])
    }

    lemma {:induction false} AfterAllAt(before: Skills, skills: seq<Skill>, n: string)
      requires DistinctNames(skills)
      ensures n !in NameSet(skills) ==> Untouched(before, AfterAll(before, skills), n)
      ensures forall i :: 0 <= i < |skills| && skills[i].name == n ==>
                n in AfterAll(before, skills) &&
                AfterAll(before, skills)[n] ==
                  if n in before && Identical(before[n], skills[i].files) then before[n] else New(skills[i])
      decreases |skills|
    {
      hide Identical, New;
      if skills == [] {
      } else {
        var k := |skills| - 1;
        AfterAllAt(before, skills[..k], n);
        assert skills[k].name !in NameSet(skills[..k]);
        AfterAllAt(before, skills[..k], skills[k].name);
        assert NameSet(skills) == NameSet(skills[..k]) + {skills[k].name};
      }
    }

    // ---- interrupted runs -----------------------------------------------------------------

    /** The destination is as it was; or it was free or an earlier release, and is now empty
        or holds the new tree. */
    predicate Resumed(s: Skill, before: Skills, after: Skills) {
      || Untouched(before, after, s.name)
      || ((s.name in before ==> Catalogued(before[s.name], s.previous))
          && (s.name in after ==> after[s.name] == New(s)))
    }

    /** What an interrupted run may leave: nothing outside the skills has changed. */
    ghost predicate Resumable(skills: seq<Skill>, before: Skills, after: Skills) {
      && (forall n :: n !in NameSet(skills) ==> Untouched(before, after, n))
      && forall i :: 0 <= i < |skills| ==> Resumed(skills[i], before, after)
    }

    /** One more destination emptied or replaced as allowed keeps a run resumable. */
    lemma StaysResumable(skills: seq<Skill>, before: Skills, now: Skills, after: Skills, k: nat)
      requires k < |skills| && DistinctNames(skills) && Resumable(skills, before, now)
      requires Untouched(before, now, skills[k].name)
      requires || after == now
               || ((skills[k].name in now ==> Catalogued(now[skills[k].name], skills[k].previous))
                   && (after == now - {skills[k].name} || after == now[skills[k].name := New(skills[k])]))
      ensures Resumable(skills, before, after)
    {
      hide InCatalog, New;
      forall n | n !in NameSet(skills) ensures Untouched(before, after, n) {
        assert n != skills[k].name;
        assert Untouched(before, now, n);
      }
      forall i | 0 <= i < |skills| ensures Resumed(skills[i], before, after) {
        assert Resumed(skills[i], before, now);
      }
    }

    /** Rerunning after a failed run finds no conflict and, without further failures, leaves
        every skill current. */
    lemma RerunSucceeds(skills: seq<Skill>, before: Skills, between: Skills)
      requires DistinctNames(skills) && AllAcceptable(before, skills) && Resumable(skills, before, between)
      ensures AllAcceptable(between, skills)
      ensures forall i :: 0 <= i < |skills| ==>
                skills[i].name in AfterAll(between, skills) &&
                Identical(AfterAll(between, skills)[skills[i].name], skills[i].files)
    {
      hide InCatalog, Identical, New;
      forall i | 0 <= i < |skills|
        ensures skills[i].name in AfterAll(between, skills)
        ensures Identical(AfterAll(between, skills)[skills[i].name], skills[i].files)
      {
        AfterAllAt(between, skills, skills[i].name);
        NewIsIdentical(skills[i]);
      }
      forall i | 0 <= i < |skills| ensures Acceptable(between, skills[i]) {
        assert Resumed(skills[i], before, between) && Acceptable(before, skills[i]);
        NewIsIdentical(skills[i]);
      }
    }

    /** The destination counts as current with more than the skill in it, and is also an
        earlier release: when a file of it cannot be read, it is replaced. */
    predicate MayLoseFiles(before: Skills, s: Skill) {
      && s.name in before && Identical(before[s.name], s.files) && before[s.name] != New(s)
      && Catalogued(before[s.name], s.previous)
    }

    /** Rerunning after any interrupted run leaves what one run without failures would have
        left, exactly when no destination may lose files. */
    lemma RerunConverges(skills: seq<Skill>, before: Skills)
      requires DistinctNames(skills)
      ensures (forall between :: Resumable(skills, before, between) ==> AfterAll(between, skills) == AfterAll(before, skills))
              <==> forall i :: 0 <= i < |skills| ==> !MayLoseFiles(before, skills[i])
    {
      hide InCatalog, Identical, New, AfterAll, Resumable, MayLoseFiles;
      if forall i :: 0 <= i < |skills| ==> !MayLoseFiles(before, skills[i]) {
        forall between | Resumable(skills, before, between) ensures AfterAll(between, skills) == AfterAll(before, skills) {
          RerunSame(skills, before, between);
        }
      } else {
        var k :| 0 <= k < |skills| && MayLoseFiles(before, skills[k]);
        ReplacedDiffers(skills, before, k);
      }
    }

    lemma RerunSame(skills: seq<Skill>, before: Skills, between: Skills)
      requires DistinctNames(skills) && Resumable(skills, before, between)
      requires forall i :: 0 <= i < |skills| ==> !MayLoseFiles(before, skills[i])
      ensures AfterAll(between, skills) == AfterAll(before, skills)
    {
      hide InCatalog, Identical, New, AfterAll;
      var a, b := AfterAll(between, skills), AfterAll(before, skills);
      forall n ensures (n in a <==> n in b) && (n in a ==> a[n] == b[n]) {
        AfterAllAt(between, skills, n);
        AfterAllAt(before, skills, n);
        if n in NameSet(skills) {
          var i :| 0 <= i < |skills| && skills[i].name == n;
          assert Resumed(skills[i], before, between) && !MayLoseFiles(before, skills[i]);
          NewIsIdentical(skills[i]);
        }
      }
    }

    lemma ReplacedDiffers(skills: seq<Skill>, before: Skills, k: nat)
      requires DistinctNames(skills) && k < |skills| && MayLoseFiles(before, skills[k])
      ensures var between := before[skills[k].name := New(skills[k])];
              Resumable(skills, before, between) && AfterAll(between, skills) != AfterAll(before, skills)
    {
      hide InCatalog, Identical, New, AfterAll;
      var n, between := skills[k].name, before[skills[k].name := New(skills[k])];
      assert Resumable(skills, before, before);
      StaysResumable(skills, before, before, between, k);
      AfterAllAt(between, skills, n);
      AfterAllAt(before, skills, n);
      NewIsIdentical(skills[k]);
    }
  }

  /** Wherever every destination counts as current and one may lose files, a run loses them: the
      preview reads the destination, the install cannot read one of its files, takes it for an
      earlier release and replaces it. */
  method FailedReadReplaces(digest: Tree -> string, skills: seq<Skill>, before: Skills, k: nat) returns (disk: Disk)
    requires DistinctNames(skills) && k < |skills|
    requires forall i :: 0 <= i < |skills| ==> skills[i].name in before && Identical(before[skills[i].name], skills[i].files)
    requires before[skills[k].name] != New(skills[k]) && InCatalog(digest, before[skills[k].name], skills[k].previous)
    ensures disk.digest == digest && disk.MayLoseFiles(before, skills[k])
    ensures disk.installed == before[skills[k].name := New(skills[k])] && disk.temps == map[]
    ensures disk.AfterAll(disk.installed, skills) != disk.AfterAll(before, skills)
  {
    hide New, Identical, InCatalog;
    var n := (Disk.READ + 1) * (|skills| + k) + Disk.READ;
    disk := new Disk(digest, before, {n});
    assert disk.ReadFails(skills, before, 0, k);
    var outcome := disk.InstallSet(skills, false);
    disk.ReplacedDiffers(skills, before, k);
  }

  predicate Untouched(before: Skills, after: Skills, n: string) {
    (n in before <==> n in after) && (n in before ==> before[n] == after[n])
  }

  function Without(files: map<string, string>, rest: set<string>): map<string, string> {
    map p | p in files && p !in rest :: files[p]
  }

  lemma NothingWritten(files: map<string, string>)
    ensures TreeOf(Without(files, files.Keys)) == Tree(map[], {}) && Without(files, {}) == files
  {
    assert Without(files, files.Keys) == map[];
  }

  lemma OneWritten(files: map<string, string>, rest: set<string>, p: string)
    requires p in files && p in rest
    ensures var written := TreeOf(Without(files, rest));
            TreeOf(Without(files, rest - {p})) == Tree(written.files[p := files[p]], written.folders + Parents(p))
  {
    var less, more := Without(files, rest), Without(files, rest - {p});
    assert more == less[p := files[p]];
    assert TreeOf(more).folders == TreeOf(less).folders + Parents(p);
  }

  lemma NewIsIdentical(skill: Skill)
    ensures Identical(New(skill), skill.files)
  {
  }

  lemma PutBack(m: Skills, name: string, dest: Dest)
    ensures (m - {name})[name := dest] == m[name := dest]
    ensures name in m && m[name] == dest ==> m[name := dest] == m
  {
  }

  lemma TakeOut(m: map<nat, Dest>, id: nat, dest: Dest)
    ensures id !in m ==> m[id := dest] - {id} == m
  {
  }

  lemma TakeOutOther(m: map<nat, Dest>, id: nat, dest: Dest, other: nat, kept: Dest)
    ensures id !in m && other != id ==> m[id := dest][other := kept] - {id} == m[other := kept]
  {
  }

  // ---- what the tests of a destination mean --------------------------------------------------------

  /** A directory counts as current exactly when every file of the skill is in it, byte for byte. */
  lemma IdenticalIs(dest: Dest, files: map<string, string>)
    ensures Identical(dest, files) <==> exists tree, links :: dest == Directory(tree, links) && files.Items <= tree.files.Items
  {
    if Identical(dest, files) {
      assert dest == Directory(dest.tree, dest.links);
      forall item | item in files.Items ensures item in dest.tree.files.Items { assert item.0 in files; }
    }
    if tree, links :| dest == Directory(tree, links) && files.Items <= tree.files.Items {
      forall p | p in files ensures p in tree.files && tree.files[p] == files[p] { assert (p, files[p]) in files.Items; }
    }
  }

  /** A destination is an earlier release exactly when it is a directory without links or special
      files whose digest that release recorded. */
  lemma CatalogIs(digest: Tree -> string, dest: Dest, previous: set<string>)
    ensures InCatalog(digest, dest, previous) <==> exists tree :: dest == Directory(tree, false) && digest(tree) in previous
  {
    if InCatalog(digest, dest, previous) { assert dest == Directory(dest.tree, false); }
  }

  /** The new tree has the skill's files and the directories above them, and no other. */
  lemma NewIs(skill: Skill, d: string)
    ensures New(skill).Directory? && !New(skill).links && New(skill).tree.files == skill.files
    ensures d in New(skill).tree.folders <==> d != "" && exists rest :: d + "/" + rest in skill.files
  {
    if d in New(skill).tree.folders {
      var p :| p in skill.files && d in Parents(p);
      var i :| 0 < i < |p| && p[i] == '/' && p[..i] == d;
      assert p == d + "/" + p[i + 1..];
    }
    if rest :| d != "" && d + "/" + rest in skill.files {
      var p := d + "/" + rest;
      assert p[|d|] == '/' && p[..|d|] == d;
      assert d in Parents(p);
    }
  }

  /** Every skill has a name of its own. */
  lemma {:induction false} DistinctIs(skills: seq<Skill>)
    ensures DistinctNames(skills) <==> |NameSet(skills)| == |skills|
    ensures |NameSet(skills)| <= |skills|
    decreases |skills|
  {
    if skills == [] {
    } else {
      DistinctIs(skills[..|skills| - 1]);
      OneMoreName(skills);
      hide NameSet, DistinctNames;
    }
  }

  lemma OneMoreName(skills: seq<Skill>)
    requires skills != []
    ensures var n := |skills| - 1;
            && NameSet(skills) == NameSet(skills[..n]) + {skills[n].name}
            && (DistinctNames(skills) <==> DistinctNames(skills[..n]) && skills[n].name !in NameSet(skills[..n]))
  {
  }

  lemma MovedWereCatalogued(digest: Tree -> string, moved: seq<(Dest, set<string>)>)
    ensures AllCatalogued(digest, moved) <==> forall m :: m in moved ==> InCatalog(digest, m.0, m.1)
  {
    hide InCatalog;
    if AllCatalogued(digest, moved) {
      forall m | m in moved ensures InCatalog(digest, m.0, m.1) { var i :| 0 <= i < |moved| && moved[i] == m; }
    }
    if forall m :: m in moved ==> InCatalog(digest, m.0, m.1) {
      forall i | 0 <= i < |moved| ensures InCatalog(digest, moved[i].0, moved[i].1) { assert moved[i] in moved; }
    }
  }
}
