/** How the worker replaces a mounted image by its next version, and how the next worker recovers
    after it died in the middle (src/worker/apfs_winfs_worker.cpp).

    A worker that dies does so between two operations on the directory. `budget` is the number of
    operations it still performs; once it is used up nothing the worker does has any effect. What
    holds for every budget therefore holds wherever the worker dies. */
module ImageReplacement {
  import opened Common
  import opened ImageNames
  import opened Text

  /** A file of the directory. Its stamp is its modification time; complete images made by different
      commits have different stamps, later ones the larger. */
  datatype Image = Image(complete: bool, stamp: nat)

  type Directory = map<string, Image>

  predicate Owned(image: string, name: string) {
    ParseTemp(image, name).Some?
  }

  predicate IsBackup(image: string, name: string) {
    ParseTemp(image, name).Some? && ParseTemp(image, name).value.operation == BACKUP
  }

  /** Whether the process that made a temporary is alive. Numbers that no process has count as dead. */
  predicate OwnerAlive(image: string, name: string, alive: set<nat>) {
    match ParseTemp(image, name)
    case None => false
    case Some(parts) => 0 < Number(parts.pid) <= UINT32_MAX && Number(parts.pid) in alive
  }

  /** The maker of a temporary is the process whose number it wrote into the name; a number that no
      process can have is nobody's. */
  lemma MakerAlive(image: string, operation: string, pid: nat, id: string, alive: set<nat>)
    requires operation != [] && Letters(operation) && id != [] && Hex(id)
    ensures Owned(image, TempName(image, operation, Decimal(pid), id))
    ensures OwnerAlive(image, TempName(image, operation, Decimal(pid), id), alive) <==> 0 < pid <= 0xffff_ffff && pid in alive
  {
    hide ParseTemp, TempName, Decimal;
    TempNameParses(image, operation, pid, id);
  }

  /** A dead worker's backup that can be renamed may be restored. */
  lemma BackupIsEligible(image: string, before: Directory, alive: set<nat>, renames: string -> bool, pid: nat, id: string)
    requires id != [] && Hex(id) && TempName(image, "backup", Decimal(pid), id) in before
    requires !(0 < pid <= 0xffff_ffff && pid in alive) && renames(TempName(image, "backup", Decimal(pid), id))
    ensures Eligible(image, before, TempName(image, "backup", Decimal(pid), id), alive, renames)
  {
    hide ParseTemp, TempName, Decimal, LooksLikeBackup, HasMark, OwnerAlive;
    MakerAlive(image, "backup", pid, id, alive);
    TempNameParses(image, "backup", pid, id);
    BackupTest(image, TempName(image, "backup", Decimal(pid), id));
  }

  /** The image as of `current` survives, as the target or, while there is no target, as the newest
      backup; and no backup can be mistaken for something newer. */
  ghost predicate Survives(image: string, files: Directory, current: nat) {
    && (forall n :: n in files && IsBackup(image, n) ==> files[n].complete && files[n].stamp <= current)
    && (forall m, n :: m in files && n in files && IsBackup(image, m) && IsBackup(image, n) && m != n ==>
          files[m].stamp != files[n].stamp)
    && (image in files ==>
          && files[image] == Image(true, current)
          && forall n :: n in files && IsBackup(image, n) ==> files[n].stamp < current)
    && (image !in files ==> exists n :: n in files && IsBackup(image, n) && files[n].stamp == current)
  }

  lemma TargetIsNotOwned(image: string)
    ensures !Owned(image, image) && !IsBackup(image, image)
  {
  }

  lemma SurvivesWithout(image: string, files: Directory, name: string, current: nat)
    requires Survives(image, files, current) && name != image
    requires image in files || !IsBackup(image, name)
    ensures Survives(image, files - {name}, current)
  {
    hide IsBackup;
    if image !in files {
      var n :| n in files && IsBackup(image, n) && files[n].stamp == current;
      assert n in files - {name};
    }
  }

  lemma CurrentIsOld(image: string, files: Directory, current: nat, stamp: nat)
    requires Survives(image, files, current) && forall n :: n in files ==> files[n].stamp < stamp
    ensures current < stamp
  {
    hide ParseTemp;
  }

  lemma SurvivesWithTemp(image: string, files: Directory, name: string, temp: Image, current: nat)
    requires Survives(image, files, current) && name != image && !IsBackup(image, name)
    ensures Survives(image, files[name := temp], current)
  {
    hide IsBackup;
    if image !in files {
      var n :| n in files && IsBackup(image, n) && files[n].stamp == current;
      assert n in files[name := temp];
    }
  }

  function MovedTo(files: Directory, from: string, to: string): Directory
    requires from in files
  {
    (files - {from})[to := files[from]]
  }

  /** The first half of a replacement: the target becomes the backup. */
  lemma SurvivesAsBackup(image: string, files: Directory, backup: string, current: nat)
    requires Survives(image, files, current) && image in files && backup !in files && IsBackup(image, backup)
    ensures Survives(image, MovedTo(files, image, backup), current)
  {
    TargetIsNotOwned(image);
    hide ParseTemp;
    assert backup in MovedTo(files, image, backup);
  }

  /** The second half: the temporary becomes the target. */
  lemma SurvivesAsNew(image: string, files: Directory, temp: string, current: nat, stamp: nat)
    requires Survives(image, files, current) && image !in files && temp in files && !IsBackup(image, temp)
    requires files[temp] == Image(true, stamp) && current < stamp
    ensures Survives(image, MovedTo(files, temp, image), stamp)
  {
    TargetIsNotOwned(image);
    hide ParseTemp;
  }

  /** Writing a temporary and moving it over the target is writing the target. */
  lemma DirectoryAfter(files: Directory, image: string, temp: string, backup: string, made: Image)
    requires image in files && temp !in files && backup !in files && temp != image && backup != image && temp != backup
    ensures var written := files[temp := Image(false, made.stamp)][temp := made];
            && (written - {temp})[image := made] == files[image := made]
            && MovedTo(written, image, backup) - {temp} == MovedTo(files, image, backup)
  {
  }

  /** Recovery: the newest backup becomes the target. */
  lemma SurvivesRestored(image: string, files: Directory, backup: string, current: nat)
    requires Survives(image, files, current) && image !in files
    requires backup in files && IsBackup(image, backup) && files[backup].stamp == current
    ensures Survives(image, MovedTo(files, backup, image), current)
  {
    TargetIsNotOwned(image);
    hide ParseTemp;
  }

  /** What `ReplaceFileW` can do: all of it, nothing, or only the first of its two moves. */
  datatype Outcome = Replaced | NothingMoved | OnlyTargetMoved

  /** What the world answers during one commit; `reloads` says whether the image that has become the
      target can be opened again and the entry found in it. */
  datatype World = World(writerOk: bool, replace: Outcome, removesTemp: bool, removesBackup: bool, reloads: bool)

  ghost predicate Lists(image: string, files: Directory, names: seq<string>) {
    && (forall n :: n in names <==> n in files && InFilter(image, n))
    && (forall i, j :: 0 <= i < j < |names| ==> names[i] != names[j] && files[names[i]].stamp >= files[names[j]].stamp)
  }

  /** What recovery may take for the lost target. */
  predicate Eligible(image: string, files: Directory, name: string, alive: set<nat>, renames: string -> bool) {
    && name in files && Owned(image, name) && LooksLikeBackup(name)
    && !OwnerAlive(image, name, alive) && renames(name)
  }

  ghost predicate NoneEligible(image: string, files: Directory, alive: set<nat>, renames: string -> bool) {
    forall n :: n in files ==> !Eligible(image, files, n, alive, renames)
  }

  ghost predicate NewestEligible(image: string, files: Directory, name: string, alive: set<nat>, renames: string -> bool) {
    && Eligible(image, files, name, alive, renames)
    && forall n :: n in files && Eligible(image, files, n, alive, renames) ==> files[n].stamp <= files[name].stamp
  }

  lemma {:induction false} NewestExists(files: Directory, names: set<string>) returns (newest: string)
    requires names != {} && forall n :: n in names ==> n in files
    ensures newest in names && forall n :: n in names ==> files[n].stamp <= files[newest].stamp
  {
    newest :| newest in names;
    var rest := names - {newest};
    assert forall n :: n in names ==> n == newest || n in rest;
    if rest != {} {
      var other := NewestExists(files, rest);
      if files[newest].stamp < files[other].stamp {
        newest := other;
      }
    }
  }

  lemma {:induction false} DistinctWithin(names: seq<string>, all: set<string>)
    requires forall i, j :: 0 <= i < j < |names| ==> names[i] != names[j]
    requires forall n :: n in names ==> n in all
    ensures |names| <= |all|
  {
    if names != [] {
      var front, last := names[..|names| - 1], names[|names| - 1];
      assert forall i :: 0 <= i < |front| ==> front[i] == names[i];
      DistinctWithin(front, all - {last});
    }
  }

  lemma ListedCount(image: string, files: Directory, names: seq<string>)
    requires Lists(image, files, names)
    ensures |names| <= |files|
  {
    hide InFilter;
    DistinctWithin(names, files.Keys);
  }

  lemma MovedCount(files: Directory, from: string, to: string)
    requires from in files && to !in files
    ensures |MovedTo(files, from, to)| == |files|
  {
    var moved := MovedTo(files, from, to);
    assert moved.Keys == files.Keys - {from} + {to};
  }

  lemma OwnedIsListed(image: string, name: string)
    requires Owned(image, name)
    ensures InFilter(image, name)
  {
  }

  /** Listed newest first, the first eligible candidate is the newest eligible file. */
  lemma EligibleIsListed(image: string, files: Directory, names: seq<string>, alive: set<nat>, renames: string -> bool)
    requires Lists(image, files, names)
    ensures forall n :: n in files && Eligible(image, files, n, alive, renames) ==> n in names
  {
    forall n | n in files && Eligible(image, files, n, alive, renames)
      ensures n in names
    {
      OwnedIsListed(image, n);
    }
  }

  /** Restoring keeps what counts if and only if the newest backup is what is restored. */
  lemma RestoredSurvives(image: string, before: Directory, after: Directory, current: nat,
                         alive: set<nat>, renames: string -> bool)
    requires !HasMark(image) && Survives(image, before, current) && image !in before
    requires after == before ||
             exists n :: NewestEligible(image, before, n, alive, renames) && after == MovedTo(before, n, image)
    ensures after == before ==> Survives(image, after, current)
    ensures after != before ==>
              (Survives(image, after, current) <==>
               exists n :: Eligible(image, before, n, alive, renames) && before[n].stamp == current)
    ensures after != before && !Survives(image, after, current) ==> image in after && after[image].stamp != current
    ensures NoneEligible(image, before, alive, renames) ==> after == before
  {
    hide ParseTemp, LooksLikeBackup, OwnerAlive;
    if after != before {
      var r :| NewestEligible(image, before, r, alive, renames) && after == MovedTo(before, r, image);
      BackupTest(image, r);
      assert image in after;
      if before[r].stamp == current {
        SurvivesRestored(image, before, r, current);
      } else {
        forall n | Eligible(image, before, n, alive, renames)
          ensures before[n].stamp != current
        {
          BackupTest(image, n);
        }
      }
    }
  }

  lemma RestoredCount(image: string, before: Directory, after: Directory, alive: set<nat>, renames: string -> bool)
    requires image !in before
    requires after == before ||
             exists n :: NewestEligible(image, before, n, alive, renames) && after == MovedTo(before, n, image)
    ensures |after| == |before|
  {
    hide Owned, LooksLikeBackup, OwnerAlive;
    if after != before {
      var r :| NewestEligible(image, before, r, alive, renames) && after == MovedTo(before, r, image);
      MovedCount(before, r, image);
    }
  }

  lemma TargetIsCurrent(image: string, files: Directory, current: nat)
    requires Survives(image, files, current) && image in files
    ensures files[image] == Image(true, current)
  {
  }

  /** Beside a target any other file can go. */
  lemma SurvivesCleaning(image: string, before: Directory, after: Directory, current: nat)
    requires Survives(image, before, current) && image in before && image in after
    requires forall n :: n in after ==> n in before && after[n] == before[n]
    ensures Survives(image, after, current)
  {
  }

  class ImageStore {
    const image: string
    var files: Directory
    /** How many more operations the running worker performs. */
    var budget: nat
    /** The stamp of the image that counts. */
    ghost var current: nat

    constructor (image: string, stamp: nat)
      requires !HasMark(image)
      ensures this.image == image && files == map[image := Image(true, stamp)] && current == stamp && budget == 0
      ensures Valid()
    {
      this.image, files, budget, current := image, map[image := Image(true, stamp)], 0, stamp;
      new;
      TargetIsNotOwned(image);
    }

    ghost predicate Valid()
      reads this
    {
      !HasMark(image) && Survives(image, files, current)
    }

    // Operations on the directory

    method Remove(name: string, works: bool)
      modifies this`files, this`budget
      ensures budget == if old(budget) == 0 then 0 else old(budget) - 1
      ensures files == if old(budget) > 0 && works then old(files) - {name} else old(files)
    {
      if budget > 0 {
        budget := budget - 1;
        if works {
          files := files - {name};
        }
      }
    }

    method Move(from: string, to: string, works: bool) returns (done: bool)
      requires from in files && to !in files
      modifies this`files, this`budget
      ensures budget == if old(budget) == 0 then 0 else old(budget) - 1
      ensures done == (old(budget) > 0 && works)
      ensures files == if done then MovedTo(old(files), from, to) else old(files)
    {
      done := budget > 0 && works;
      if budget > 0 {
        budget := budget - 1;
      }
      if done {
        files := MovedTo(files, from, to);
      }
    }

    method Store(name: string, file: Image)
      modifies this`files, this`budget
      ensures budget == if old(budget) == 0 then 0 else old(budget) - 1
      ensures files == if old(budget) > 0 then old(files)[name := file] else old(files)
    {
      if budget > 0 {
        budget := budget - 1;
        files := files[name := file];
      }
    }

    /** The candidates, newest first. */
    method Listing() returns (names: seq<string>)
      ensures Lists(image, files, names)
    {
      hide InFilter;
      names := [];
      var rest := set n | n in files && InFilter(image, n);
      while rest != {}
        invariant forall n :: n in rest ==> n in files && InFilter(image, n) && n !in names
        invariant forall n :: n in files && InFilter(image, n) ==> n in rest || n in names
        invariant forall n :: n in names ==> n in files && InFilter(image, n)
        invariant forall i, n :: 0 <= i < |names| && n in rest ==> files[names[i]].stamp >= files[n].stamp
        invariant forall i, j :: 0 <= i < j < |names| ==> names[i] != names[j] && files[names[i]].stamp >= files[names[j]].stamp
        decreases rest
      {
        ghost var top := NewestExists(files, rest);
        var newest :| newest in rest && forall n :: n in rest ==> files[n].stamp <= files[newest].stamp;
        names := names + [newest];
        rest := rest - {newest};
      }
    }

    // Recovery

    /** The first loop of a recovery that found no target. */
    method RestoreBackup(alive: set<nat>, renames: string -> bool, candidates: seq<string>)
      requires image !in files && Lists(image, files, candidates)
      modifies this`files, this`budget
      ensures budget <= old(budget) <= budget + |candidates|
      ensures files == old(files) ||
                exists n :: NewestEligible(image, old(files), n, alive, renames) && files == MovedTo(old(files), n, image)
      ensures budget > 0 && image !in files ==> NoneEligible(image, files, alive, renames)
    {
      hide ParseTemp, InFilter, LooksLikeBackup, OwnerAlive;
      var i := 0;
      while i < |candidates|
        invariant i <= |candidates| && files == old(files) && budget <= old(budget) <= budget + i
        invariant budget > 0 ==> forall j :: 0 <= j < i ==> !Eligible(image, files, candidates[j], alive, renames)
      {
        var candidate := candidates[i];
        i := i + 1;
        if !Owned(image, candidate) || !LooksLikeBackup(candidate) || OwnerAlive(image, candidate, alive) {
          continue;
        }
        var done := Move(candidate, image, renames(candidate));
        if done {
          EligibleIsListed(image, old(files), candidates, alive, renames);
          assert NewestEligible(image, old(files), candidate, alive, renames);
          break;
        }
      }
      EligibleIsListed(image, old(files), candidates, alive, renames);
    }

    /** The second loop: the temporaries of dead workers go. */
    method RemoveDeadTemps(alive: set<nat>, removes: string -> bool, candidates: seq<string>)
      requires image in files && Lists(image, files, candidates)
      modifies this`files, this`budget
      ensures budget <= old(budget) <= budget + |candidates|
      ensures forall n :: n in files ==> n in old(files) && files[n] == old(files)[n]
      ensures forall n :: n in old(files) && n !in files ==>
                Owned(image, n) && !OwnerAlive(image, n, alive) && removes(n)
      ensures budget > 0 ==> forall n :: n in files && Owned(image, n) && !OwnerAlive(image, n, alive) ==> !removes(n)
    {
      hide ParseTemp, InFilter, OwnerAlive;
      var i := 0;
      while i < |candidates|
        invariant i <= |candidates| && budget <= old(budget) <= budget + i
        invariant forall n :: n in files ==> n in old(files) && files[n] == old(files)[n]
        invariant forall n :: n in old(files) && n !in files ==>
                    Owned(image, n) && !OwnerAlive(image, n, alive) && removes(n)
        invariant budget > 0 ==> forall j :: 0 <= j < i ==>
                    candidates[j] in files && Owned(image, candidates[j]) && !OwnerAlive(image, candidates[j], alive) ==>
                      !removes(candidates[j])
      {
        var candidate := candidates[i];
        if Owned(image, candidate) && !OwnerAlive(image, candidate, alive) {
          Remove(candidate, removes(candidate));
        }
        i := i + 1;
      }
      forall n | budget > 0 && n in files && Owned(image, n) && !OwnerAlive(image, n, alive)
        ensures !removes(n)
      {
        OwnedIsListed(image, n);
        assert n in candidates;
      }
    }

    /** The first half of a recovery. */
    method RestoreTarget(alive: set<nat>, renames: string -> bool)
      modifies this`files, this`budget
      ensures budget <= old(budget) <= budget + |old(files)| && |files| == |old(files)|
      ensures image in old(files) || image !in files ==> files == old(files)
      ensures image !in old(files) && image in files ==>
                exists n :: NewestEligible(image, old(files), n, alive, renames) && files == MovedTo(old(files), n, image)
      ensures budget > 0 && image !in files ==> NoneEligible(image, files, alive, renames)
      ensures old(Valid()) && NewestFirst(old(files), alive, renames) ==> Valid()
      ensures old(Valid()) && !NewestFirst(old(files), alive, renames) && image in files ==> files[image].stamp != current
    {
      hide ParseTemp, InFilter, LooksLikeBackup, OwnerAlive, Survives, HasMark, IsBackup;
      var candidates := Listing();
      ListedCount(image, files, candidates);
      if image !in files {
        RestoreBackup(alive, renames, candidates);
        RestoredCount(image, old(files), files, alive, renames);
        if old(Valid()) {
          RestoredSurvives(image, old(files), files, current, alive, renames);
        }
      }
    }

    /** The second half, once there is a target. */
    method CleanUp(alive: set<nat>, removes: string -> bool)
      requires image in files
      modifies this`files, this`budget
      ensures budget <= old(budget) <= budget + |old(files)|
      ensures forall n :: n in files ==> n in old(files) && files[n] == old(files)[n]
      ensures forall n :: n in old(files) && (!Owned(image, n) || OwnerAlive(image, n, alive)) ==> n in files
      ensures budget > 0 ==> forall n :: n in files && Owned(image, n) && !OwnerAlive(image, n, alive) ==> !removes(n)
      ensures image in files && (old(Valid()) ==> Valid() && files[image] == Image(true, current))
      ensures files[image].stamp != current ==> !Valid()
    {
      hide ParseTemp, InFilter, OwnerAlive, Survives, HasMark, IsBackup;
      TargetIsNotOwned(image);
      var candidates := Listing();
      ListedCount(image, files, candidates);
      RemoveDeadTemps(alive, removes, candidates);
      if Survives(image, old(files), current) {
        SurvivesCleaning(image, old(files), files, current);
      }
      if Survives(image, files, current) {
        TargetIsCurrent(image, files, current);
      }
    }

    /** The two halves of a recovery. */
    method RestoreAndClean(alive: set<nat>, renames: string -> bool, removes: string -> bool)
      modifies this`files, this`budget
      ensures budget <= old(budget) <= budget + 2 * |old(files)|
      ensures image in old(files) ==> image in files && files[image] == old(files)[image]
      ensures image !in old(files) && image in files ==>
                exists n :: NewestEligible(image, old(files), n, alive, renames) && files[image] == old(files)[n] && n !in files
      ensures budget > 0 && image !in files ==> files == old(files) && NoneEligible(image, files, alive, renames)
      ensures budget > 0 && image in files ==>
                forall n :: n in files && Owned(image, n) && !OwnerAlive(image, n, alive) ==> !removes(n)
      ensures forall n :: n in old(files) && (!Owned(image, n) || OwnerAlive(image, n, alive)) ==>
                n in files && files[n] == old(files)[n]
      ensures old(Valid()) && NewestFirst(old(files), alive, renames) ==> Valid()
      ensures old(Valid()) && Settled(image, old(files), alive, renames) ==>
                Valid() && (budget > 0 ==> image in files && files[image] == Image(true, current))
      ensures old(Valid()) && !NewestFirst(old(files), alive, renames) && budget > 0 ==> !Valid()
    {
      hide ParseTemp, InFilter, LooksLikeBackup, OwnerAlive, Survives, HasMark, IsBackup, Settled;
      TargetIsNotOwned(image);
      if image !in files && old(Valid()) && Settled(image, files, alive, renames) {
        SettledRecovers(image, files, current, alive, renames);
      }
      RestoreTarget(alive, renames);
      if image !in files {
        return;
      }
      CleanUp(alive, removes);
    }

    /** What a worker does first. A complete recovery brings back the newest eligible file if there is
        no target, removes every temporary of a dead worker once there is one, and touches nothing
        else; an interrupted one does part of it. */
    method Recover(alive: set<nat>, renames: string -> bool, removes: string -> bool)
      modifies this`files, this`budget
      ensures budget <= old(budget) <= budget + 2 * |old(files)|
      ensures image in old(files) ==> image in files && files[image] == old(files)[image]
      ensures image !in old(files) && image in files ==>
                exists n :: NewestEligible(image, old(files), n, alive, renames) && files[image] == old(files)[n] && n !in files
      ensures budget > 0 && image !in files ==> files == old(files) && NoneEligible(image, files, alive, renames)
      ensures budget > 0 && image in files ==>
                forall n :: n in files && Owned(image, n) && !OwnerAlive(image, n, alive) ==> !removes(n)
      ensures forall n :: n in old(files) && (!Owned(image, n) || OwnerAlive(image, n, alive)) ==>
                n in files && files[n] == old(files)[n]
      ensures forall operation, pid: nat, id {:trigger TempName(image, operation, Decimal(pid), id)} ::
                (&& operation != [] && Letters(operation) && id != [] && Hex(id)
                 && 0 < pid <= 0xffff_ffff && pid in alive && TempName(image, operation, Decimal(pid), id) in old(files)) ==>
                  var name := TempName(image, operation, Decimal(pid), id);
                  name in files && files[name] == old(files)[name]
      ensures budget > 0 && image in files ==>
                forall operation, pid: nat, id {:trigger TempName(image, operation, Decimal(pid), id)} ::
                  (&& operation != [] && Letters(operation) && id != [] && Hex(id)
                   && !(0 < pid <= 0xffff_ffff && pid in alive) && removes(TempName(image, operation, Decimal(pid), id))) ==>
                    TempName(image, operation, Decimal(pid), id) !in files
      ensures budget > 0 && image !in old(files) ==>
                forall pid: nat, id {:trigger TempName(image, "backup", Decimal(pid), id)} ::
                  (&& id != [] && Hex(id) && TempName(image, "backup", Decimal(pid), id) in old(files)
                   && !(0 < pid <= 0xffff_ffff && pid in alive) && renames(TempName(image, "backup", Decimal(pid), id))) ==>
                    image in files && files[image].stamp >= old(files)[TempName(image, "backup", Decimal(pid), id)].stamp
      ensures old(Valid()) && NewestFirst(old(files), alive, renames) ==> Valid()
      ensures old(Valid()) && Settled(image, old(files), alive, renames) ==>
                Valid() && (budget > 0 ==> image in files && files[image] == Image(true, current))
      ensures old(Valid()) && !NewestFirst(old(files), alive, renames) && budget > 0 ==> !Valid()
    {
      hide ParseTemp, InFilter, LooksLikeBackup, OwnerAlive, Survives, HasMark, IsBackup, Settled, TempName, Decimal, Owned;
      RestoreAndClean(alive, renames, removes);
      forall operation, pid: nat, id | operation != [] && Letters(operation) && id != [] && Hex(id)
        ensures Owned(image, TempName(image, operation, Decimal(pid), id))
        ensures OwnerAlive(image, TempName(image, operation, Decimal(pid), id), alive) <==> 0 < pid <= 0xffff_ffff && pid in alive
      {
        MakerAlive(image, operation, pid, id, alive);
      }
      if budget > 0 && image !in old(files) {
        forall pid: nat, id | && id != [] && Hex(id) && TempName(image, "backup", Decimal(pid), id) in old(files)
                              && !(0 < pid <= 0xffff_ffff && pid in alive) && renames(TempName(image, "backup", Decimal(pid), id))
          ensures image in files && files[image].stamp >= old(files)[TempName(image, "backup", Decimal(pid), id)].stamp
        {
          BackupIsEligible(image, old(files), alive, renames, pid, id);
        }
      }
    }

    /** The condition under which recovery never goes back: there is a target, or nothing can be
        restored, or the newest backup can. */
    ghost predicate NewestFirst(files: Directory, alive: set<nat>, renames: string -> bool)
      reads this
    {
      || image in files
      || NoneEligible(image, files, alive, renames)
      || exists n :: Eligible(image, files, n, alive, renames) && files[n].stamp == current
    }

    // Committing

    ghost predicate NoneLater(stamp: nat)
      reads this
    {
      forall n :: n in files ==> files[n].stamp <= stamp
    }

    /** `ReplaceFileW`: two moves, between which the worker can die and at either of which it can fail. */
    method ReplaceFile(temp: string, backup: string, outcome: Outcome, ghost latest: nat) returns (replaced: bool)
      requires Valid() && temp != backup && backup !in files && IsBackup(image, backup)
      requires !IsBackup(image, temp) && temp != image
      requires budget > 0 ==> temp in files && files[temp].complete && current < files[temp].stamp
      requires NoneLater(latest)
      modifies this
      ensures Valid() && budget <= old(budget) <= budget + 2
      ensures NoneLater(latest)
      ensures replaced ==> old(budget) > 0 && current == old(files)[temp].stamp
      ensures !replaced ==> current == old(current)
      ensures old(budget) == 0 ==> files == old(files)
      ensures replaced ==> image in old(files) && files == MovedTo(MovedTo(old(files), image, backup), temp, image)
      ensures budget > 0 && !replaced && image in old(files) ==>
                files == if outcome == NothingMoved then old(files) else MovedTo(old(files), image, backup)
      ensures budget > 0 ==> (replaced <==> image in old(files) && outcome == Replaced)
      ensures image !in old(files) ==> files == old(files)
    {
      hide IsBackup, Survives, HasMark;
      if image !in files || outcome == NothingMoved {
        return false;
      }
      var moved := Move(image, backup, true);
      if !moved {
        return false;
      }
      SurvivesAsBackup(image, old(files), backup, current);
      if outcome == OnlyTargetMoved {
        return false;
      }
      ghost var halfway := files;
      replaced := Move(temp, image, true);
      if replaced {
        current := halfway[temp].stamp;
        SurvivesAsNew(image, halfway, temp, old(current), current);
      }
    }

    /** The replacement of the target by a complete new image. Wherever it stops, the old or the new
        image survives; when it returns to a living worker, success means the new one is the target
        and failure that the old one counts. */
    method ReplaceTargetWithTemp(temp: string, backup: string, world: World, ghost latest: nat) returns (ok: bool)
      requires Valid() && temp != backup && backup !in files && IsBackup(image, backup)
      requires !IsBackup(image, temp) && temp != image
      requires budget > 0 ==> temp in files && files[temp].complete && current < files[temp].stamp
      requires NoneLater(latest)
      modifies this
      ensures Valid() && budget <= old(budget) <= budget + 4
      ensures NoneLater(latest)
      ensures ok ==> old(budget) > 0 && current == old(files)[temp].stamp && image in files
      ensures !ok ==> current == old(current)
      ensures budget > 0 ==> (ok <==> image in old(files) && world.replace == Replaced)
      ensures budget > 0 && ok ==>
                files == (old(files) - {temp})[image := old(files)[temp]] + (
                  if world.removesBackup then map[] else map[backup := old(files)[image]])
      ensures budget > 0 && !ok && image in old(files) ==>
                files == (if world.replace == NothingMoved then old(files) else MovedTo(old(files), image, backup)) - (
                  if world.removesTemp then {temp} else {})
    {
      hide Survives, HasMark, IsBackup, Owned;
      TargetIsNotOwned(image);
      Remove(backup, true);
      assert files == old(files);
      ok := ReplaceFile(temp, backup, world.replace, latest);
      ghost var moved := files;
      if !ok {
        Remove(temp, world.removesTemp);
        if temp !in files {
          SurvivesWithout(image, moved, temp, current);
        }
        return;
      }
      Remove(backup, world.removesBackup);
      if backup !in files {
        SurvivesWithout(image, moved, backup, current);
      }
    }

    /** One mutation of the image: a new image is written beside it and takes its place. The new image is
        what counts as soon as it has become the target; the mutation is reported as successful only if
        the target can then be opened again. A mutation that fails before that leaves the old image as
        what counts. */
    method Commit(operation: string, pid: nat, tempId: string, backupId: string, stamp: nat, world: World)
      returns (reported: bool)
      requires Valid() && forall n :: n in files ==> files[n].stamp < stamp
      requires operation != [] && Letters(operation) && operation != BACKUP
      requires tempId != [] && Hex(tempId) && backupId != [] && Hex(backupId)
      requires TempName(image, operation, Decimal(pid), tempId) !in files
      requires TempName(image, BACKUP, Decimal(pid), backupId) !in files
      modifies this
      ensures Valid() && budget <= old(budget) <= budget + 6
      ensures NoneLater(stamp) && old(current) < stamp
      ensures current == old(current) || current == stamp
      ensures reported ==> budget > 0 && current == stamp && image in files
      ensures var replaced := image in old(files) && world.writerOk && world.replace == Replaced;
              budget > 0 ==> (current == stamp <==> replaced) && (reported <==> replaced && world.reloads)
      ensures var backup := TempName(image, BACKUP, Decimal(pid), backupId);
              budget > 0 && image in old(files) && world.writerOk ==>
                && (world.replace == Replaced ==>
                      files == old(files)[image := Image(true, stamp)] + (
                        if world.removesBackup then map[] else map[backup := old(files)[image]]))
                && (world.replace == OnlyTargetMoved && world.removesTemp ==>
                      files == MovedTo(old(files), image, backup))
    {
      hide Survives, HasMark, ParseTemp, TempName;
      var temp := TempName(image, operation, Decimal(pid), tempId);
      var backup := TempName(image, BACKUP, Decimal(pid), backupId);
      TempNameParses(image, operation, pid, tempId);
      TempNameParses(image, BACKUP, pid, backupId);
      TargetIsNotOwned(image);
      CurrentIsOld(image, files, current, stamp);
      Store(temp, Image(false, stamp));
      SurvivesWithTemp(image, old(files), temp, Image(false, stamp), current);
      if image !in files || !world.writerOk {
        ghost var before := files;
        Remove(temp, world.removesTemp);
        SurvivesWithout(image, before, temp, current);
        return false;
      }
      ghost var before := files;
      Store(temp, Image(true, stamp));
      SurvivesWithTemp(image, before, temp, Image(true, stamp), current);
      var ok := ReplaceTargetWithTemp(temp, backup, world, stamp);
      DirectoryAfter(old(files), image, temp, backup, Image(true, stamp));
      return ok && budget > 0 && world.reloads;
    }

    // Any number of workers

    /** The next worker begins. It runs only once no other worker of the image, and no process under a dead
        worker's number, is alive; renaming works. */
    method Restart(event: Event, pid: nat, ghost reported: nat) returns (next: nat)
      requires Valid() && event.Start?
      modifies this`files, this`budget
      ensures Valid() && Follows(image, old(Now(pid, reported)), event, Now(next, reported))
    {
      hide Survives, HasMark, ParseTemp, TempName, Settled, OwnerAlive, IsBackup;
      SettledIff(image, files, event.alive, event.renames);
      if !Settled(image, files, event.alive, event.renames) {
        return pid;
      }
      next, budget := event.pid, event.operations;
      Recover(event.alive, event.renames, event.removes);
    }

    /** A mutation, if there is a worker and its names are new. */
    method Change(event: Event, pid: nat, clock: nat, ghost reported: nat, ghost lost: set<nat>)
      returns (later: nat, ghost reported': nat, ghost lost': set<nat>)
      requires Valid() && event.Mutate? && reported <= clock
      requires (current == reported || current in lost) && forall stamp :: stamp in lost ==> reported < stamp
      modifies this
      ensures Valid() && Follows(image, old(Now(pid, reported)), event, Now(pid, reported')) && reported' <= later
      ensures (current == reported' || current in lost') && forall stamp :: stamp in lost' ==> reported' < stamp
    {
      hide Survives, HasMark, ParseTemp, TempName, OwnerAlive, IsBackup, Letters, Hex;
      later, reported', lost' := clock, reported, lost;
      if budget > 0 && Fresh(image, files, event.operation, pid, event.tempId, event.backupId) {
        var latest := Latest(files);
        later := Max(clock, latest) + 1 + event.delay;
        var ok := Commit(event.operation, pid, event.tempId, event.backupId, later, event.world);
        if ok {
          reported', lost' := later, {};
        } else if budget == 0 || current == later {
          lost' := lost + {later};
        }
      }
    }

    /** What can happen to the image. The names' unique parts, the operations and the processes that are
        alive come from the world; so does the moment the worker dies. What counts is the last image that
        was reported, or one that became the target without being reported, because its worker died or
        could not open it again; it never goes back. After every restart that is not interrupted it is
        the target, and what can be removed of dead workers' temporaries is gone. */
    method Live(events: seq<Event>) returns (ghost reported: nat, ghost lost: set<nat>, ghost history: seq<Moment>)
      requires Valid()
      modifies this
      ensures Valid()
      ensures current == reported || current in lost
      ensures forall stamp :: stamp in lost ==> reported < stamp
      ensures |history| == |events| + 1 && history[0] == old(Now(0, current))
      ensures exists pid: nat :: history[|events|] == Now(pid, reported)
      ensures forall k {:trigger events[k]} :: 0 <= k < |events| ==> Follows(image, history[k], events[k], history[k + 1])
      ensures forall m :: m in history ==>
                if image in m.files then m.files[image] == Image(true, m.current)
                else exists n :: n in m.files && IsBackup(image, n) && m.files[n] == Image(true, m.current)
    {
      hide Survives, HasMark, ParseTemp, OwnerAlive, IsBackup, Follows;
      SurvivesMeans(image, files, current);
      var clock := Latest(files);
      CurrentIsOld(image, files, current, clock + 1);
      var pid := 0;
      reported, lost, history := current, {}, [Now(0, current)];
      var k := 0;
      while k < |events|
        invariant k <= |events| && Valid()
        invariant current == reported || current in lost
        invariant forall stamp :: stamp in lost ==> reported < stamp
        invariant reported <= clock
        invariant |history| == k + 1 && history[0] == old(Now(0, current)) && history[k] == Now(pid, reported)
        invariant forall i {:trigger events[i]} :: 0 <= i < k ==> Follows(image, history[i], events[i], history[i + 1])
        invariant forall m :: m in history ==> Counts(image, m)
      {
        if events[k].Start? {
          pid := Restart(events[k], pid, reported);
        } else {
          clock, reported, lost := Change(events[k], pid, clock, reported, lost);
        }
        SurvivesMeans(image, files, current);
        history := history + [Now(pid, reported)];
        k := k + 1;
      }
    }

    ghost function Now(pid: nat, reported: nat): Moment
      reads this
    {
      Moment(files, current, budget, pid, reported)
    }
  }

  /** The directory between two events, what counts, how long the worker still lives, its number, and
      the last image that was reported. */
  datatype Moment = Moment(files: Directory, current: nat, budget: nat, pid: nat, reported: nat)

  /** What counts is there: it is the target or, while there is no target, a complete backup. */
  ghost predicate Counts(image: string, m: Moment) {
    if image in m.files then m.files[image] == Image(true, m.current)
    else exists n :: n in m.files && IsBackup(image, n) && m.files[n] == Image(true, m.current)
  }

  lemma SurvivesMeans(image: string, files: Directory, current: nat)
    requires Survives(image, files, current)
    ensures forall budget: nat, pid: nat, reported: nat :: Counts(image, Moment(files, current, budget, pid, reported))
  {
    hide IsBackup;
    if image !in files {
      var n :| n in files && IsBackup(image, n) && files[n].stamp == current;
      assert files[n] == Image(true, current);
    }
  }

  ghost predicate Follows(image: string, before: Moment, event: Event, after: Moment) {
    && before.current <= after.current
    && match event
       case Mutate(operation, tempId, backupId, _, world) =>
         if && before.budget > 0 && operation != [] && Letters(operation) && operation != "backup"
            && tempId != [] && Hex(tempId) && backupId != [] && Hex(backupId)
            && TempName(image, operation, Decimal(before.pid), tempId) !in before.files
            && TempName(image, "backup", Decimal(before.pid), backupId) !in before.files then
           var replaced := image in before.files && world.writerOk && world.replace == Replaced;
           && after.pid == before.pid && (after.budget == 0 ==> after.reported == before.reported)
           && (after.budget > 0 ==>
                 && (replaced <==> before.current < after.current)
                 && after.reported == if replaced && world.reloads then after.current else before.reported)
         else after == before
       case Start(pid, alive, renames, removes, _) =>
         var settled := forall n :: n in before.files ==> !OwnerAlive(image, n, alive) && (IsBackup(image, n) ==> renames(n));
         && after.current == before.current && after.reported == before.reported
         && (if settled then after.pid == pid else after == before)
         && (settled && after.budget > 0 ==>
               && image in after.files && after.files[image] == Image(true, after.current)
               && forall n :: n in after.files && Owned(image, n) && !OwnerAlive(image, n, alive) ==> !removes(n))
  }

  datatype Event =
    | Start(pid: nat, alive: set<nat>, renames: string -> bool, removes: string -> bool, operations: nat)
    | Mutate(operation: string, tempId: string, backupId: string, delay: nat, world: World)

  predicate Fresh(image: string, files: Directory, operation: string, pid: nat, tempId: string, backupId: string) {
    && operation != [] && Letters(operation) && operation != BACKUP
    && tempId != [] && Hex(tempId) && backupId != [] && Hex(backupId)
    && TempName(image, operation, Decimal(pid), tempId) !in files
    && TempName(image, BACKUP, Decimal(pid), backupId) !in files
  }

  /** The makers of all temporaries are dead, and backups can be renamed. */
  predicate Settled(image: string, files: Directory, alive: set<nat>, renames: string -> bool) {
    forall n :: n in files ==> !OwnerAlive(image, n, alive) && (IsBackup(image, n) ==> renames(n))
  }

  lemma SettledIff(image: string, files: Directory, alive: set<nat>, renames: string -> bool)
    ensures Settled(image, files, alive, renames) <==>
            forall n :: n in files ==> !OwnerAlive(image, n, alive) && (IsBackup(image, n) ==> renames(n))
  {
  }

  lemma SettledRecovers(image: string, files: Directory, current: nat, alive: set<nat>, renames: string -> bool)
    requires !HasMark(image) && Survives(image, files, current) && Settled(image, files, alive, renames)
    requires image !in files
    ensures exists n :: Eligible(image, files, n, alive, renames) && files[n].stamp == current
  {
    hide ParseTemp, LooksLikeBackup, OwnerAlive;
    var n :| n in files && IsBackup(image, n) && files[n].stamp == current;
    BackupTest(image, n);
    assert Eligible(image, files, n, alive, renames);
  }

  method Latest(files: Directory) returns (latest: nat)
    ensures forall n :: n in files ==> files[n].stamp <= latest
  {
    latest := 0;
    var rest := files.Keys;
    while rest != {}
      invariant rest <= files.Keys
      invariant forall n :: n in files && n !in rest ==> files[n].stamp <= latest
      decreases rest
    {
      var n :| n in rest;
      latest := if files[n].stamp > latest then files[n].stamp else latest;
      rest := rest - {n};
    }
  }

  // What can go wrong

  /** A mutation that the caller is told has failed, although its image is what counts from then on. */
  method ReportedAsFailed(image: string) returns (store: ImageStore, reported: bool)
    requires !HasMark(image)
    ensures store.Valid() && !reported && store.budget > 0
    ensures store.files == map[image := Image(true, 1)] && store.current == 1
  {
    hide TempName, ParseTemp, HasMark, Survives;
    store := new ImageStore(image, 0);
    store.budget := 7;
    TempsAreOwned(image);
    reported := store.Commit("write", 1, "a", "b", 1, World(true, Replaced, true, true, false));
  }

  /** Two mutations that leave no target and two backups. The first is reported and its backup stays;
      the second moves the target away and no further. */
  method LeavesTwoBackups(image: string) returns (store: ImageStore, reported: bool)
    requires !HasMark(image)
    ensures fresh(store) && store.image == image && store.Valid() && reported && store.current == 1 && store.budget > 4
    ensures store.files == map[TempName(image, BACKUP, Decimal(1), "b") := Image(true, 0),
                               TempName(image, BACKUP, Decimal(1), "d") := Image(true, 1)]
  {
    hide TempName, ParseTemp, HasMark, Survives;
    store := new ImageStore(image, 0);
    store.budget := 20;
    var older, newer := TempName(image, BACKUP, Decimal(1), "b"), TempName(image, BACKUP, Decimal(1), "d");
    TempsAreOwned(image);
    reported := store.Commit("write", 1, "a", "b", 1, World(true, Replaced, true, false, true));
    assert store.files == map[image := Image(true, 1), older := Image(true, 0)];
    var second := store.Commit("write", 1, "c", "d", 2, World(true, OnlyTargetMoved, true, true, true));
    assert store.files == map[older := Image(true, 0), newer := Image(true, 1)];
  }

  lemma TempsAreOwned(image: string)
    ensures var older, newer := TempName(image, BACKUP, Decimal(1), "b"), TempName(image, BACKUP, Decimal(1), "d");
            var a, c := TempName(image, "write", Decimal(1), "a"), TempName(image, "write", Decimal(1), "c");
            && older != newer && older != c && image !in {older, newer, a, c}
            && IsBackup(image, older) && IsBackup(image, newer)
  {
    hide TempName, ParseTemp;
    TempNameParses(image, "write", 1, "a");
    TempNameParses(image, BACKUP, 1, "b");
    TempNameParses(image, "write", 1, "c");
    TempNameParses(image, BACKUP, 1, "d");
    TargetIsNotOwned(image);
  }

  /** A recovery that goes back. When of those two backups only the older one can be renamed, the older
      image becomes the target, and the one that was reported is removed. */
  method GoesBack(image: string) returns (store: ImageStore, reported: bool)
    requires !HasMark(image)
    ensures store.image == image && reported && store.current == 1 && !store.Valid()
    ensures image in store.files && store.files[image] == Image(true, 0)
    ensures TempName(image, BACKUP, Decimal(1), "d") !in store.files
  {
    hide TempName, ParseTemp, HasMark, LooksLikeBackup, Survives;
    store, reported := LeavesTwoBackups(image);
    var older, newer := TempName(image, BACKUP, Decimal(1), "b"), TempName(image, BACKUP, Decimal(1), "d");
    TempsAreOwned(image);
    var renames := n => n == older;
    ghost var before := store.files;
    BackupTest(image, older);
    assert Eligible(image, before, older, {}, renames);
    assert |before| == |before.Keys| && before.Keys == {older, newer};
    store.Recover({}, renames, n => true);
    assert Owned(image, newer) && !OwnerAlive(image, newer, {});
    if Survives(image, store.files, 1) {
      TargetIsCurrent(image, store.files, 1);
    }
  }
}
