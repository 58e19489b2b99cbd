/** The mount list of the service (src/service/apfs_mount_service.cpp): removing several spellings of
    one region, and adding what a scan has found. */
module MountAliases {
  import opened Common
  import opened DriveLetters
  import opened Text
  import opened RawTargets

  // Canonical targets

  predicate IsAliasOf(target: string, volume: Volume) {
    volume.partition != 0 && volume.offset == 0 && Lower(target) == Lower(PhysicalDrivePath(volume.disk))
  }

  /** The partition that a whole-disk target stands for, if one starts where the disk starts. */
  function AliasOf(volumes: seq<Volume>, target: string): (r: Option<string>)
    ensures r == None <==> forall v :: v in volumes ==> !IsAliasOf(target, v)
  {
    if volumes == [] then None
    else if IsAliasOf(target, volumes[0]) then Some(volumes[0].target)
    else AliasOf(volumes[1..], target)
  }

  function ListedAs(volumes: seq<Volume>, target: string): (r: Option<string>)
    ensures r.Some? ==> Lower(r.value) == Lower(target)
  {
    if volumes == [] then None
    else if Lower(target) == Lower(volumes[0].target) then Some(volumes[0].target)
    else ListedAs(volumes[1..], target)
  }

  function CanonicalTarget(volumes: seq<Volume>, target: string): string {
    match AliasOf(volumes, target)
    case Some(partition) => partition
    case None => match ListedAs(volumes, target) case Some(spelling) => spelling case None => target
  }

  lemma {:induction false} AliasSource(volumes: seq<Volume>, target: string) returns (volume: Volume)
    requires AliasOf(volumes, target).Some?
    ensures volume in volumes && IsAliasOf(target, volume) && AliasOf(volumes, target) == Some(volume.target)
  {
    hide IsAliasOf;
    if IsAliasOf(target, volumes[0]) {
      return volumes[0];
    }
    volume := AliasSource(volumes[1..], target);
  }

  /** The canonical target names the same region. */
  lemma CanonicalKeepsRegion(layout: Layout, volumes: seq<Volume>, target: string)
    requires ScanOf(layout, volumes)
    ensures RegionOf(layout, CanonicalTarget(volumes, target)) == RegionOf(layout, target)
  {
    hide ParseRawTarget, Lower, PartitionDevicePath, PhysicalDrivePath;
    if AliasOf(volumes, target).Some? {
      var v := AliasSource(volumes, target);
      DriveParses(v.disk);
      PartitionParses(v.disk, v.partition);
      SpellingsAgree(layout, target, PhysicalDrivePath(v.disk));
    } else {
      SpellingsAgree(layout, target, CanonicalTarget(volumes, target));
    }
  }

  /** A canonical target is not an alias of anything. */
  lemma CanonicalIsNoAlias(layout: Layout, volumes: seq<Volume>, target: string)
    requires ScanOf(layout, volumes)
    ensures AliasOf(volumes, CanonicalTarget(volumes, target)) == None
  {
    hide Lower, PartitionDevicePath, PhysicalDrivePath;
    var canonical := CanonicalTarget(volumes, target);
    if AliasOf(volumes, target).Some? {
      var v := AliasSource(volumes, target);
      forall u | u in volumes
        ensures !IsAliasOf(canonical, u)
      {
        PathsDiffer(u.disk, v.disk, v.partition);
      }
    }
  }

  /** The same searches as the source's loops. */
  method CanonicalDiscoveredTarget(target: string, volumes: seq<Volume>) returns (canonical: string, wasAlias: bool)
    ensures canonical == CanonicalTarget(volumes, target)
    ensures wasAlias == AliasOf(volumes, target).Some?
  {
    hide Lower, PhysicalDrivePath;
    var i := 0;
    while i < |volumes|
      invariant i <= |volumes| && AliasOf(volumes, target) == AliasOf(volumes[i..], target)
    {
      if IsAliasOf(target, volumes[i]) {
        return volumes[i].target, true;
      }
      i := i + 1;
    }
    i := 0;
    while i < |volumes|
      invariant i <= |volumes| && ListedAs(volumes, target) == ListedAs(volumes[i..], target)
    {
      if Lower(target) == Lower(volumes[i].target) {
        return volumes[i].target, false;
      }
      i := i + 1;
    }
    return target, false;
  }

  // One entry for each region

  function Candidate(volumes: seq<Volume>, mount: MountConfig): MountConfig {
    mount.(target := CanonicalTarget(volumes, mount.target))
  }

  /** Written as a partition by the user, rather than as the disk it starts. */
  predicate Exact(volumes: seq<Volume>, mount: MountConfig) {
    && AliasOf(volumes, mount.target) == None
    && ParseRawTarget(mount.target).Some? && ParseRawTarget(mount.target).value.partition != 0
  }

  ghost predicate DistinctRegions(layout: Layout, mounts: seq<MountConfig>) {
    forall i, j :: 0 <= i < j < |mounts| ==> RegionOf(layout, mounts[i].target) != RegionOf(layout, mounts[j].target)
  }

  /** Nothing is left to canonicalize. */
  ghost predicate Settled(layout: Layout, volumes: seq<Volume>, mounts: seq<MountConfig>) {
    && DistinctRegions(layout, mounts)
    && forall i :: 0 <= i < |mounts| ==> AliasOf(volumes, mounts[i].target) == None
  }

  /** How one entry was chosen for each region: entry j stands for the region that appears first at
      `first[j]`, and is taken from `chosen[j]`; `slot[i]` is where the region of input i went. */
  datatype Choice = Choice(first: seq<nat>, chosen: seq<nat>, slot: seq<nat>)

  ghost predicate Increasing(regions: seq<Region>, first: seq<nat>) {
    && (forall j {:trigger first[j]} :: 0 <= j < |first| ==> 0 <= first[j] < |regions|)
    && (forall j, k :: 0 <= j < k < |first| ==> first[j] < first[k] && regions[first[j]] != regions[first[k]])
  }

  ghost predicate Slotted(regions: seq<Region>, first: seq<nat>, slot: seq<nat>) {
    && |slot| == |regions|
    && (forall j {:trigger first[j]} :: 0 <= j < |first| ==> 0 <= first[j] < |slot| && slot[first[j]] == j)
    && (forall i {:trigger slot[i]} :: 0 <= i < |slot| ==>
          0 <= slot[i] < |first| && 0 <= first[slot[i]] <= i && regions[i] == regions[first[slot[i]]])
  }

  ghost predicate InOrder(regions: seq<Region>, c: Choice) {
    |c.first| == |c.chosen| && Increasing(regions, c.first) && Slotted(regions, c.first, c.slot)
  }

  ghost predicate NoneExact(exacts: seq<bool>, slot: seq<nat>, j: nat, n: nat)
    requires n <= |exacts| && n <= |slot|
  {
    forall i :: 0 <= i < n && slot[i] == j ==> !exacts[i]
  }

  /** The first exact entry of the region if it has one, else its first entry. */
  ghost predicate Best(exacts: seq<bool>, c: Choice)
    requires |c.slot| == |exacts| && |c.first| == |c.chosen|
  {
    forall j {:trigger c.chosen[j]} :: 0 <= j < |c.chosen| ==>
      && c.chosen[j] < |exacts| && c.slot[c.chosen[j]] == j
      && (exacts[c.chosen[j]] ==> NoneExact(exacts, c.slot, j, c.chosen[j]))
      && (!exacts[c.chosen[j]] ==> c.chosen[j] == c.first[j] && NoneExact(exacts, c.slot, j, |exacts|))
  }

  ghost predicate Chosen(regions: seq<Region>, exacts: seq<bool>, c: Choice) {
    |exacts| == |regions| && InOrder(regions, c) && Best(exacts, c)
  }

  lemma {:induction false} FirstsAgree(regions: seq<Region>, c: Choice, c': Choice, j: nat)
    requires InOrder(regions, c) && InOrder(regions, c') && j <= |c.first|
    ensures j <= |c'.first| && c.first[..j] == c'.first[..j]
  {
    if j > 0 {
      var n := j - 1;
      FirstsAgree(regions, c, c', n);
      assert forall k :: 0 <= k < n ==> c.first[k] == c.first[..n][k] == c'.first[k];
      AfterFirsts(regions, c, c', n);
      AfterFirsts(regions, c', c, n);
    }
  }

  lemma AfterFirsts(regions: seq<Region>, c: Choice, c': Choice, n: nat)
    requires InOrder(regions, c) && InOrder(regions, c') && n < |c.first|
    requires forall k :: 0 <= k < n ==> k < |c'.first| && c.first[k] == c'.first[k]
    ensures n < |c'.first| && c'.first[n] <= c.first[n]
  {
    var a := c.first[n];
    var k := c'.slot[a];
    assert regions[c'.first[k]] == regions[a];
    assert n < k ==> c'.first[n] < c'.first[k];
  }

  /** The choice is determined by the regions and by which entries are exact. */
  lemma ChoiceIsUnique(regions: seq<Region>, exacts: seq<bool>, c: Choice, c': Choice)
    requires Chosen(regions, exacts, c) && Chosen(regions, exacts, c')
    ensures c == c'
  {
    FirstsAgree(regions, c, c', |c.first|);
    FirstsAgree(regions, c', c, |c'.first|);
    assert c.first == c.first[..|c.first|] && c'.first == c'.first[..|c'.first|];
    SlotsAgree(regions, c, c');
    forall j | 0 <= j < |c.chosen|
      ensures c.chosen[j] == c'.chosen[j]
    {
      assert c'.chosen[j] < |exacts|;
    }
  }

  lemma SlotsAgree(regions: seq<Region>, c: Choice, c': Choice)
    requires InOrder(regions, c) && InOrder(regions, c') && c.first == c'.first
    ensures c.slot == c'.slot
  {
    forall i | 0 <= i < |regions|
      ensures c.slot[i] == c'.slot[i]
    {
      assert regions[c.first[c.slot[i]]] == regions[c.first[c'.slot[i]]];
    }
  }

  lemma NoneExactBefore(exacts: seq<bool>, slot: seq<nat>, exact: bool, at: nat, j: nat, n: nat)
    requires n <= |exacts| == |slot| && NoneExact(exacts, slot, j, n)
    ensures NoneExact(exacts + [exact], slot + [at], j, n)
    ensures n == |exacts| && (at != j || !exact) ==> NoneExact(exacts + [exact], slot + [at], j, n + 1)
  {
  }

  lemma ChosenInRange(regions: seq<Region>, exacts: seq<bool>, c: Choice)
    requires Chosen(regions, exacts, c)
    ensures |c.first| == |c.chosen| && |c.slot| == |regions|
    ensures forall j :: 0 <= j < |c.chosen| ==> c.chosen[j] < |regions| && c.first[j] < |regions|
    ensures forall i :: 0 <= i < |c.slot| ==> c.slot[i] < |c.first|
  {
  }

  lemma OrderNew(regions: seq<Region>, c: Choice, region: Region)
    requires InOrder(regions, c) && forall j :: 0 <= j < |c.first| ==> regions[c.first[j]] != region
    ensures InOrder(regions + [region], Choice(c.first + [|regions|], c.chosen + [|regions|], c.slot + [|c.first|]))
  {
    hide Increasing, Slotted;
    IncreasingNew(regions, c.first, region);
    SlottedNew(regions, c.first, c.slot, region);
  }

  lemma IncreasingNew(regions: seq<Region>, first: seq<nat>, region: Region)
    requires Increasing(regions, first) && forall j :: 0 <= j < |first| ==> regions[first[j]] != region
    ensures Increasing(regions + [region], first + [|regions|])
  {
    var first' := first + [|regions|];
    assert forall j :: 0 <= j < |first| ==> first'[j] == first[j];
  }

  lemma SlottedNew(regions: seq<Region>, first: seq<nat>, slot: seq<nat>, region: Region)
    requires Slotted(regions, first, slot)
    ensures Slotted(regions + [region], first + [|regions|], slot + [|first|])
  {
    var first', slot' := first + [|regions|], slot + [|first|];
    assert forall j :: 0 <= j < |first| ==> first'[j] == first[j];
    assert forall i :: 0 <= i < |slot| ==> slot'[i] == slot[i];
  }

  lemma OrderDuplicate(regions: seq<Region>, c: Choice, region: Region, at: nat, chosen: seq<nat>)
    requires InOrder(regions, c) && at < |c.first| && regions[c.first[at]] == region && |chosen| == |c.chosen|
    ensures InOrder(regions + [region], Choice(c.first, chosen, c.slot + [at]))
  {
  }

  /** A region not seen before gets an entry of its own. */
  lemma ChooseNew(regions: seq<Region>, exacts: seq<bool>, c: Choice, region: Region, exact: bool)
    requires Chosen(regions, exacts, c)
    requires forall j :: 0 <= j < |c.first| ==> regions[c.first[j]] != region
    ensures Chosen(regions + [region], exacts + [exact],
                   Choice(c.first + [|regions|], c.chosen + [|regions|], c.slot + [|c.first|]))
  {
    hide NoneExact, InOrder;
    ChosenInRange(regions, exacts, c);
    OrderNew(regions, c, region);
    var n, at := |regions|, |c.first|;
    var c' := Choice(c.first + [n], c.chosen + [n], c.slot + [at]);
    var exacts' := exacts + [exact];
    forall j {:trigger c'.chosen[j]} | 0 <= j < |c'.chosen|
      ensures c'.chosen[j] < |exacts'| && c'.slot[c'.chosen[j]] == j
      ensures exacts'[c'.chosen[j]] ==> NoneExact(exacts', c'.slot, j, c'.chosen[j])
      ensures !exacts'[c'.chosen[j]] ==> c'.chosen[j] == c'.first[j] && NoneExact(exacts', c'.slot, j, |exacts'|)
    {
      if j < at {
        NoneExactAfter(exacts, c, j, exact, at);
      } else {
        NoneOfNew(exacts, c.slot, exact, at);
      }
    }
  }

  lemma NoneExactAfter(exacts: seq<bool>, c: Choice, j: nat, exact: bool, at: nat)
    requires |c.slot| == |exacts| && |c.first| == |c.chosen| && Best(exacts, c) && j < |c.chosen|
    ensures c.chosen[j] < |exacts|
    ensures exacts[c.chosen[j]] ==> NoneExact(exacts + [exact], c.slot + [at], j, c.chosen[j])
    ensures !exacts[c.chosen[j]] ==> NoneExact(exacts + [exact], c.slot + [at], j, |exacts|)
    ensures !exacts[c.chosen[j]] && (at != j || !exact) ==>
              NoneExact(exacts + [exact], c.slot + [at], j, |exacts| + 1)
  {
    if exacts[c.chosen[j]] {
      NoneExactBefore(exacts, c.slot, exact, at, j, c.chosen[j]);
    } else {
      NoneExactBefore(exacts, c.slot, exact, at, j, |exacts|);
    }
  }

  lemma NoneOfNew(exacts: seq<bool>, slot: seq<nat>, exact: bool, at: nat)
    requires |slot| == |exacts| && forall i :: 0 <= i < |slot| ==> slot[i] < at
    ensures NoneExact(exacts + [exact], slot + [at], at, |exacts|)
    ensures !exact ==> NoneExact(exacts + [exact], slot + [at], at, |exacts| + 1)
  {
  }

  /** A region seen before keeps its entry, unless this is its first exact one. */
  lemma ChooseDuplicate(regions: seq<Region>, exacts: seq<bool>, c: Choice, region: Region, exact: bool, at: nat)
    requires Chosen(regions, exacts, c) && at < |c.first| && regions[c.first[at]] == region
    ensures c.chosen[at] < |exacts|
    ensures var better := exact && !exacts[c.chosen[at]];
            Chosen(regions + [region], exacts + [exact],
                   Choice(c.first, if better then c.chosen[at := |regions|] else c.chosen, c.slot + [at]))
  {
    hide NoneExact, InOrder;
    ChosenInRange(regions, exacts, c);
    var better := exact && !exacts[c.chosen[at]];
    var c' := Choice(c.first, if better then c.chosen[at := |regions|] else c.chosen, c.slot + [at]);
    OrderDuplicate(regions, c, region, at, c'.chosen);
    var exacts' := exacts + [exact];
    forall j {:trigger c'.chosen[j]} | 0 <= j < |c'.chosen|
      ensures c'.chosen[j] < |exacts'| && c'.slot[c'.chosen[j]] == j
      ensures exacts'[c'.chosen[j]] ==> NoneExact(exacts', c'.slot, j, c'.chosen[j])
      ensures !exacts'[c'.chosen[j]] ==> c'.chosen[j] == c'.first[j] && NoneExact(exacts', c'.slot, j, |exacts'|)
    {
      NoneExactAfter(exacts, c, j, exact, at);
    }
  }

  // The pass over the mount list

  function Regions(layout: Layout, mounts: seq<MountConfig>): (r: seq<Region>)
    ensures |r| == |mounts|
  {
    seq(|mounts|, i requires 0 <= i < |mounts| => RegionOf(layout, mounts[i].target))
  }

  function Exacts(volumes: seq<Volume>, mounts: seq<MountConfig>): (r: seq<bool>)
    ensures |r| == |mounts|
  {
    seq(|mounts|, i requires 0 <= i < |mounts| => Exact(volumes, mounts[i]))
  }

  /** The result has each region of the input once, under its canonical name. */
  lemma ChosenIsSettled(layout: Layout, volumes: seq<Volume>, mounts: seq<MountConfig>, c: Choice, result: seq<MountConfig>)
    requires ScanOf(layout, volumes) && Chosen(Regions(layout, mounts), Exacts(volumes, mounts), c)
    requires |result| == |c.first|
    requires forall j :: 0 <= j < |result| ==> result[j] == Candidate(volumes, mounts[c.chosen[j]])
    ensures Settled(layout, volumes, result)
    ensures forall i :: 0 <= i < |mounts| ==> RegionOf(layout, mounts[i].target) in Regions(layout, result)
  {
    hide ScanOf, AliasOf, CanonicalTarget, RegionOf, Exact, NoneExact;
    forall j | 0 <= j < |result|
      ensures RegionOf(layout, result[j].target) == RegionOf(layout, mounts[c.first[j]].target)
      ensures AliasOf(volumes, result[j].target) == None
    {
      var i := c.chosen[j];
      assert c.slot[i] == j;
      assert Regions(layout, mounts)[i] == Regions(layout, mounts)[c.first[j]];
      CanonicalKeepsRegion(layout, volumes, mounts[i].target);
      CanonicalIsNoAlias(layout, volumes, mounts[i].target);
    }
    forall j, k | 0 <= j < k < |result|
      ensures RegionOf(layout, result[j].target) != RegionOf(layout, result[k].target)
    {
      assert Regions(layout, mounts)[c.first[j]] != Regions(layout, mounts)[c.first[k]];
    }
    forall i | 0 <= i < |mounts|
      ensures RegionOf(layout, mounts[i].target) in Regions(layout, result)
    {
      var j := c.slot[i];
      assert Regions(layout, mounts)[i] == Regions(layout, mounts)[c.first[j]];
      assert Regions(layout, result)[j] == RegionOf(layout, mounts[i].target);
    }
  }

  lemma SettledHasNoAlias(layout: Layout, volumes: seq<Volume>, mounts: seq<MountConfig>)
    requires Settled(layout, volumes, mounts)
    ensures forall m, v :: m in mounts && v in volumes && v.partition != 0 && v.offset == 0 ==>
              Lower(m.target) != Lower(PhysicalDrivePath(v.disk))
  {
    hide RegionOf, Lower, PhysicalDrivePath, AliasOf;
    forall m, v | m in mounts && v in volumes && v.partition != 0 && v.offset == 0
      ensures Lower(m.target) != Lower(PhysicalDrivePath(v.disk))
    {
      assert AliasOf(volumes, m.target) == None;
      assert !IsAliasOf(m.target, v);
    }
  }

  /** A disk that a partition starts is replaced by the path of such a partition; any other target keeps its
      letters. */
  lemma CanonicalPaths(layout: Layout, volumes: seq<Volume>, target: string, disk: nat)
    requires ScanOf(layout, volumes) && disk <= 0x7fff_ffff
    ensures (exists v :: v in volumes && v.disk == disk && v.partition != 0 && v.offset == 0) ==>
              exists v :: && v in volumes && v.disk == disk && v.partition != 0 && v.offset == 0
                          && CanonicalTarget(volumes, PhysicalDrivePath(disk)) == PartitionDevicePath(disk, v.partition)
    ensures (forall v :: v in volumes && v.partition != 0 && v.offset == 0 ==> Lower(target) != Lower(PhysicalDrivePath(v.disk))) ==>
              Lower(CanonicalTarget(volumes, target)) == Lower(target)
  {
    hide Lower, PhysicalDrivePath, PartitionDevicePath, AliasOf;
    if v :| v in volumes && v.disk == disk && v.partition != 0 && v.offset == 0 {
      assert IsAliasOf(PhysicalDrivePath(disk), v);
      var u := AliasSource(volumes, PhysicalDrivePath(disk));
      DriveParses(disk);
      DriveParses(u.disk);
      SpellingsAgree(layout, PhysicalDrivePath(disk), PhysicalDrivePath(u.disk));
      assert u.disk == disk;
    }
  }

  /** The path of a partition counts as exact, the path of a disk never does. */
  lemma ExactPaths(volumes: seq<Volume>, disk: nat, partition: nat, mount: MountConfig)
    requires disk <= 0x7fff_ffff && 0 < partition <= 0x7fff_ffff
    ensures Exact(volumes, mount.(target := PartitionDevicePath(disk, partition)))
    ensures !Exact(volumes, mount.(target := PhysicalDrivePath(disk)))
  {
    hide Lower, PhysicalDrivePath, PartitionDevicePath, AliasOf, ParseRawTarget;
    DriveParses(disk);
    PartitionParses(disk, partition);
    forall v | v in volumes
      ensures !IsAliasOf(PartitionDevicePath(disk, partition), v)
    {
      PathsDiffer(v.disk, disk, partition);
    }
  }

  /** What the pass makes of a mount list: nothing if nothing is left to do, else one canonical entry
      for each region. */
  ghost predicate CanonicalOf(layout: Layout, volumes: seq<Volume>, mounts: seq<MountConfig>, result: seq<MountConfig>) {
    if Settled(layout, volumes, mounts) then result == mounts
    else exists c :: ChosenFrom(layout, volumes, mounts, c, result)
  }

  ghost predicate ChosenFrom(layout: Layout, volumes: seq<Volume>, mounts: seq<MountConfig>, c: Choice,
                             result: seq<MountConfig>)
  {
    && Chosen(Regions(layout, mounts), Exacts(volumes, mounts), c) && |result| == |c.chosen|
    && forall j :: 0 <= j < |result| ==> result[j] == Candidate(volumes, mounts[c.chosen[j]])
  }

  /** The inner search: an earlier entry for the same region. */
  method FindDuplicate(layout: Layout, volumes: seq<Volume>, target: string, identity: Option<Identity>,
                       normalized: seq<MountConfig>, identities: seq<Option<Identity>>) returns (duplicate: Option<nat>)
    requires ScanOf(layout, volumes) && identity == RawTargetIdentity(layout, volumes, target)
    requires |identities| == |normalized|
    requires forall j :: 0 <= j < |normalized| ==>
               identities[j] == RawTargetIdentity(layout, volumes, normalized[j].target)
    ensures match duplicate
            case None => forall j :: 0 <= j < |normalized| ==>
                           RegionOf(layout, normalized[j].target) != RegionOf(layout, target)
            case Some(j) => j < |normalized| && RegionOf(layout, normalized[j].target) == RegionOf(layout, target)
  {
    hide ScanOf, RawTargetIdentity, RegionOf, Lower;
    var i := 0;
    while i < |normalized|
      invariant i <= |normalized|
      invariant forall j :: 0 <= j < i ==> RegionOf(layout, normalized[j].target) != RegionOf(layout, target)
    {
      SameRegionIff(layout, volumes, normalized[i].target, target);
      if Lower(normalized[i].target) == Lower(target) || (identity.Some? && identity == identities[i]) {
        return Some(i);
      }
      i := i + 1;
    }
    return None;
  }

  lemma CandidateFacts(layout: Layout, volumes: seq<Volume>, mount: MountConfig)
    requires ScanOf(layout, volumes)
    ensures RegionOf(layout, Candidate(volumes, mount).target) == RegionOf(layout, mount.target)
    ensures var parsed := ParseRawTarget(Candidate(volumes, mount).target);
            Exact(volumes, mount) <==> AliasOf(volumes, mount.target) == None && parsed.Some? && parsed.value.partition != 0
  {
    hide ScanOf, ParseRawTarget, RegionOf, Lower;
    CanonicalKeepsRegion(layout, volumes, mount.target);
    SpellingsAgree(layout, mount.target, CanonicalTarget(volumes, mount.target));
  }

  lemma SettledGrows(layout: Layout, volumes: seq<Volume>, mounts: seq<MountConfig>, mount: MountConfig)
    ensures Settled(layout, volumes, mounts + [mount]) <==>
            && Settled(layout, volumes, mounts) && AliasOf(volumes, mount.target) == None
            && forall i :: 0 <= i < |mounts| ==> RegionOf(layout, mounts[i].target) != RegionOf(layout, mount.target)
  {
    hide RegionOf, AliasOf;
    var grown := mounts + [mount];
    assert grown[|mounts|] == mount;
    assert forall i :: 0 <= i < |mounts| ==> grown[i] == mounts[i];
  }

  lemma ListsGrow(layout: Layout, volumes: seq<Volume>, mounts: seq<MountConfig>, mount: MountConfig)
    ensures Regions(layout, mounts + [mount]) == Regions(layout, mounts) + [RegionOf(layout, mount.target)]
    ensures Exacts(volumes, mounts + [mount]) == Exacts(volumes, mounts) + [Exact(volumes, mount)]
  {
    hide RegionOf, Exact;
  }

  /** What the pass keeps beside each entry it has chosen from the mounts `seen`. */
  ghost predicate Entries(layout: Layout, volumes: seq<Volume>, seen: seq<MountConfig>, chosen: seq<nat>,
                          normalized: seq<MountConfig>, exacts: seq<bool>, identities: seq<Option<Identity>>)
  {
    && |normalized| == |chosen| == |exacts| == |identities|
    && forall j {:trigger normalized[j]} {:trigger chosen[j]} :: 0 <= j < |normalized| ==>
          0 <= chosen[j] < |seen| && Entry(layout, volumes, seen[chosen[j]], normalized[j], exacts[j], identities[j])
  }

  ghost predicate Entry(layout: Layout, volumes: seq<Volume>, mount: MountConfig,
                        candidate: MountConfig, exact: bool, identity: Option<Identity>)
  {
    && candidate == Candidate(volumes, mount) && exact == Exact(volumes, mount)
    && identity == RawTargetIdentity(layout, volumes, candidate.target)
  }

  ghost predicate PassInvariant(layout: Layout, volumes: seq<Volume>, seen: seq<MountConfig>, c: Choice,
                                normalized: seq<MountConfig>, exacts: seq<bool>, identities: seq<Option<Identity>>)
  {
    && Chosen(Regions(layout, seen), Exacts(volumes, seen), c)
    && Entries(layout, volumes, seen, c.chosen, normalized, exacts, identities)
  }

  lemma EntriesStay(layout: Layout, volumes: seq<Volume>, seen: seq<MountConfig>, chosen: seq<nat>,
                    normalized: seq<MountConfig>, exacts: seq<bool>, identities: seq<Option<Identity>>, mount: MountConfig)
    requires Entries(layout, volumes, seen, chosen, normalized, exacts, identities)
    ensures Entries(layout, volumes, seen + [mount], chosen, normalized, exacts, identities)
  {
    hide Entry;
    var seen' := seen + [mount];
    assert forall i :: 0 <= i < |seen| ==> seen'[i] == seen[i];
  }

  lemma EntryReplaced(layout: Layout, volumes: seq<Volume>, seen: seq<MountConfig>, chosen: seq<nat>,
                      normalized: seq<MountConfig>, exacts: seq<bool>, identities: seq<Option<Identity>>,
                      mount: MountConfig, at: nat)
    requires Entries(layout, volumes, seen, chosen, normalized, exacts, identities) && at < |chosen|
    ensures var candidate := Candidate(volumes, mount);
            Entries(layout, volumes, seen + [mount], chosen[at := |seen|], normalized[at := candidate],
                    exacts[at := Exact(volumes, mount)],
                    identities[at := RawTargetIdentity(layout, volumes, candidate.target)])
  {
    hide Candidate, Exact, RawTargetIdentity, Entry;
    EntriesStay(layout, volumes, seen, chosen, normalized, exacts, identities, mount);
    var seen', chosen' := seen + [mount], chosen[at := |seen|];
    var candidate, exact := Candidate(volumes, mount), Exact(volumes, mount);
    var normalized', exacts' := normalized[at := candidate], exacts[at := exact];
    var identities' := identities[at := RawTargetIdentity(layout, volumes, candidate.target)];
    EntryOf(layout, volumes, mount);
    assert forall j :: 0 <= j < |chosen| && j != at ==> chosen'[j] == chosen[j];
  }

  lemma EntryOf(layout: Layout, volumes: seq<Volume>, mount: MountConfig)
    ensures var candidate := Candidate(volumes, mount);
            Entry(layout, volumes, mount, candidate, Exact(volumes, mount), RawTargetIdentity(layout, volumes, candidate.target))
  {
  }

  lemma EntryRegions(layout: Layout, volumes: seq<Volume>, seen: seq<MountConfig>, c: Choice,
                     normalized: seq<MountConfig>, exacts: seq<bool>, identities: seq<Option<Identity>>)
    requires ScanOf(layout, volumes) && PassInvariant(layout, volumes, seen, c, normalized, exacts, identities)
    ensures |normalized| == |c.first| == |c.chosen| == |exacts| && |c.slot| == |seen|
    ensures forall j :: 0 <= j < |normalized| ==>
              && c.first[j] < |seen| && c.chosen[j] < |seen|
              && RegionOf(layout, normalized[j].target) == Regions(layout, seen)[c.first[j]]
              && exacts[j] == Exacts(volumes, seen)[c.chosen[j]]
    ensures forall i :: 0 <= i < |seen| ==>
              c.slot[i] < |normalized| && RegionOf(layout, normalized[c.slot[i]].target) == RegionOf(layout, seen[i].target)
  {
    hide ScanOf, RawTargetIdentity, RegionOf, Exact, NoneExact, Candidate;
    forall j | 0 <= j < |normalized|
      ensures RegionOf(layout, normalized[j].target) == Regions(layout, seen)[c.first[j]]
      ensures exacts[j] == Exacts(volumes, seen)[c.chosen[j]]
    {
      assert c.slot[c.chosen[j]] == j && normalized[j] == Candidate(volumes, seen[c.chosen[j]]);
      CandidateFacts(layout, volumes, seen[c.chosen[j]]);
    }
    forall i | 0 <= i < |seen|
      ensures c.slot[i] < |normalized| && RegionOf(layout, normalized[c.slot[i]].target) == RegionOf(layout, seen[i].target)
    {
      assert Regions(layout, seen)[i] == RegionOf(layout, seen[i].target);
    }
  }

  lemma EmptyChosen()
    ensures Chosen([], [], Choice([], [], []))
  {
    hide NoneExact;
    var c := Choice([], [], []);
    assert |c.first| == 0 && |c.chosen| == 0 && |c.slot| == 0;
  }

  lemma EmptyPass(layout: Layout, volumes: seq<Volume>)
    ensures PassInvariant(layout, volumes, [], Choice([], [], []), [], [], []) && Settled(layout, volumes, [])
  {
    hide Chosen, RegionOf, AliasOf, Exact, Candidate;
    EmptyChosen();
    assert Regions(layout, []) == [] && Exacts(volumes, []) == [];
  }

  lemma PassNew(layout: Layout, volumes: seq<Volume>, seen: seq<MountConfig>, c: Choice, normalized: seq<MountConfig>,
                exacts: seq<bool>, identities: seq<Option<Identity>>, mount: MountConfig) returns (c': Choice)
    requires ScanOf(layout, volumes) && PassInvariant(layout, volumes, seen, c, normalized, exacts, identities)
    requires forall j :: 0 <= j < |normalized| ==>
               RegionOf(layout, normalized[j].target) != RegionOf(layout, mount.target)
    ensures var candidate := Candidate(volumes, mount);
            PassInvariant(layout, volumes, seen + [mount], c', normalized + [candidate], exacts + [Exact(volumes, mount)],
                          identities + [RawTargetIdentity(layout, volumes, candidate.target)])
    ensures forall i :: 0 <= i < |seen| ==> RegionOf(layout, seen[i].target) != RegionOf(layout, mount.target)
  {
    hide ScanOf, RawTargetIdentity, RegionOf, Exact, Candidate, Chosen;
    ChosenInRange(Regions(layout, seen), Exacts(volumes, seen), c);
    EntryRegions(layout, volumes, seen, c, normalized, exacts, identities);
    ListsGrow(layout, volumes, seen, mount);
    ChooseNew(Regions(layout, seen), Exacts(volumes, seen), c, RegionOf(layout, mount.target), Exact(volumes, mount));
    c' := Choice(c.first + [|seen|], c.chosen + [|seen|], c.slot + [|c.first|]);
  }

  lemma PassDuplicate(layout: Layout, volumes: seq<Volume>, seen: seq<MountConfig>, c: Choice, normalized: seq<MountConfig>,
                      exacts: seq<bool>, identities: seq<Option<Identity>>, mount: MountConfig, at: nat) returns (c': Choice)
    requires ScanOf(layout, volumes) && PassInvariant(layout, volumes, seen, c, normalized, exacts, identities)
    requires at < |normalized| && RegionOf(layout, normalized[at].target) == RegionOf(layout, mount.target)
    ensures var candidate := Candidate(volumes, mount);
            if Exact(volumes, mount) && !exacts[at] then
              PassInvariant(layout, volumes, seen + [mount], c', normalized[at := candidate], exacts[at := true],
                            identities[at := RawTargetIdentity(layout, volumes, candidate.target)])
            else PassInvariant(layout, volumes, seen + [mount], c', normalized, exacts, identities)
    ensures exists i :: 0 <= i < |seen| && RegionOf(layout, seen[i].target) == RegionOf(layout, mount.target)
  {
    hide ScanOf, RawTargetIdentity, RegionOf, Exact, Candidate, Chosen, Entries;
    ChosenInRange(Regions(layout, seen), Exacts(volumes, seen), c);
    EntryRegions(layout, volumes, seen, c, normalized, exacts, identities);
    ListsGrow(layout, volumes, seen, mount);
    ChooseDuplicate(Regions(layout, seen), Exacts(volumes, seen), c, RegionOf(layout, mount.target), Exact(volumes, mount), at);
    var better := Exact(volumes, mount) && !exacts[at];
    c' := Choice(c.first, if better then c.chosen[at := |seen|] else c.chosen, c.slot + [at]);
    EntriesStay(layout, volumes, seen, c.chosen, normalized, exacts, identities, mount);
    EntryReplaced(layout, volumes, seen, c.chosen, normalized, exacts, identities, mount, at);
    assert RegionOf(layout, seen[c.first[at]].target) == RegionOf(layout, mount.target);
  }

  // Merging

  ghost predicate Covered(layout: Layout, mounts: seq<MountConfig>, volume: Volume) {
    exists m :: m in mounts && RegionOf(layout, m.target) == RegionOf(layout, volume.target)
  }

  lemma NoneGiven(layout: Layout, volumes: seq<Volume>, preferred: seq<MountConfig>, mounts: seq<MountConfig>, before: set<char>)
    ensures LettersGiven(preferred, mounts, |mounts|, before, before)
    ensures Added(layout, volumes, preferred, mounts, |mounts|)
  {
  }

  lemma NotCoveredBefore(layout: Layout, before: seq<MountConfig>, mounts: seq<MountConfig>, volume: Volume)
    requires before <= mounts && !Covered(layout, mounts, volume)
    ensures !Covered(layout, before, volume)
  {
    hide RegionOf;
    assert forall m :: m in before ==> m in mounts;
  }

  /** The mounts from index `from` on name scanned volumes, each in a region that nothing before has. */
  ghost predicate Added(layout: Layout, volumes: seq<Volume>, preferred: seq<MountConfig>, mounts: seq<MountConfig>, from: nat) {
    forall j :: from <= j < |mounts| ==>
      && (exists v :: v in volumes && mounts[j].target == v.target) && NewEntry(preferred, mounts[j])
      && forall i :: 0 <= i < j ==> RegionOf(layout, mounts[i].target) != RegionOf(layout, mounts[j].target)
  }

  ghost predicate AllPlaced(layout: Layout, mounts: seq<MountConfig>, volumes: seq<Volume>, unplaced: seq<Volume>) {
    forall v :: v in volumes ==> Covered(layout, mounts, v) || v in unplaced
  }

  /** A volume stays without a mount only for want of a letter, or because its preferred mount has none. */
  ghost predicate NoPlaceFor(layout: Layout, mounts: seq<MountConfig>, volumes: seq<Volume>, preferred: seq<MountConfig>,
                             unplaced: seq<Volume>, used: set<char>)
  {
    forall v :: v in unplaced ==>
      && v in volumes && !Covered(layout, mounts, v)
      && match PreferredMount(preferred, v.target)
         case Some(p) => p.mount == []
         case None => forall c :: Allocatable(c) ==> c in used
  }

  lemma AddedOne(layout: Layout, volumes: seq<Volume>, preferred: seq<MountConfig>, mounts: seq<MountConfig>, from: nat,
                 volume: Volume, mount: MountConfig)
    requires Added(layout, volumes, preferred, mounts, from) && volume in volumes && mount.target == volume.target
    requires NewEntry(preferred, mount) && !Covered(layout, mounts, volume)
    ensures Added(layout, volumes, preferred, mounts + [mount], from)
  {
    hide RegionOf, NewEntry;
    var grown := mounts + [mount];
    assert forall j :: 0 <= j < |mounts| ==> grown[j] == mounts[j];
    assert forall i :: 0 <= i < |mounts| ==> mounts[i] in mounts;
  }

  lemma PlacedSkipped(layout: Layout, mounts: seq<MountConfig>, volumes: seq<Volume>, unplaced: seq<Volume>, volume: Volume)
    requires AllPlaced(layout, mounts, volumes, unplaced) && Covered(layout, mounts, volume)
    ensures AllPlaced(layout, mounts, volumes + [volume], unplaced)
  {
    hide Covered;
  }

  lemma LeftUnplaced(layout: Layout, mounts: seq<MountConfig>, volumes: seq<Volume>, unplaced: seq<Volume>, volume: Volume)
    requires AllPlaced(layout, mounts, volumes, unplaced)
    ensures AllPlaced(layout, mounts, volumes + [volume], unplaced + [volume])
  {
    hide Covered;
  }

  lemma NoPlaceGrows(layout: Layout, mounts: seq<MountConfig>, volumes: seq<Volume>, preferred: seq<MountConfig>,
                     unplaced: seq<Volume>, used: set<char>, after: set<char>, volume: Volume)
    requires NoPlaceFor(layout, mounts, volumes, preferred, unplaced, used) && used <= after
    ensures NoPlaceFor(layout, mounts, volumes, preferred, unplaced, after)
    ensures && volume in volumes && !Covered(layout, mounts, volume)
            && (match PreferredMount(preferred, volume.target)
                case Some(p) => p.mount == []
                case None => forall c :: Allocatable(c) ==> c in used) ==>
              NoPlaceFor(layout, mounts, volumes, preferred, unplaced + [volume], after)
  {
    hide Covered, PreferredMount, Allocatable;
  }

  lemma PlacedOne(layout: Layout, mounts: seq<MountConfig>, volumes: seq<Volume>, unplaced: seq<Volume>,
                  volume: Volume, mount: MountConfig)
    requires AllPlaced(layout, mounts, volumes, unplaced) && mount.target == volume.target
    ensures AllPlaced(layout, mounts + [mount], volumes + [volume], unplaced)
  {
    hide RegionOf;
    assert mount in mounts + [mount];
    assert forall m :: m in mounts ==> m in mounts + [mount];
  }

  /** Merging keeps regions distinct. */
  lemma AddedKeepsDistinct(layout: Layout, volumes: seq<Volume>, preferred: seq<MountConfig>, mounts: seq<MountConfig>,
                           merged: seq<MountConfig>)
    requires mounts <= merged && Added(layout, volumes, preferred, merged, |mounts|) && DistinctRegions(layout, mounts)
    ensures DistinctRegions(layout, merged)
  {
    hide RegionOf, NewEntry;
    forall i, j | 0 <= i < j < |merged|
      ensures RegionOf(layout, merged[i].target) != RegionOf(layout, merged[j].target)
    {
      assert j < |mounts| ==> merged[i] == mounts[i] && merged[j] == mounts[j];
    }
  }

  lemma CoveredIsTaken(layout: Layout, mounts: seq<MountConfig>, volume: Volume)
    ensures Covered(layout, mounts, volume) <==> RegionOf(layout, volume.target) in RegionSet(layout, mounts)
  {
    hide RegionOf;
  }

  lemma RegionSetGrows(layout: Layout, mounts: seq<MountConfig>, mount: MountConfig)
    ensures RegionSet(layout, mounts + [mount]) == RegionSet(layout, mounts) + {RegionOf(layout, mount.target)}
  {
    hide RegionOf;
    assert forall m :: m in mounts + [mount] <==> m in mounts || m == mount;
  }

  /** One more mount, with its preferred place or with a letter. */
  lemma TrackAdded(layout: Layout, preferred: seq<MountConfig>, taken: set<Region>, entries: seq<MountConfig>,
                   volume: Volume, rest: seq<Volume>, before: set<char>, used: set<char>, after: set<char>,
                   wanting: nat, plan: seq<char>, mount: MountConfig)
    requires LettersOnTrack(layout, preferred, taken, entries, [volume] + rest, before, used, wanting, plan)
    requires RegionOf(layout, volume.target) !in taken && mount.target == volume.target && mount.mount != []
    requires match PreferredMount(preferred, volume.target)
             case Some(p) => mount.mount == p.mount && after == used
             case None =>
               && |mount.mount| == 2 && mount.mount[1] == ':' && Allocatable(mount.mount[0]) && mount.mount[0] !in used
               && after == used + {mount.mount[0]} && forall c :: mount.mount[0] < c <= 'Z' ==> c in used
    ensures LettersOnTrack(layout, preferred, taken + {RegionOf(layout, volume.target)}, entries + [mount], rest,
                           before, after, wanting, plan)
  {
    hide RegionOf, PreferredMount, LettersOnTrack;
    if PreferredMount(preferred, volume.target).Some? {
      TrackPreferred(layout, preferred, taken, entries, volume, rest, before, used, wanting, plan, mount);
    } else {
      assert mount.mount == [mount.mount[0], ':'];
      TrackGiven(layout, preferred, taken, entries, volume, rest, before, used, wanting, plan, mount, mount.mount[0]);
    }
  }

  lemma TrackEnd(layout: Layout, preferred: seq<MountConfig>, taken: set<Region>, entries: seq<MountConfig>,
                 before: set<char>, used: set<char>, wanting: nat, plan: seq<char>)
    requires LettersOnTrack(layout, preferred, taken, entries, [], before, used, wanting, plan)
    ensures ExactLetters(before, used, wanting) && plan == PreferredLetters(preferred, entries)
    ensures multiset(AllocatedLetters(preferred, entries)) == multiset(used - before)
  {
    hide RegionOf, PreferredMount;
    HighestExact(before, used, wanting);
  }

  /** Each volume takes one letter, or is left without a place, or neither. */
  ghost predicate OneForEach(before: set<char>, used: set<char>, unplaced: seq<Volume>, volumes: nat) {
    |used - before| + |unplaced| <= volumes
  }

  lemma NoneTaken(before: set<char>, layout: Layout, mounts: seq<MountConfig>, volumes: seq<Volume>, preferred: seq<MountConfig>)
    ensures OneForEach(before, before, [], 0) && AllPlaced(layout, mounts, [], [])
    ensures NoPlaceFor(layout, mounts, volumes, preferred, [], before)
  {
    assert before - before == {};
  }

  lemma OneMore(before: set<char>, used: set<char>, after: set<char>, unplaced: seq<Volume>, volumes: nat,
                mount: MountConfig, volume: Volume)
    requires before <= used && OneForEach(before, used, unplaced, volumes)
    requires after == used || (mount.mount != [] && after == used + {mount.mount[0]})
    ensures OneForEach(before, used, unplaced, volumes + 1)
    ensures OneForEach(before, after, unplaced, volumes + 1)
    ensures after == used ==> OneForEach(before, after, unplaced + [volume], volumes + 1)
  {
    if after != used {
      assert after - before == (used - before) + ({mount.mount[0]} - before);
    }
  }

  /** While there are as many free letters as volumes, none stays without a mount. */
  lemma NothingUnplaced(layout: Layout, mounts: seq<MountConfig>, volumes: seq<Volume>, unplaced: seq<Volume>,
                        before: set<char>, used: set<char>)
    requires NoPlaceFor(layout, mounts, volumes, [], unplaced, used)
    requires OneForEach(before, used, unplaced, |volumes|) && |volumes| <= |set c: char | 'D' <= c <= 'Z' && c !in before|
    ensures unplaced == []
  {
    hide Covered;
    if unplaced != [] {
      assert unplaced[0] in unplaced;
      assert forall c :: Allocatable(c) ==> c in used;
      Smaller(Free(before), used - before);
      assert false;
    }
  }

  /** A capital that is the drive letter neither of Windows nor, in either case, of a mount. */
  ghost predicate FreshLetter(letter: char, drives: set<char>, mounts: seq<MountConfig>)
    requires 'A' <= letter <= 'Z'
  {
    letter !in drives && forall m :: m in mounts ==> m.mount != [letter, ':'] && m.mount != [(letter as int + 32) as char, ':']
  }

  /** A preferred mount comes into force as it is. */
  lemma PreferredEntry(layout: Layout, volumes: seq<Volume>, preferred: seq<MountConfig>, mounts: seq<MountConfig>,
                       merged: seq<MountConfig>, j: nat, i: nat)
    requires Added(layout, volumes, preferred, merged, |mounts|) && |mounts| <= j < |merged| && i < |preferred|
    requires Lower(preferred[i].target) == Lower(merged[j].target)
    requires forall h :: 0 <= h < i ==> Lower(preferred[h].target) != Lower(merged[j].target)
    ensures merged[j] == preferred[i].(target := merged[j].target)
  {
    hide RegionOf, Lower, PreferredMount;
    PreferredIsFirst(preferred, merged[j].target);
    assert NewEntry(preferred, merged[j]);
  }

  lemma LetterIsTaken(mounts: seq<MountConfig>, m: MountConfig)
    requires m in mounts
    ensures LetterOf(m.mount).Some? ==> LetterOf(m.mount).value in LettersOf(mounts)
  {
    hide LetterOf;
  }

  lemma NewDrive(layout: Layout, volumes: seq<Volume>, preferred: seq<MountConfig>, mounts: seq<MountConfig>,
                 merged: seq<MountConfig>, drives: set<char>, used: set<char>, j: nat)
    requires Added(layout, volumes, preferred, merged, |mounts|) && |mounts| <= j < |merged|
    requires LettersGiven(preferred, merged, |mounts|, drives + LettersOf(mounts), used)
    requires forall p :: p in preferred ==> Lower(p.target) != Lower(merged[j].target)
    ensures !merged[j].readOnly && merged[j].allowRawWrites && merged[j].enabled
    ensures |merged[j].mount| == 2 && 'D' <= merged[j].mount[0] <= 'Z' && merged[j].mount[1] == ':'
    ensures FreshLetter(merged[j].mount[0], drives, mounts)
  {
    hide RegionOf, LetterOf, Lower, PreferredMount;
    var mount := merged[j];
    PreferredIsFirst(preferred, mount.target);
    assert NewEntry(preferred, mount);
    var letter := mount.mount[0];
    assert letter in used - (drives + LettersOf(mounts));
    DriveOccupies((letter as int + 32) as char, []);
    forall m | m in mounts
      ensures m.mount != [letter, ':'] && m.mount != [(letter as int + 32) as char, ':']
    {
      assert [letter, ':'] + [] == [letter, ':'];
      assert [(letter as int + 32) as char, ':'] + [] == [(letter as int + 32) as char, ':'];
      LetterIsTaken(mounts, m);
    }
  }

  /** Volumes that start at different places each get an entry of their own. */
  lemma EachStartHasItsEntry(layout: Layout, volumes: seq<Volume>, mounts: seq<MountConfig>, unplaced: seq<Volume>,
                             u: Volume, v: Volume) returns (i: nat, j: nat)
    requires ScanOf(layout, volumes) && AllPlaced(layout, mounts, volumes, unplaced)
    requires u in volumes && v in volumes && u !in unplaced && v !in unplaced
    requires u.disk != v.disk || (if u.partition == 0 then 0 else u.offset) != (if v.partition == 0 then 0 else v.offset)
    ensures i < |mounts| && j < |mounts| && i != j
    ensures RegionOf(layout, mounts[i].target) == OnDisk(Identity(u.disk, if u.partition == 0 then 0 else u.offset))
    ensures RegionOf(layout, mounts[j].target) == OnDisk(Identity(v.disk, if v.partition == 0 then 0 else v.offset))
  {
    hide RegionOf, ScanOf;
    VolumeRegion(layout, volumes, u);
    VolumeRegion(layout, volumes, v);
    assert Covered(layout, mounts, u) && Covered(layout, mounts, v);
    var m :| m in mounts && RegionOf(layout, m.target) == RegionOf(layout, u.target);
    var n :| n in mounts && RegionOf(layout, n.target) == RegionOf(layout, v.target);
    i :| 0 <= i < |mounts| && mounts[i] == m;
    j :| 0 <= j < |mounts| && mounts[j] == n;
  }

  /** What holds after `k` volumes. */
  ghost predicate Merging(layout: Layout, volumes: seq<Volume>, preferred: seq<MountConfig>, first: seq<MountConfig>,
                          mounts: seq<MountConfig>, unplaced: seq<Volume>, before: set<char>, used: set<char>, k: nat,
                          wanting: nat, plan: seq<char>)
  {
    && k <= |volumes| && first <= mounts && before <= used
    && Added(layout, volumes, preferred, mounts, |first|)
    && AllPlaced(layout, mounts, volumes[..k], unplaced)
    && NoPlaceFor(layout, first, volumes, preferred, unplaced, used)
    && OneForEach(before, used, unplaced, k)
    && LettersGiven(preferred, mounts, |first|, before, used)
    && LettersOnTrack(layout, preferred, RegionSet(layout, mounts), mounts[|first|..], volumes[k..], before, used, wanting, plan)
  }

  lemma MergeStart(layout: Layout, volumes: seq<Volume>, preferred: seq<MountConfig>, mounts: seq<MountConfig>, before: set<char>)
    ensures Merging(layout, volumes, preferred, mounts, mounts, [], before, before, 0,
                    Wanting(layout, RegionSet(layout, mounts), volumes, preferred),
                    PlannedLetters(layout, RegionSet(layout, mounts), volumes, preferred, |Free(before)|))
  {
    hide RegionOf, LettersGiven, PreferredMount, Added, LettersOnTrack, RegionSet, Wanting, PlannedLetters, OneForEach,
      AllPlaced, NoPlaceFor;
    NoneGiven(layout, volumes, preferred, mounts, before);
    NoneTaken(before, layout, mounts, volumes, preferred);
    TrackStart(layout, preferred, RegionSet(layout, mounts), volumes, before);
    assert mounts[|mounts|..] == [] && volumes[0..] == volumes && volumes[..0] == [];
  }

  /** A volume that some mount covers. */
  lemma MergeSkips(layout: Layout, volumes: seq<Volume>, preferred: seq<MountConfig>, first: seq<MountConfig>,
                   mounts: seq<MountConfig>, unplaced: seq<Volume>, before: set<char>, used: set<char>, k: nat,
                   wanting: nat, plan: seq<char>)
    requires Merging(layout, volumes, preferred, first, mounts, unplaced, before, used, k, wanting, plan)
    requires k < |volumes| && Covered(layout, mounts, volumes[k])
    ensures Merging(layout, volumes, preferred, first, mounts, unplaced, before, used, k + 1, wanting, plan)
  {
    hide RegionOf, LettersGiven, PreferredMount, Added, Covered, LettersOnTrack, RegionSet, OneForEach, AllPlaced, NoPlaceFor;
    var volume := volumes[k];
    assert volumes[k..] == [volume] + volumes[k + 1..] && volumes[..k + 1] == volumes[..k] + [volume];
    CoveredIsTaken(layout, mounts, volume);
    PlacedSkipped(layout, mounts, volumes[..k], unplaced, volume);
    OneMore(before, used, used, unplaced, k, MountConfig([], [], false, false, false), volume);
    TrackSkipped(layout, preferred, RegionSet(layout, mounts), mounts[|first|..], volume, volumes[k + 1..], before, used,
                 wanting, plan);
  }

  /** A volume without a place. */
  lemma MergeLeaves(layout: Layout, volumes: seq<Volume>, preferred: seq<MountConfig>, first: seq<MountConfig>,
                    mounts: seq<MountConfig>, unplaced: seq<Volume>, before: set<char>, used: set<char>, k: nat,
                    wanting: nat, plan: seq<char>)
    requires Merging(layout, volumes, preferred, first, mounts, unplaced, before, used, k, wanting, plan)
    requires k < |volumes| && !Covered(layout, mounts, volumes[k])
    requires match PreferredMount(preferred, volumes[k].target)
             case Some(p) => p.mount == []
             case None => forall c :: Allocatable(c) ==> c in used
    ensures Merging(layout, volumes, preferred, first, mounts, unplaced + [volumes[k]], before, used, k + 1, wanting, plan)
  {
    hide RegionOf, LettersGiven, PreferredMount, Added, Covered, LettersOnTrack, RegionSet, OneForEach, AllPlaced, NoPlaceFor;
    var volume := volumes[k];
    assert volumes[k..] == [volume] + volumes[k + 1..] && volumes[..k + 1] == volumes[..k] + [volume];
    NotCoveredBefore(layout, first, mounts, volume);
    LeftUnplaced(layout, mounts, volumes[..k], unplaced, volume);
    NoPlaceGrows(layout, first, volumes, preferred, unplaced, used, used, volume);
    OneMore(before, used, used, unplaced, k, MountConfig([], [], false, false, false), volume);
    TrackSkipped(layout, preferred, RegionSet(layout, mounts), mounts[|first|..], volume, volumes[k + 1..], before, used,
                 wanting, plan);
  }

  /** A volume that gets a mount. */
  lemma MergeAdds(layout: Layout, volumes: seq<Volume>, preferred: seq<MountConfig>, first: seq<MountConfig>,
                  mounts: seq<MountConfig>, unplaced: seq<Volume>, before: set<char>, used: set<char>, after: set<char>,
                  k: nat, wanting: nat, plan: seq<char>, mount: MountConfig)
    requires Merging(layout, volumes, preferred, first, mounts, unplaced, before, used, k, wanting, plan)
    requires k < |volumes| && !Covered(layout, mounts, volumes[k])
    requires mount.target == volumes[k].target && mount.mount != [] && NewEntry(preferred, mount)
    requires match PreferredMount(preferred, volumes[k].target)
             case Some(p) => mount.mount == p.mount && after == used
             case None =>
               && |mount.mount| == 2 && mount.mount[1] == ':' && Allocatable(mount.mount[0]) && mount.mount[0] !in used
               && after == used + {mount.mount[0]} && forall c :: mount.mount[0] < c <= 'Z' ==> c in used
    ensures Merging(layout, volumes, preferred, first, mounts + [mount], unplaced, before, after, k + 1, wanting, plan)
  {
    hide RegionOf, LettersGiven, PreferredMount, Added, Covered, LettersOnTrack, RegionSet, OneForEach, AllPlaced, NoPlaceFor,
      NewEntry;
    var volume := volumes[k];
    assert volumes[k..] == [volume] + volumes[k + 1..] && volumes[..k + 1] == volumes[..k] + [volume];
    CoveredIsTaken(layout, mounts, volume);
    NoPlaceGrows(layout, first, volumes, preferred, unplaced, used, after, volume);
    OneMore(before, used, after, unplaced, k, mount, volume);
    TrackAdded(layout, preferred, RegionSet(layout, mounts), mounts[|first|..], volume, volumes[k + 1..], before, used, after,
               wanting, plan, mount);
    RegionSetGrows(layout, mounts, mount);
    assert (mounts + [mount])[|first|..] == mounts[|first|..] + [mount];
    LetterGiven(preferred, mounts, |first|, before, used, mount);
    AddedOne(layout, volumes, preferred, mounts, |first|, volume, mount);
    PlacedOne(layout, mounts, volumes[..k], unplaced, volume, mount);
  }

  lemma MergeEnd(layout: Layout, volumes: seq<Volume>, preferred: seq<MountConfig>, first: seq<MountConfig>,
                 mounts: seq<MountConfig>, unplaced: seq<Volume>, before: set<char>, used: set<char>, wanting: nat,
                 plan: seq<char>)
    requires Merging(layout, volumes, preferred, first, mounts, unplaced, before, used, |volumes|, wanting, plan)
    requires wanting == Wanting(layout, RegionSet(layout, first), volumes, preferred)
    requires plan == PlannedLetters(layout, RegionSet(layout, first), volumes, preferred, |Free(before)|)
    ensures Added(layout, volumes, preferred, mounts, |first|) && AllPlaced(layout, mounts, volumes, unplaced)
    ensures NoPlaceFor(layout, first, volumes, preferred, unplaced, used) && OneForEach(before, used, unplaced, |volumes|)
    ensures LettersGiven(preferred, mounts, |first|, before, used) && |first| <= |mounts|
    ensures LettersExact(layout, volumes, preferred, first, mounts, before, used)
  {
    hide RegionOf, LettersGiven, PreferredMount, Added, Covered, LettersOnTrack, RegionSet, OneForEach, AllPlaced, NoPlaceFor,
      Wanting, PlannedLetters, ExactLetters, PreferredLetters, AllocatedLetters;
    assert volumes[..|volumes|] == volumes && volumes[|volumes|..] == [];
    TrackEnd(layout, preferred, RegionSet(layout, mounts), mounts[|first|..], before, used, wanting, plan);
  }

  /** The service's mount list. */
  class MountTable {
    var mounts: seq<MountConfig>

    constructor (mounts: seq<MountConfig>)
      ensures this.mounts == mounts
    {
      this.mounts := mounts;
    }

    /** Keeps one entry for each region, in the order in which the regions first appear: the first
        entry that names the partition itself if there is one, else the first entry. Reports a change
        exactly when there was something to do; the list it leaves has nothing left to do. */
    method CanonicalizeDiscoveredMountAliases(layout: Layout, volumes: seq<Volume>) returns (changed: bool, ghost choice: Choice)
      requires ScanOf(layout, volumes)
      modifies this
      ensures changed <==> !Settled(layout, volumes, old(mounts))
      ensures Settled(layout, volumes, mounts)
      ensures !changed ==> mounts == old(mounts)
      ensures changed ==> ChosenFrom(layout, volumes, old(mounts), choice, mounts)
      ensures CanonicalOf(layout, volumes, old(mounts), mounts)
      ensures forall i :: 0 <= i < |old(mounts)| ==>
                RegionOf(layout, old(mounts)[i].target) in Regions(layout, mounts)
      ensures forall m, v :: m in mounts && v in volumes && v.partition != 0 && v.offset == 0 ==>
                Lower(m.target) != Lower(PhysicalDrivePath(v.disk))
    {
      hide PhysicalDrivePath, Lower, ScanOf, RawTargetIdentity, RegionOf, Exact, CanonicalTarget, Best, InOrder,
        AliasOf, ParseRawTarget, Settled, Chosen;
      var normalized, exactTargets, identities := [], [], [];
      changed := false;
      choice := Choice([], [], []);
      EmptyPass(layout, volumes);
      var k := 0;
      while k < |mounts|
        invariant k <= |mounts| && mounts == old(mounts)
        invariant PassInvariant(layout, volumes, mounts[..k], choice, normalized, exactTargets, identities)
        invariant changed <==> !Settled(layout, volumes, mounts[..k])
      {
        var mount := mounts[k];
        assert mounts[..k + 1] == mounts[..k] + [mount];
        var target, wasAlias := CanonicalDiscoveredTarget(mount.target, volumes);
        var candidate := mount.(target := target);
        var parsed := ParseRawTarget(candidate.target);
        var candidateIsExact := !wasAlias && parsed.Some? && parsed.value.partition != 0;
        var identity := RawTargetIdentity(layout, volumes, candidate.target);
        CandidateFacts(layout, volumes, mount);
        SettledGrows(layout, volumes, mounts[..k], mount);
        var duplicate := FindDuplicate(layout, volumes, candidate.target, identity, normalized, identities);
        k := k + 1;
        if duplicate == None {
          choice := PassNew(layout, volumes, mounts[..k - 1], choice, normalized, exactTargets, identities, mount);
          normalized := normalized + [candidate];
          exactTargets := exactTargets + [candidateIsExact];
          identities := identities + [identity];
          changed := changed || wasAlias;
          continue;
        }
        changed := true;
        var at := duplicate.value;
        choice := PassDuplicate(layout, volumes, mounts[..k - 1], choice, normalized, exactTargets, identities, mount, at);
        if candidateIsExact && !exactTargets[at] {
          normalized := normalized[at := candidate];
          exactTargets := exactTargets[at := true];
          identities := identities[at := identity];
        }
      }
      assert mounts[..k] == mounts;
      ChosenInRange(Regions(layout, mounts), Exacts(volumes, mounts), choice);
      ChosenIsSettled(layout, volumes, mounts, choice, normalized);
      if changed {
        mounts := normalized;
      } else {
        assert forall i :: 0 <= i < |mounts| ==> Regions(layout, mounts)[i] == RegionOf(layout, mounts[i].target);
      }
      SettledHasNoAlias(layout, volumes, mounts);
    }

    /** `std::any_of` over the mounts. */
    method HasRegionOf(layout: Layout, volumes: seq<Volume>, volume: Volume) returns (found: bool)
      requires ScanOf(layout, volumes)
      ensures found <==> Covered(layout, mounts, volume)
    {
      hide ScanOf, SameRawRegion, RegionOf;
      var i := 0;
      while i < |mounts|
        invariant i <= |mounts|
        invariant forall j :: 0 <= j < i ==> RegionOf(layout, mounts[j].target) != RegionOf(layout, volume.target)
      {
        SameRegionIff(layout, volumes, mounts[i].target, volume.target);
        if SameRawRegion(layout, volumes, mounts[i].target, volume.target) {
          return true;
        }
        i := i + 1;
      }
      return false;
    }

    /** The pass over the volumes. */
    method MergeVolumes(layout: Layout, volumes: seq<Volume>, drives: set<char>, preferred: seq<MountConfig>)
      returns (changed: bool, unplaced: seq<Volume>, ghost used: set<char>)
      requires ScanOf(layout, volumes)
      modifies this
      ensures old(mounts) <= mounts && (changed <==> mounts != old(mounts))
      ensures Added(layout, volumes, preferred, mounts, |old(mounts)|)
      ensures AllPlaced(layout, mounts, volumes, unplaced)
      ensures NoPlaceFor(layout, old(mounts), volumes, preferred, unplaced, used)
      ensures LettersGiven(preferred, mounts, |old(mounts)|, drives + LettersOf(old(mounts)), used)
      ensures LettersExact(layout, volumes, preferred, old(mounts), mounts, drives + LettersOf(old(mounts)), used)
      ensures OneForEach(drives + LettersOf(old(mounts)), used, unplaced, |volumes|)
    {
      hide ScanOf, RegionOf, LettersGiven, PreferredMount, LetterOf, LettersOf, Added, Covered, NewEntry, RegionSet,
        Wanting, PlannedLetters, OneForEach, AllPlaced, NoPlaceFor, LettersExact, Merging;
      unplaced, changed := [], false;
      var usedLetters := UsedDriveLetters(drives, mounts);
      ghost var before := usedLetters;
      ghost var wanting := Wanting(layout, RegionSet(layout, mounts), volumes, preferred);
      ghost var plan := PlannedLetters(layout, RegionSet(layout, mounts), volumes, preferred, |Free(before)|);
      MergeStart(layout, volumes, preferred, mounts, before);
      var k := 0;
      while k < |volumes|
        invariant k <= |volumes| && old(mounts) <= mounts && (changed <==> mounts != old(mounts))
        invariant Merging(layout, volumes, preferred, old(mounts), mounts, unplaced, before, usedLetters, k, wanting, plan)
      {
        var volume := volumes[k];
        k := k + 1;
        var covered := HasRegionOf(layout, volumes, volume);
        if covered {
          MergeSkips(layout, volumes, preferred, old(mounts), mounts, unplaced, before, usedLetters, k - 1, wanting, plan);
          continue;
        }
        ghost var usedBefore := usedLetters;
        var newMount;
        newMount, usedLetters := EntryFor(volume, preferred, usedLetters);
        if newMount.mount == [] {
          MergeLeaves(layout, volumes, preferred, old(mounts), mounts, unplaced, before, usedLetters, k - 1, wanting, plan);
          unplaced := unplaced + [volume];
          continue;
        }
        MergeAdds(layout, volumes, preferred, old(mounts), mounts, unplaced, before, usedBefore, usedLetters, k - 1, wanting,
                  plan, newMount);
        mounts := mounts + [newMount];
        changed := true;
      }
      used := usedLetters;
      MergeEnd(layout, volumes, preferred, old(mounts), mounts, unplaced, before, used, wanting, plan);
    }

    /** Adds an entry for every discovered volume that no mount covers. Existing mounts stay, as a
        prefix; each new one names a volume whose region nothing before it has; a volume is left
        uncovered only if it is reported. Letters given out are free, from D to Z, and given once;
        they run out only when all 23 are taken. */
    method MergeDiscoveredMounts(layout: Layout, volumes: seq<Volume>, drives: set<char>, preferred: seq<MountConfig>)
      returns (changed: bool, unplaced: seq<Volume>, ghost used: set<char>)
      requires ScanOf(layout, volumes)
      modifies this
      ensures old(mounts) <= mounts && (changed <==> mounts != old(mounts))
      ensures Added(layout, volumes, preferred, mounts, |old(mounts)|)
      ensures AllPlaced(layout, mounts, volumes, unplaced)
      ensures NoPlaceFor(layout, old(mounts), volumes, preferred, unplaced, used)
      ensures LettersGiven(preferred, mounts, |old(mounts)|, drives + LettersOf(old(mounts)), used)
      ensures LettersExact(layout, volumes, preferred, old(mounts), mounts, drives + LettersOf(old(mounts)), used)
      ensures forall v :: v in volumes && v !in unplaced ==>
                exists m :: m in mounts && RegionOf(layout, m.target) == RegionOf(layout, v.target)
      ensures preferred == [] && |volumes| <= |set c: char | 'D' <= c <= 'Z' && c !in drives + LettersOf(old(mounts))| ==>
                unplaced == []
      ensures forall j ::
                |old(mounts)| <= j < |mounts| && (forall p :: p in preferred ==> Lower(p.target) != Lower(mounts[j].target)) ==>
                && !mounts[j].readOnly && mounts[j].allowRawWrites && mounts[j].enabled
                && |mounts[j].mount| == 2 && 'D' <= mounts[j].mount[0] <= 'Z' && mounts[j].mount[1] == ':'
                && FreshLetter(mounts[j].mount[0], drives, old(mounts))
      ensures forall j, i ::
                (&& |old(mounts)| <= j < |mounts| && 0 <= i < |preferred| && Lower(preferred[i].target) == Lower(mounts[j].target)
                 && forall h :: 0 <= h < i ==> Lower(preferred[h].target) != Lower(mounts[j].target)) ==>
                  mounts[j] == preferred[i].(target := mounts[j].target)
    {
      hide ScanOf, RegionOf, Lower, FreshLetter, LettersGiven, LettersExact, Added, NoPlaceFor, LettersOf, OneForEach;
      changed, unplaced, used := MergeVolumes(layout, volumes, drives, preferred);
      if preferred == [] && |volumes| <= |set c: char | 'D' <= c <= 'Z' && c !in drives + LettersOf(old(mounts))| {
        NothingUnplaced(layout, old(mounts), volumes, unplaced, drives + LettersOf(old(mounts)), used);
      }
      forall j | |old(mounts)| <= j < |mounts| && (forall p :: p in preferred ==> Lower(p.target) != Lower(mounts[j].target))
        ensures !mounts[j].readOnly && mounts[j].allowRawWrites && mounts[j].enabled
        ensures |mounts[j].mount| == 2 && 'D' <= mounts[j].mount[0] <= 'Z' && mounts[j].mount[1] == ':'
        ensures FreshLetter(mounts[j].mount[0], drives, old(mounts))
      {
        NewDrive(layout, volumes, preferred, old(mounts), mounts, drives, used, j);
      }
      forall j, i | && |old(mounts)| <= j < |mounts| && 0 <= i < |preferred|
                    && Lower(preferred[i].target) == Lower(mounts[j].target)
                    && forall h :: 0 <= h < i ==> Lower(preferred[h].target) != Lower(mounts[j].target)
        ensures mounts[j] == preferred[i].(target := mounts[j].target)
      {
        PreferredEntry(layout, volumes, preferred, old(mounts), mounts, j, i);
      }
    }
  }

  /** The second partition of a disk is mounted beside the first. */
  method SecondPartition(layout: Layout, first: Volume, second: Volume, mount: MountConfig)
    returns (table: MountTable, changed: bool)
    requires ScanOf(layout, [first, second]) && first.partition != 0 && second.partition != 0
    requires first.disk == second.disk && first.offset != second.offset
    requires mount.target == first.target && mount.mount == "E:"
    ensures changed && |table.mounts| == 2 && table.mounts[0] == mount
    ensures table.mounts[1].target == second.target && |table.mounts[1].mount| == 2
    ensures 'D' <= table.mounts[1].mount[0] <= 'Z' && table.mounts[1].mount[0] != 'E'
  {
    hide RegionOf, PreferredMount, ScanOf, LettersExact, LettersGiven, NoPlaceFor, AllPlaced, LetterOf, NewEntry;
    table := new MountTable([mount]);
    var unplaced;
    ghost var used;
    var volumes := [first, second];
    assert first in volumes && second in volumes;
    SameRegionOfVolumes(layout, volumes, first, second);
    EnoughLetters(mount);
    changed, unplaced, used := table.MergeDiscoveredMounts(layout, volumes, {}, []);
    OnlySecond(layout, first, second, mount, table.mounts);
  }

  lemma EnoughLetters(mount: MountConfig)
    requires mount.mount == "E:"
    ensures 2 <= |set c: char | 'D' <= c <= 'Z' && c !in {} + LettersOf([mount])|
  {
    LetterOfAllocated('E');
    assert "E:" == ['E', ':'];
    hide LetterOf;
    assert LettersOf([mount]) == {'E'};
    Smaller({'Y', 'Z'}, Free({} + LettersOf([mount])));
  }

  lemma AddedDiffer(layout: Layout, volumes: seq<Volume>, merged: seq<MountConfig>, i: nat, j: nat)
    requires Added(layout, volumes, [], merged, 1) && 1 <= i < j < |merged|
    ensures merged[i].target != merged[j].target
  {
    hide RegionOf;
  }

  lemma OnlySecond(layout: Layout, first: Volume, second: Volume, mount: MountConfig, merged: seq<MountConfig>)
    requires [mount] <= merged && Added(layout, [first, second], [], merged, 1) && mount.target == first.target
    requires RegionOf(layout, first.target) != RegionOf(layout, second.target)
    requires exists m :: m in merged && RegionOf(layout, m.target) == RegionOf(layout, second.target)
    ensures |merged| == 2 && merged[0] == mount && merged[1].target == second.target
  {
    hide RegionOf, NewEntry;
    var m :| m in merged && RegionOf(layout, m.target) == RegionOf(layout, second.target);
    var j :| 0 <= j < |merged| && merged[j] == m;
    assert merged[0] == [mount][0];
    forall k | 1 <= k < |merged|
      ensures merged[k].target == second.target
    {
      assert RegionOf(layout, merged[0].target) != RegionOf(layout, merged[k].target);
    }
    if |merged| > 2 {
      AddedDiffer(layout, [first, second], merged, 1, 2);
      assert false;
    }
  }

  /** A preferred letter is not marked as used, so the next volume can get it too: when a first volume
      prefers `Z:` and a second one has no preference, both are mounted there. */
  method PreferredLetterClash(layout: Layout, first: Volume, second: Volume, preferred: seq<MountConfig>)
    returns (table: MountTable)
    requires ScanOf(layout, [first, second]) && RegionOf(layout, first.target) != RegionOf(layout, second.target)
    requires PreferredMount(preferred, first.target).Some? && PreferredMount(preferred, second.target) == None
    requires PreferredMount(preferred, first.target).value.mount == "Z:"
    ensures multiset(Letters(table.mounts)) == multiset{'Z', 'Z'}
  {
    hide RegionOf, PreferredMount, ScanOf, Given, Added, AllPlaced, NoPlaceFor, LettersGiven, Wanting, PlannedLetters,
      PreferredLetters, AllocatedLetters, Letters, ExactLetters, Free;
    table := new MountTable([]);
    var changed, unplaced;
    ghost var used;
    changed, unplaced, used := table.MergeDiscoveredMounts(layout, [first, second], {}, preferred);
    ghost var entries := table.mounts[0..];
    assert entries == table.mounts;
    assert RegionSet(layout, []) == {} && {} + LettersOf([]) == {};
    ClashingPlan(layout, first, second, preferred);
    LastGiven(used);
    LettersSplit(preferred, entries);
  }

  lemma ClashingPlan(layout: Layout, first: Volume, second: Volume, preferred: seq<MountConfig>)
    requires RegionOf(layout, first.target) != RegionOf(layout, second.target)
    requires PreferredMount(preferred, first.target).Some? && PreferredMount(preferred, second.target) == None
    requires PreferredMount(preferred, first.target).value.mount == "Z:"
    ensures Wanting(layout, {}, [first, second], preferred) == 1
    ensures PlannedLetters(layout, {}, [first, second], preferred, |Free({})|) == ['Z']
  {
    hide RegionOf, PreferredMount, LetterOf;
    var volumes, region := [first, second], RegionOf(layout, first.target);
    assert volumes[1..] == [second] && [second][1..] == [];
    LetterOfAllocated('Z');
    assert "Z:" == ['Z', ':'] && 'Z' in Free({});
    assert Wanting(layout, {} + {region}, [second], preferred) == 1;
    assert PlannedLetters(layout, {} + {region}, [second], preferred, |Free({})|) == [];
  }

  lemma LastGiven(used: set<char>)
    requires ExactLetters({}, used, 1)
    ensures used - {} == {'Z'}
  {
    assert FreeAbove({}, 'Z') == {};
    forall c | c in used
      ensures c == 'Z'
    {
      assert Given({}, 1, c);
      assert c < 'Z' ==> 'Z' in FreeAbove({}, c);
    }
    assert Given({}, 1, 'Z');
    assert 'Z' in used - {};
  }
}
